/** Well-formed documents as they are written, and that the parser of xml.c reads them back. */
module XmlDocuments {
  import opened Bytes
  import opened XmlText

  /** What a document is made of, with the text in front of each tag; lists are in the order of the text. */
  datatype Item =
    | Container(gap: seq<Byte>, kind: Kind, items: seq<Item>, tail: seq<Byte>)
    | Named(gap: seq<Byte>, text: seq<Byte>, value: Item)
    | Content(gap: seq<Byte>, kind: Kind, text: seq<Byte>)
    | Bare(gap: seq<Byte>, kind: Kind)

  /** Text that opens no tag. */
  predicate IsPlain(t: seq<Byte>) {
    forall i | 0 <= i < |t| :: t[i] != NUL && t[i] != OPEN
  }

  predicate WellFormed(item: Item) {
    IsPlain(item.gap) &&
    match item
    case Container(_, kind, items, tail) =>
      (kind == Dict || kind == Array) && IsPlain(tail) && forall i | 0 <= i < |items| :: WellFormed(items[i])
    case Named(_, text, value) => IsPlain(text) && WellFormed(value)
    case Content(_, kind, text) => IsPlain(text) && (kind == String || kind == Integer || kind == Data || kind == Date)
    case Bare(_, kind) => kind == Dict || kind == Array || kind == True || kind == False
  }

  function OpenTag(kind: Kind): string {
    match kind
    case Dict => "<dict>"
    case Array => "<array>"
    case Key => "<key>"
    case String => "<string>"
    case Integer => "<integer>"
    case Data => "<data>"
    case Date => "<date>"
    case True => "<true>"
    case False => "<false>"
  }

  function EndTag(kind: Kind): string {
    match kind
    case Dict => "</dict>"
    case Array => "</array>"
    case Key => "</key>"
    case String => "</string>"
    case Integer => "</integer>"
    case Data => "</data>"
    case Date => "</date>"
    case True => "</true>"
    case False => "</false>"
  }

  function BareTag(kind: Kind): string {
    match kind
    case Dict => "<dict/>"
    case Array => "<array/>"
    case True => "<true/>"
    case False => "<false/>"
    case _ => ""
  }

  function Printed(item: Item): seq<Byte>
    decreases item, 0
  {
    match item
    case Container(gap, kind, items, tail) =>
      gap + (Ascii(OpenTag(kind)) + (PrintedAll(items) + (tail + Ascii(EndTag(kind)))))
    case Named(gap, text, value) => gap + (Ascii("<key>") + (text + (Ascii("</key>") + Printed(value))))
    case Content(gap, kind, text) => gap + (Ascii(OpenTag(kind)) + (text + Ascii(EndTag(kind))))
    case Bare(gap, kind) => gap + Ascii(BareTag(kind))
  }

  function PrintedAll(items: seq<Item>): seq<Byte>
    decreases items, 0
  {
    if items == [] then [] else Printed(items[0]) + PrintedAll(items[1..])
  }

  /** The tag an item is read as: lists turned round, text kept for keys and strings only. */
  function Read(item: Item): Tag
    decreases item, 0
  {
    match item
    case Container(_, kind, items, _) => Tag(kind, None, ReadAll(items))
    case Named(_, text, value) => Tag(Key, Some(text), [Read(value)])
    case Content(_, kind, text) => Tag(kind, if kind == String then Some(text) else None, [])
    case Bare(_, kind) => Tag(kind, None, [])
  }

  function ReadAll(items: seq<Item>): seq<Tag>
    decreases items, 0
  {
    if items == [] then [] else ReadAll(items[1..]) + [Read(items[0])]
  }

  // ----- finding a tag

  lemma FindBehind(s: seq<Byte>, pos: nat, gap: seq<Byte>, c: Byte)
    requires LiesAt(s, pos, gap) && pos + |gap| < |s| && s[pos + |gap|] == c
    requires forall i | 0 <= i < |gap| :: gap[i] != NUL && gap[i] != c
    ensures Find(s, pos, c) == pos + |gap|
  {
    forall j | pos <= j < pos + |gap|
      ensures s[j] != NUL && s[j] != c
    {
      assert s[j] == s[pos..pos + |gap|][j - pos] == gap[j - pos];
    }
    FindIs(s, pos, c, pos + |gap|);
  }

  /** Behind a gap stands the tag of this name. */
  lemma TagBehind(s: seq<Byte>, pos: nat, gap: seq<Byte>, name: seq<Byte>)
    requires IsPlain(gap) && (forall i | 0 <= i < |name| :: name[i] != NUL && name[i] != CLOSE)
    requires LiesAt(s, pos, gap + ([OPEN] + name + [CLOSE]))
    ensures var a := pos + |gap|;
            NextTag(s, pos) == Some((a, a + |name| + 1)) && NameAt(s, (a, a + |name| + 1)) == name
  {
    var a := pos + |gap|;
    LiesParts(s, pos, gap, [OPEN] + name + [CLOSE]);
    LiesParts(s, a, [OPEN] + name, [CLOSE]);
    LiesParts(s, a, [OPEN], name);
    assert s[a] == s[a..a + 1][0] && s[a + 1 + |name|] == s[a + 1 + |name|..a + 1 + |name| + 1][0];
    FindBehind(s, pos, gap, OPEN);
    FindBehind(s, a + 1, name, CLOSE);
  }

  function Bracketed(name: string): string {
    "<" + name + ">"
  }

  lemma BracketedBytes(name: string)
    ensures Ascii(Bracketed(name)) == [OPEN] + Ascii(name) + [CLOSE]
  {
  }

  /** The tag written as text stands behind a gap. */
  lemma TagWritten(s: seq<Byte>, pos: nat, gap: seq<Byte>, text: string, name: string)
    requires IsPlain(gap) && text == Bracketed(name) && LiesAt(s, pos, gap + Ascii(text))
    requires forall i | 0 <= i < |name| :: 0 < name[i] as int < 256 && name[i] != '>'
    ensures var a := pos + |gap|;
            NextTag(s, pos) == Some((a, a + |text| - 1)) && NameAt(s, (a, a + |text| - 1)) == Ascii(name)
  {
    BracketedBytes(name);
    hide Ascii;
    assert forall i | 0 <= i < |name| :: Ascii(name)[i] == name[i] as int by {
      AsciiBytes(name);
    }
    TagBehind(s, pos, gap, Ascii(name));
  }

  lemma AsciiBytes(name: string)
    requires forall i | 0 <= i < |name| :: 0 < name[i] as int < 256
    ensures forall i | 0 <= i < |name| :: Ascii(name)[i] == name[i] as int
  {
  }

  function TagName(kind: Kind): string {
    match kind
    case Dict => "dict"
    case Array => "array"
    case Key => "key"
    case String => "string"
    case Integer => "integer"
    case Data => "data"
    case Date => "date"
    case True => "true"
    case False => "false"
  }

  function BareName(kind: Kind): string {
    match kind
    case Dict => "dict/"
    case Array => "array/"
    case True => "true/"
    case False => "false/"
    case _ => "/"
  }

  lemma OpenBracketed(kind: Kind)
    ensures OpenTag(kind) == Bracketed(TagName(kind))
  {
  }

  lemma EndBracketed(kind: Kind)
    ensures EndTag(kind) == Bracketed("/" + TagName(kind))
  {
  }

  lemma BareBracketed(kind: Kind)
    requires kind in {Dict, Array, True, False}
    ensures BareTag(kind) == Bracketed(BareName(kind))
    ensures forall i | 0 <= i < |BareName(kind)| :: 0 < BareName(kind)[i] as int < 256 && BareName(kind)[i] != '>'
  {
  }

  lemma NamesArePlain(kind: Kind)
    ensures forall i | 0 <= i < |TagName(kind)| :: 0 < TagName(kind)[i] as int < 256 && TagName(kind)[i] != '>'
  {
  }

  lemma OpenTagAt(s: seq<Byte>, pos: nat, gap: seq<Byte>, kind: Kind)
    requires IsPlain(gap) && LiesAt(s, pos, gap + Ascii(OpenTag(kind)))
    ensures var a := pos + |gap|;
            var t := (a, a + |OpenTag(kind)| - 1);
            NextTag(s, pos) == Some(t) && NameAt(s, t) == Ascii(TagName(kind))
  {
    OpenBracketed(kind);
    NamesArePlain(kind);
    hide TagName, OpenTag, EndTag, BareTag;
    TagWritten(s, pos, gap, OpenTag(kind), TagName(kind));
  }

  lemma EndTagAt(s: seq<Byte>, pos: nat, gap: seq<Byte>, kind: Kind)
    requires IsPlain(gap) && LiesAt(s, pos, gap + Ascii(EndTag(kind)))
    ensures var a := pos + |gap|;
            var t := (a, a + |EndTag(kind)| - 1);
            NextTag(s, pos) == Some(t) && IsEnd(NameAt(s, t), Ascii(TagName(kind)))
  {
    EndBracketed(kind);
    NamesArePlain(kind);
    hide TagName, OpenTag, EndTag, BareTag;
    TagWritten(s, pos, gap, EndTag(kind), "/" + TagName(kind));
    assert Ascii("/" + TagName(kind)) == [47] + Ascii(TagName(kind));
  }

  lemma BareTagAt(s: seq<Byte>, pos: nat, gap: seq<Byte>, kind: Kind)
    requires kind in {Dict, Array, True, False} && IsPlain(gap) && LiesAt(s, pos, gap + Ascii(BareTag(kind)))
    ensures var a := pos + |gap|;
            var t := (a, a + |BareTag(kind)| - 1);
            NextTag(s, pos) == Some(t) && NameAt(s, t) == Ascii(BareName(kind))
  {
    BareBracketed(kind);
    hide BareName, BareTag;
    TagWritten(s, pos, gap, BareTag(kind), BareName(kind));
  }

  // ----- what the parser makes of a name

  lemma NameBytes()
    ensures DICT[0] == 100 && DICT_EMPTY[0] == 100 && KEY[0] == 107 && STRING[0] == 115 && INTEGER[0] == 105
    ensures DATA[0] == 100 && DATE[0] == 100 && FALSE[0] == 102 && TRUE[0] == 116 && ARRAY[0] == 97 && ARRAY_EMPTY[0] == 97
    ensures PLIST[0] == 112 && DICT[1] == 105 && DATA[1] == 97 && DATE[1] == 97 && DATA[3] == 97 && DATE[3] == 101
  {
  }

  /** What an opening tag is the beginning of. */
  lemma ParseOpen(s: seq<Byte>, pos: nat, t: (nat, nat), kind: Kind)
    requires pos <= |s| && NextTag(s, pos) == Some(t) && NameAt(s, t) == Ascii(TagName(kind))
    ensures kind == Dict || kind == Array ==> Parse(s, pos) == ParseList(s, t.1 + 1, kind)
    ensures kind == Key ==> Parse(s, pos) == ParseKey(s, t.1 + 1)
    ensures kind == String || kind == Integer || kind == Data || kind == Date ==>
      Parse(s, pos) == ParseData(s, t.1 + 1, Ascii(TagName(kind)), kind)
  {
    NameBytes();
    hide ParseList, ParseKey, ParseData, NextTag, Ascii;
  }

  lemma ParseBare(s: seq<Byte>, pos: nat, t: (nat, nat), kind: Kind)
    requires pos <= |s| && NextTag(s, pos) == Some(t) && kind in {Dict, Array, True, False}
    requires NameAt(s, t) == Ascii(BareName(kind))
    ensures Parse(s, pos) == Got(Some(Tag(kind, None, [])), t.1 + 1)
  {
    NameBytes();
    hide ParseList, ParseKey, ParseData, NextTag, Ascii;
  }

  /** An end tag is none that the parser knows. */
  lemma ParseEnd(s: seq<Byte>, pos: nat, t: (nat, nat), name: seq<Byte>)
    requires pos <= |s| && NextTag(s, pos) == Some(t) && IsEnd(NameAt(s, t), name)
    ensures Parse(s, pos) == Got(None, t.1 + 1)
  {
    NameBytes();
    hide ParseList, ParseKey, ParseData, NextTag, Ascii;
  }

  // ----- reading a document back

  /** The text in front of an end tag is the data. */
  lemma DataWritten(s: seq<Byte>, pos: nat, text: seq<Byte>, kind: Kind)
    requires IsPlain(text) && LiesAt(s, pos, text + Ascii(EndTag(kind)))
    ensures var tag := Ascii(TagName(kind));
            NextTag(s, pos).Some? && DataAt(s, pos, tag) == text
            && EndOfData(s, pos, tag) == Some(pos + |text| + |EndTag(kind)|)
  {
    LiesParts(s, pos, text, Ascii(EndTag(kind)));
    EndTagAt(s, pos, text, kind);
    hide NextTag, TagName, EndTag, IsEnd, Ascii;
  }

  function InOrder(items: seq<Item>): seq<Tag> {
    if items == [] then [] else [Read(items[0])] + InOrder(items[1..])
  }

  lemma {:induction false} ReadIsReversed(items: seq<Item>)
    ensures Reverse(InOrder(items)) == ReadAll(items)
  {
    if items != [] {
      ReadIsReversed(items[1..]);
      assert InOrder(items)[1..] == InOrder(items[1..]);
    }
  }

  lemma GapSplit(gap: seq<Byte>, a: seq<Byte>, b: seq<Byte>, s: seq<Byte>, pos: nat)
    requires LiesAt(s, pos, gap + (a + b))
    ensures LiesAt(s, pos, gap + a) && LiesAt(s, pos + |gap| + |a|, b)
  {
    assert gap + (a + b) == (gap + a) + b;
    LiesParts(s, pos, gap + a, b);
  }

  /** Wherever a well-formed document stands, the parser reads it and goes on behind it. */
  lemma {:induction false} ItemParsed(s: seq<Byte>, pos: nat, item: Item)
    requires WellFormed(item) && LiesAt(s, pos, Printed(item))
    ensures Parse(s, pos) == Got(Some(Read(item)), pos + |Printed(item)|)
    decreases item, 1
  {
    hide Parse, ParseList, ParseItems, ParseKey, ParseData, NextTag, EndOfData, DataAt, TagName, OpenTag, EndTag, BareTag, BareName, LiesAt;
    match item
    case Container(gap, kind, items, tail) =>
      var inner := PrintedAll(items) + (tail + Ascii(EndTag(kind)));
      var p := pos + |gap| + |Ascii(OpenTag(kind))|;
      GapSplit(gap, Ascii(OpenTag(kind)), inner, s, pos);
      OpenTagAt(s, pos, gap, kind);
      ParseOpen(s, pos, (pos + |gap|, p - 1), kind);
      ItemsParsed(s, p, items, tail, kind);
      ListIs(s, p, items, p + |inner|, kind);
    case Named(gap, text, value) =>
      NamedParsed(s, pos, gap, text, value);
    case Content(gap, kind, text) =>
      ContentParsed(s, pos, gap, kind, text);
    case Bare(gap, kind) =>
      BareTagAt(s, pos, gap, kind);
      ParseBare(s, pos, (pos + |gap|, pos + |gap| + |BareTag(kind)| - 1), kind);
  }

  lemma ListIs(s: seq<Byte>, pos: nat, items: seq<Item>, end: nat, kind: Kind)
    requires pos <= |s| && ParseItems(s, pos) == Items(InOrder(items), end)
    ensures ParseList(s, pos, kind) == Got(Some(Tag(kind, None, ReadAll(items))), end)
  {
    ReadIsReversed(items);
    hide ParseItems, ReadAll, InOrder;
  }

  lemma ItemsEnd(s: seq<Byte>, pos: nat, end: nat)
    requires pos <= |s| && Parse(s, pos) == Got(None, end)
    ensures ParseItems(s, pos) == Items(InOrder([]), end)
  {
    hide Parse;
  }

  lemma ItemsMore(s: seq<Byte>, pos: nat, items: seq<Item>, next: nat, end: nat)
    requires items != [] && pos <= |s| && Parse(s, pos) == Got(Some(Read(items[0])), next)
    requires next <= |s| && ParseItems(s, next) == Items(InOrder(items[1..]), end)
    ensures ParseItems(s, pos) == Items(InOrder(items), end)
  {
    hide Parse, Read;
  }

  lemma {:induction false} ItemsParsed(s: seq<Byte>, pos: nat, items: seq<Item>, tail: seq<Byte>, kind: Kind)
    requires IsPlain(tail) && (forall i | 0 <= i < |items| :: WellFormed(items[i]))
    requires LiesAt(s, pos, PrintedAll(items) + (tail + Ascii(EndTag(kind))))
    ensures pos <= |s| && ParseItems(s, pos) == Items(InOrder(items), pos + |PrintedAll(items)| + |tail| + |EndTag(kind)|)
    decreases items, 0
  {
    hide Parse, ParseItems, Printed, WellFormed, NextTag, TagName, EndTag, IsPlain, InOrder, Read;
    var close := tail + Ascii(EndTag(kind));
    if items == [] {
      assert PrintedAll(items) + close == close;
      EndTagAt(s, pos, tail, kind);
      ParseEnd(s, pos, (pos + |tail|, pos + |tail| + |EndTag(kind)| - 1), Ascii(TagName(kind)));
      ItemsEnd(s, pos, pos + |close|);
    } else {
      var first, rest := Printed(items[0]), PrintedAll(items[1..]);
      assert PrintedAll(items) + close == first + (rest + close);
      LiesParts(s, pos, first, rest + close);
      ItemParsed(s, pos, items[0]);
      ItemsParsed(s, pos + |first|, items[1..], tail, kind);
      ItemsMore(s, pos, items, pos + |first|, pos + |first| + |rest| + |close|);
    }
  }

  lemma KeyIs(s: seq<Byte>, pos: nat, text: seq<Byte>, e: nat, value: Tag, end: nat)
    requires pos <= |s| && EndOfData(s, pos, Ascii(TagName(Key))) == Some(e) && Parse(s, e) == Got(Some(value), end)
    requires NextTag(s, pos).Some? && DataAt(s, pos, Ascii(TagName(Key))) == text
    ensures ParseKey(s, pos) == Got(Some(Tag(Key, Some(text), [value])), end)
  {
    hide Parse, EndOfData, DataAt, NextTag;
  }

  lemma {:induction false} NamedParsed(s: seq<Byte>, pos: nat, gap: seq<Byte>, text: seq<Byte>, value: Item)
    requires IsPlain(gap) && IsPlain(text) && WellFormed(value) && LiesAt(s, pos, Printed(Named(gap, text, value)))
    ensures Parse(s, pos) == Got(Some(Tag(Key, Some(text), [Read(value)])), pos + |Printed(Named(gap, text, value))|)
    decreases value, 2
  {
    hide Parse, ParseKey, Printed, WellFormed, NextTag, EndOfData, DataAt, TagName, EndTag, OpenTag, IsPlain, Ascii, LiesAt;
    var o, e, v := Ascii(OpenTag(Key)), Ascii(EndTag(Key)), Printed(value);
    NamedParts(gap, text, value);
    var p := pos + |gap| + |o|;
    GapSplit(gap, o, text + (e + v), s, pos);
    GapSplit(text, e, v, s, p);
    OpenTagAt(s, pos, gap, Key);
    ParseOpen(s, pos, (pos + |gap|, p - 1), Key);
    DataWritten(s, p, text, Key);
    ItemParsed(s, p + |text| + |e|, value);
    KeyIs(s, p, text, p + |text| + |e|, Read(value), p + |text| + |e| + |v|);
  }

  lemma NamedParts(gap: seq<Byte>, text: seq<Byte>, value: Item)
    ensures Printed(Named(gap, text, value)) == gap + (Ascii(OpenTag(Key)) + (text + (Ascii(EndTag(Key)) + Printed(value))))
  {
  }

  lemma ContentParts(gap: seq<Byte>, kind: Kind, text: seq<Byte>)
    ensures Printed(Content(gap, kind, text)) == gap + (Ascii(OpenTag(kind)) + (text + Ascii(EndTag(kind))))
  {
  }

  lemma DataIs(s: seq<Byte>, pos: nat, gap: seq<Byte>, text: seq<Byte>, e: nat, kind: Kind)
    requires kind == String || kind == Integer || kind == Data || kind == Date
    requires pos <= |s| && EndOfData(s, pos, Ascii(TagName(kind))) == Some(e)
    requires NextTag(s, pos).Some? && DataAt(s, pos, Ascii(TagName(kind))) == text
    ensures ParseData(s, pos, Ascii(TagName(kind)), kind) == Got(Some(Read(Content(gap, kind, text))), e)
  {
    hide Parse, EndOfData, DataAt, NextTag;
  }

  lemma ContentParsed(s: seq<Byte>, pos: nat, gap: seq<Byte>, kind: Kind, text: seq<Byte>)
    requires IsPlain(gap) && IsPlain(text) && (kind == String || kind == Integer || kind == Data || kind == Date)
    requires LiesAt(s, pos, Printed(Content(gap, kind, text)))
    ensures Parse(s, pos) == Got(Some(Read(Content(gap, kind, text))), pos + |Printed(Content(gap, kind, text))|)
  {
    hide Parse, ParseData, Printed, NextTag, EndOfData, DataAt, TagName, EndTag, OpenTag, IsPlain, Ascii, LiesAt;
    var o, e := Ascii(OpenTag(kind)), Ascii(EndTag(kind));
    ContentParts(gap, kind, text);
    var p := pos + |gap| + |o|;
    GapSplit(gap, o, text + e, s, pos);
    OpenTagAt(s, pos, gap, kind);
    ParseOpen(s, pos, (pos + |gap|, p - 1), kind);
    DataWritten(s, p, text, kind);
    DataIs(s, p, gap, text, p + |text| + |e|, kind);
  }

  // ----- a document cut short

  /** Only a beginning of t stands at pos, and then the text ends. */
  ghost predicate CutAt(s: seq<Byte>, pos: nat, t: seq<Byte>) {
    exists n :: 0 <= n < |t| && EndsAfter(s, pos, t, n)
  }

  predicate EndsAfter(s: seq<Byte>, pos: nat, t: seq<Byte>, n: nat) {
    n <= |t| && LiesAt(s, pos, t[..n]) && (pos + n == |s| || s[pos + n] == NUL)
  }

  lemma CutParts(s: seq<Byte>, pos: nat, a: seq<Byte>, b: seq<Byte>)
    requires CutAt(s, pos, a + b)
    ensures CutAt(s, pos, a) || (LiesAt(s, pos, a) && CutAt(s, pos + |a|, b))
  {
    var n :| 0 <= n < |a + b| && EndsAfter(s, pos, a + b, n);
    if n < |a| {
      assert (a + b)[..n] == a[..n];
      assert EndsAfter(s, pos, a, n);
    } else {
      var m := n - |a|;
      assert (a + b)[..n] == a + b[..m];
      LiesParts(s, pos, a, b[..m]);
      assert EndsAfter(s, pos + |a|, b, m);
    }
  }

  /** No tag is found in what is left of one. */
  lemma TagCut(s: seq<Byte>, pos: nat, gap: seq<Byte>, name: seq<Byte>)
    requires IsPlain(gap) && (forall i | 0 <= i < |name| :: name[i] != NUL && name[i] != CLOSE)
    requires CutAt(s, pos, gap + ([OPEN] + name + [CLOSE]))
    ensures pos <= |s| && NextTag(s, pos) == None
  {
    var t := gap + ([OPEN] + name + [CLOSE]);
    var n :| 0 <= n < |t| && EndsAfter(s, pos, t, n);
    var e := pos + n;
    forall j | pos <= j < e
      ensures s[j] == t[j - pos]
    {
      assert s[j] == s[pos..pos + n][j - pos] == t[..n][j - pos];
    }
    if n <= |gap| {
      FindStops(s, pos, OPEN, e);
    } else {
      var a := pos + |gap|;
      assert s[a] == OPEN;
      FindIs(s, pos, OPEN, a);
      FindStops(s, a + 1, CLOSE, e);
    }
  }

  lemma {:induction false} FindStops(s: seq<Byte>, pos: nat, c: Byte, e: nat)
    requires pos <= e <= |s| && (e < |s| ==> s[e] == NUL) && c != NUL
    requires forall j | pos <= j < e :: s[j] != NUL && s[j] != c
    ensures Find(s, pos, c) == e && !Found(s, e, c)
    decreases e - pos
  {
    if pos < e {
      FindStops(s, pos + 1, c, e);
    }
  }

  lemma WrittenCut(s: seq<Byte>, pos: nat, gap: seq<Byte>, text: string, name: string)
    requires IsPlain(gap) && text == Bracketed(name) && CutAt(s, pos, gap + Ascii(text))
    requires forall i | 0 <= i < |name| :: 0 < name[i] as int < 256 && name[i] != '>'
    ensures pos <= |s| && NextTag(s, pos) == None
  {
    BracketedBytes(name);
    AsciiBytes(name);
    hide Ascii, CutAt;
    TagCut(s, pos, gap, Ascii(name));
  }

  lemma OpenTagCut(s: seq<Byte>, pos: nat, gap: seq<Byte>, kind: Kind)
    requires IsPlain(gap) && CutAt(s, pos, gap + Ascii(OpenTag(kind)))
    ensures pos <= |s| && NextTag(s, pos) == None
  {
    OpenBracketed(kind);
    NamesArePlain(kind);
    hide TagName, OpenTag, CutAt;
    WrittenCut(s, pos, gap, OpenTag(kind), TagName(kind));
  }

  lemma EndTagCut(s: seq<Byte>, pos: nat, gap: seq<Byte>, kind: Kind)
    requires IsPlain(gap) && CutAt(s, pos, gap + Ascii(EndTag(kind)))
    ensures pos <= |s| && NextTag(s, pos) == None
  {
    EndBracketed(kind);
    NamesArePlain(kind);
    hide TagName, EndTag, CutAt;
    WrittenCut(s, pos, gap, EndTag(kind), "/" + TagName(kind));
  }

  lemma BareTagCut(s: seq<Byte>, pos: nat, gap: seq<Byte>, kind: Kind)
    requires kind in {Dict, Array, True, False} && IsPlain(gap) && CutAt(s, pos, gap + Ascii(BareTag(kind)))
    ensures pos <= |s| && NextTag(s, pos) == None
  {
    BareBracketed(kind);
    hide BareName, BareTag, CutAt;
    WrittenCut(s, pos, gap, BareTag(kind), BareName(kind));
  }

  lemma GapCut(gap: seq<Byte>, a: seq<Byte>, b: seq<Byte>, s: seq<Byte>, pos: nat)
    requires CutAt(s, pos, gap + (a + b))
    ensures CutAt(s, pos, gap + a) || (LiesAt(s, pos, gap + a) && CutAt(s, pos + |gap| + |a|, b))
  {
    assert gap + (a + b) == (gap + a) + b;
    CutParts(s, pos, gap + a, b);
  }

  lemma NoTagFails(s: seq<Byte>, pos: nat, tag: seq<Byte>)
    requires pos <= |s| && NextTag(s, pos) == None
    ensures Parse(s, pos) == Fail && EndOfData(s, pos, tag) == None
  {
    hide NextTag;
  }

  /** Wherever a well-formed document has been cut short, the parser fails. */
  lemma {:induction false} CutFails(s: seq<Byte>, pos: nat, item: Item)
    requires WellFormed(item) && CutAt(s, pos, Printed(item))
    ensures pos <= |s| && Parse(s, pos) == Fail
    decreases item, 1
  {
    hide Parse, ParseList, ParseItems, ParseKey, ParseData, NextTag, EndOfData, DataAt, TagName, OpenTag, EndTag, BareTag, BareName, LiesAt, CutAt;
    match item
    case Container(gap, kind, items, tail) =>
      var o, inner := Ascii(OpenTag(kind)), PrintedAll(items) + (tail + Ascii(EndTag(kind)));
      GapCut(gap, o, inner, s, pos);
      if CutAt(s, pos, gap + o) {
        OpenTagCut(s, pos, gap, kind);
        NoTagFails(s, pos, []);
      } else {
        OpenTagAt(s, pos, gap, kind);
        ParseOpen(s, pos, (pos + |gap|, pos + |gap| + |o| - 1), kind);
        ItemsCut(s, pos + |gap| + |o|, items, tail, kind);
        ListFails(s, pos + |gap| + |o|, kind);
      }
    case Named(gap, text, value) =>
      NamedCut(s, pos, gap, text, value);
    case Content(gap, kind, text) =>
      ContentCut(s, pos, gap, kind, text);
    case Bare(gap, kind) =>
      BareTagCut(s, pos, gap, kind);
      NoTagFails(s, pos, []);
  }

  lemma ListFails(s: seq<Byte>, pos: nat, kind: Kind)
    requires pos <= |s| && ParseItems(s, pos) == NoList(false)
    ensures ParseList(s, pos, kind) == Fail
  {
    hide ParseItems;
  }

  lemma FirstFails(s: seq<Byte>, pos: nat)
    requires pos <= |s| && Parse(s, pos) == Fail
    ensures ParseItems(s, pos) == NoList(false)
  {
    hide Parse;
  }

  lemma RestFails(s: seq<Byte>, pos: nat, t: Tag, next: nat)
    requires pos <= |s| && Parse(s, pos) == Got(Some(t), next) && next <= |s| && ParseItems(s, next) == NoList(false)
    ensures ParseItems(s, pos) == NoList(false)
  {
    hide Parse;
  }

  lemma {:induction false} ItemsCut(s: seq<Byte>, pos: nat, items: seq<Item>, tail: seq<Byte>, kind: Kind)
    requires IsPlain(tail) && (forall i | 0 <= i < |items| :: WellFormed(items[i]))
    requires CutAt(s, pos, PrintedAll(items) + (tail + Ascii(EndTag(kind))))
    ensures pos <= |s| && ParseItems(s, pos) == NoList(false)
    decreases items, 0
  {
    hide Parse, ParseItems, Printed, WellFormed, NextTag, TagName, EndTag, IsPlain, Read, LiesAt, CutAt;
    var close := tail + Ascii(EndTag(kind));
    if items == [] {
      assert PrintedAll(items) + close == close;
      EndTagCut(s, pos, tail, kind);
      NoTagFails(s, pos, []);
      FirstFails(s, pos);
    } else {
      var first, rest := Printed(items[0]), PrintedAll(items[1..]);
      assert PrintedAll(items) + close == first + (rest + close);
      CutParts(s, pos, first, rest + close);
      if CutAt(s, pos, first) {
        CutFails(s, pos, items[0]);
        FirstFails(s, pos);
      } else {
        ItemParsed(s, pos, items[0]);
        ItemsCut(s, pos + |first|, items[1..], tail, kind);
        RestFails(s, pos, Read(items[0]), pos + |first|);
      }
    }
  }

  lemma DataFails(s: seq<Byte>, pos: nat, kind: Kind)
    requires pos <= |s| && EndOfData(s, pos, Ascii(TagName(kind))) == None
    ensures kind == Key ==> ParseKey(s, pos) == Fail
    ensures ParseData(s, pos, Ascii(TagName(kind)), kind) == Fail
  {
    hide EndOfData, Parse;
  }

  lemma ValueFails(s: seq<Byte>, pos: nat, e: nat)
    requires pos <= |s| && EndOfData(s, pos, Ascii(TagName(Key))) == Some(e) && Parse(s, e) == Fail
    ensures ParseKey(s, pos) == Fail
  {
    hide EndOfData, Parse;
  }

  lemma {:induction false} NamedCut(s: seq<Byte>, pos: nat, gap: seq<Byte>, text: seq<Byte>, value: Item)
    requires IsPlain(gap) && IsPlain(text) && WellFormed(value) && CutAt(s, pos, Printed(Named(gap, text, value)))
    ensures pos <= |s| && Parse(s, pos) == Fail
    decreases value, 2
  {
    hide Parse, ParseKey, Printed, WellFormed, NextTag, EndOfData, DataAt, TagName, EndTag, OpenTag, IsPlain, Ascii, LiesAt, CutAt;
    var o, e, v := Ascii(OpenTag(Key)), Ascii(EndTag(Key)), Printed(value);
    NamedParts(gap, text, value);
    var p := pos + |gap| + |o|;
    GapCut(gap, o, text + (e + v), s, pos);
    if CutAt(s, pos, gap + o) {
      OpenTagCut(s, pos, gap, Key);
      NoTagFails(s, pos, []);
      return;
    }
    OpenTagAt(s, pos, gap, Key);
    ParseOpen(s, pos, (pos + |gap|, p - 1), Key);
    GapCut(text, e, v, s, p);
    if CutAt(s, p, text + e) {
      EndTagCut(s, p, text, Key);
      NoTagFails(s, p, Ascii(TagName(Key)));
      DataFails(s, p, Key);
    } else {
      DataWritten(s, p, text, Key);
      CutFails(s, p + |text| + |e|, value);
      ValueFails(s, p, p + |text| + |e|);
    }
  }

  lemma ContentCut(s: seq<Byte>, pos: nat, gap: seq<Byte>, kind: Kind, text: seq<Byte>)
    requires IsPlain(gap) && IsPlain(text) && (kind == String || kind == Integer || kind == Data || kind == Date)
    requires CutAt(s, pos, Printed(Content(gap, kind, text)))
    ensures pos <= |s| && Parse(s, pos) == Fail
  {
    hide Parse, ParseData, Printed, NextTag, EndOfData, DataAt, TagName, EndTag, OpenTag, IsPlain, Ascii, LiesAt, CutAt;
    var o, e := Ascii(OpenTag(kind)), Ascii(EndTag(kind));
    ContentParts(gap, kind, text);
    var p := pos + |gap| + |o|;
    GapCut(gap, o, text + e, s, pos);
    if CutAt(s, pos, gap + o) {
      OpenTagCut(s, pos, gap, kind);
      NoTagFails(s, pos, []);
    } else {
      OpenTagAt(s, pos, gap, kind);
      ParseOpen(s, pos, (pos + |gap|, p - 1), kind);
      EndTagCut(s, p, text, kind);
      NoTagFails(s, p, Ascii(TagName(kind)));
      DataFails(s, p, kind);
    }
  }

  // ----- what stands in front of a document

  /** A tag by itself: a declaration, or the opening of the property list. */
  datatype Heading = Heading(gap: seq<Byte>, name: seq<Byte>)

  predicate IsHeading(h: Heading) {
    IsPlain(h.gap) && forall i | 0 <= i < |h.name| :: h.name[i] != NUL && h.name[i] != CLOSE
  }

  /** Such as <?xml ...> and <!DOCTYPE ...>. */
  predicate IsDeclaration(h: Heading) {
    IsHeading(h) && h.name != [] && (h.name[0] == 63 || h.name[0] == 33)
  }

  predicate IsPlistTag(h: Heading) {
    IsHeading(h) && Ascii("plist ") <= h.name
  }

  function HeadingText(h: Heading): seq<Byte> {
    h.gap + ([60] + h.name + [62])
  }

  function HeadingTexts(hs: seq<Heading>): seq<Byte> {
    if hs == [] then [] else HeadingText(hs[0]) + HeadingTexts(hs[1..])
  }

  lemma HeadingParsed(s: seq<Byte>, pos: nat, h: Heading)
    requires LiesAt(s, pos, HeadingText(h))
    ensures IsDeclaration(h) ==> Parse(s, pos) == Got(None, pos + |HeadingText(h)|)
    ensures IsPlistTag(h) ==> Parse(s, pos) == Plist(pos + |HeadingText(h)|)
  {
    NameBytes();
    if IsHeading(h) {
      TagBehind(s, pos, h.gap, h.name);
    }
    hide ParseList, ParseKey, ParseData, NextTag, Ascii, LiesAt;
  }
}
