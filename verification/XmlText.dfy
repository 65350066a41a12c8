/** What xml.c reads from a text: the tags as values, parsed from characters that do not change. */
module XmlText {
  import opened Bytes

  const NUL: Byte := 0
  const OPEN: Byte := 60  // '<'
  const CLOSE: Byte := 62 // '>'

  datatype Kind = Dict | Key | String | Integer | Data | Date | False | True | Array

  /** A tag; `tags` is the list its tag field heads, in list order. */
  datatype Tag = Tag(kind: Kind, name: Option<seq<Byte>>, tags: seq<Tag>)

  /** A text from pos on: some NUL follows. */
  ghost predicate Ends(s: seq<Byte>, pos: nat) {
    exists e | pos <= e < |s| :: s[e] == NUL
  }

  /** The first c or NUL at or after pos. */
  function Find(s: seq<Byte>, pos: nat, c: Byte): (i: nat)
    requires pos <= |s|
    ensures pos <= i <= |s| && (i < |s| ==> s[i] == NUL || s[i] == c)
    ensures forall j | pos <= j < i :: s[j] != NUL && s[j] != c
    decreases |s| - pos
  {
    if pos == |s| || s[pos] == NUL || s[pos] == c then pos else Find(s, pos + 1, c)
  }

  predicate Found(s: seq<Byte>, i: nat, c: Byte) {
    i < |s| && s[i] == c
  }

  /** Where the next tag opens and closes. */
  function NextTag(s: seq<Byte>, pos: nat): (r: Option<(nat, nat)>)
    requires pos <= |s|
    ensures r.Some? ==> pos <= r.value.0 < r.value.1 < |s|
  {
    var a := Find(s, pos, OPEN);
    if !Found(s, a, OPEN) then None
    else
      var b := Find(s, a + 1, CLOSE);
      if !Found(s, b, CLOSE) then None else Some((a, b))
  }

  function NameAt(s: seq<Byte>, tag: (nat, nat)): seq<Byte>
    requires tag.0 < tag.1 < |s|
  {
    s[tag.0 + 1..tag.1]
  }

  predicate IsEnd(name: seq<Byte>, tag: seq<Byte>) {
    name == [47] + tag // '/'
  }

  /** The position after the next end tag of the given name. */
  function EndOfData(s: seq<Byte>, pos: nat, tag: seq<Byte>): (r: Option<nat>)
    requires pos <= |s|
    ensures r.Some? ==> pos + 2 <= r.value <= |s|
    decreases |s| - pos
  {
    match NextTag(s, pos)
    case None => None
    case Some(t) =>
      if IsEnd(NameAt(s, t), tag) then Some(t.1 + 1)
      else
        match EndOfData(s, t.1 + 1, tag)
        case None => None
        case Some(e) => Some(e)
  }

  /**
   * The C string left at pos: up to the '<' of the end tag, or, when another tag comes first, up to that
   * tag's '>', which has been overwritten as well.
   */
  function DataAt(s: seq<Byte>, pos: nat, tag: seq<Byte>): seq<Byte>
    requires pos <= |s| && NextTag(s, pos).Some?
  {
    var t := NextTag(s, pos).value;
    s[pos..if IsEnd(NameAt(s, t), tag) then t.0 else t.1]
  }

  /**
   * What XMLParseNextTag makes of the text. Fail is its -1; Plist means that it has passed a plist tag and left
   * *tag alone; Undefined that this happened below the top level, where the caller then uses a stale pointer.
   */
  datatype Parsed = Fail | Undefined | Plist(end: nat) | Got(tag: Option<Tag>, end: nat)

  datatype Listed = NoList(undefined: bool) | Items(tags: seq<Tag>, end: nat)

  const PLIST := Ascii("plist ")
  const DICT := Ascii("dict")
  const DICT_EMPTY := Ascii("dict/")
  const KEY := Ascii("key")
  const STRING := Ascii("string")
  const INTEGER := Ascii("integer")
  const DATA := Ascii("data")
  const DATE := Ascii("date")
  const FALSE := Ascii("false/")
  const TRUE := Ascii("true/")
  const ARRAY := Ascii("array")
  const ARRAY_EMPTY := Ascii("array/")

  predicate HasPrefix(s: seq<Byte>, p: seq<Byte>) {
    p <= s
  }

  function Parse(s: seq<Byte>, pos: nat): (r: Parsed)
    requires pos <= |s|
    ensures r.Plist? || r.Got? ==> pos + 2 <= r.end <= |s|
    decreases |s| - pos, 0
  {
    match NextTag(s, pos)
    case None => Fail
    case Some(t) =>
      var name, p := NameAt(s, t), t.1 + 1;
      if HasPrefix(name, PLIST) then Plist(p)
      else if name == DICT then ParseList(s, p, Dict)
      else if name == DICT_EMPTY then Got(Some(Tag(Dict, None, [])), p)
      else if name == KEY then ParseKey(s, p)
      else if name == STRING then ParseData(s, p, STRING, String)
      else if name == INTEGER then ParseData(s, p, INTEGER, Integer)
      else if name == DATA then ParseData(s, p, DATA, Data)
      else if name == DATE then ParseData(s, p, DATE, Date)
      else if name == FALSE then Got(Some(Tag(False, None, [])), p)
      else if name == TRUE then Got(Some(Tag(True, None, [])), p)
      else if name == ARRAY then ParseList(s, p, Array)
      else if name == ARRAY_EMPTY then Got(Some(Tag(Array, None, [])), p)
      else Got(None, p)
  }

  /** The tags up to the first unknown one, in the order they are written. */
  function ParseItems(s: seq<Byte>, pos: nat): (r: Listed)
    requires pos <= |s|
    ensures r.Items? ==> pos <= r.end <= |s|
    decreases |s| - pos, 1
  {
    match Parse(s, pos)
    case Fail => NoList(false)
    case Undefined => NoList(true)
    case Plist(_) => NoList(true)
    case Got(None, end) => Items([], end)
    case Got(Some(tag), end) =>
      match ParseItems(s, end)
      case NoList(u) => NoList(u)
      case Items(tags, end) => Items([tag] + tags, end)
  }

  function Reverse<T>(s: seq<T>): (r: seq<T>)
    ensures |r| == |s|
  {
    if s == [] then [] else Reverse(s[1..]) + [s[0]]
  }

  /** A dict or an array: its tags end up in reverse order. */
  function ParseList(s: seq<Byte>, pos: nat, kind: Kind): (r: Parsed)
    requires pos <= |s|
    ensures !r.Plist? && (r.Got? ==> pos <= r.end <= |s|)
    decreases |s| - pos, 2
  {
    match ParseItems(s, pos)
    case NoList(undefined) => if undefined then Undefined else Fail
    case Items(tags, end) => Got(Some(Tag(kind, None, Reverse(tags))), end)
  }

  function ParseKey(s: seq<Byte>, pos: nat): (r: Parsed)
    requires pos <= |s|
    ensures !r.Plist? && (r.Got? ==> pos <= r.end <= |s|)
    decreases |s| - pos, 3
  {
    match EndOfData(s, pos, KEY)
    case None => Fail
    case Some(e) =>
      match Parse(s, e)
      case Fail => Fail
      case Undefined => Undefined
      case Plist(_) => Undefined
      case Got(None, end) => Got(Some(Tag(Key, Some(DataAt(s, pos, KEY)), [])), end)
      case Got(Some(tag), end) => Got(Some(Tag(Key, Some(DataAt(s, pos, KEY)), [tag])), end)
  }

  /** A string keeps its text; the other kinds of data are dropped. */
  function ParseData(s: seq<Byte>, pos: nat, name: seq<Byte>, kind: Kind): (r: Parsed)
    requires pos <= |s|
    ensures !r.Plist? && (r.Got? ==> pos <= r.end <= |s|)
  {
    match EndOfData(s, pos, name)
    case None => Fail
    case Some(e) => Got(Some(Tag(kind, if kind == String then Some(DataAt(s, pos, name)) else None, [])), e)
  }

  // ----- a buffer that is the text with some characters overwritten by NUL

  /** From pos on the buffer still is the text. */
  ghost predicate Unread(s: seq<Byte>, b: seq<Byte>, pos: nat) {
    |b| == |s| && forall i | pos <= i < |s| :: b[i] == s[i]
  }

  /** Nothing but NULs has been written, and nothing before pos. */
  ghost predicate Cut(b: seq<Byte>, c: seq<Byte>, pos: nat) {
    |c| == |b| && forall i | 0 <= i < |b| :: c[i] == b[i] || (pos <= i && c[i] == NUL)
  }

  lemma CutTwice(a: seq<Byte>, b: seq<Byte>, c: seq<Byte>, pos: nat, pos': nat)
    requires Cut(a, b, pos) && Cut(b, c, pos') && pos <= pos'
    ensures Cut(a, c, pos)
  {
  }

  lemma {:induction false} SameFind(s: seq<Byte>, b: seq<Byte>, pos: nat, c: Byte)
    requires Unread(s, b, pos) && pos <= |s|
    ensures Find(b, pos, c) == Find(s, pos, c)
    decreases |s| - pos
  {
    if pos < |s| && s[pos] != NUL && s[pos] != c {
      SameFind(s, b, pos + 1, c);
    }
  }

  lemma FindIs(s: seq<Byte>, pos: nat, c: Byte, i: nat)
    requires pos <= i < |s| && (s[i] == NUL || s[i] == c)
    requires forall j | pos <= j < i :: s[j] != NUL && s[j] != c
    ensures Find(s, pos, c) == i
  {
  }

  lemma EndsLater(s: seq<Byte>, pos: nat, i: nat)
    requires Ends(s, pos) && pos <= i <= |s| && forall j | pos <= j < i :: s[j] != NUL
    ensures Ends(s, i)
  {
  }

  /** The C string at pos. */
  function CString(b: seq<Byte>, pos: nat): seq<Byte>
    requires pos <= |b|
  {
    b[pos..Find(b, pos, NUL)]
  }

  // ----- what FixDataMatchingTag leaves behind

  /** start is pos, or tags other than the end tag have been passed and the first one's '>' cuts the string. */
  ghost predicate Passing(s: seq<Byte>, b: seq<Byte>, pos: nat, start: nat, tag: seq<Byte>) {
    && pos <= start <= |s| && |b| == |s| && Unread(s, b, start) && Ends(s, start)
    && EndOfData(s, start, tag) == EndOfData(s, pos, tag)
    && (start == pos
        || (NextTag(s, pos).Some? && var t := NextTag(s, pos).value;
            !IsEnd(NameAt(s, t), tag) && t.1 < start && b[t.1] == NUL && forall i | pos <= i < t.1 :: b[i] == s[i]))
  }

  lemma NextTagClear(s: seq<Byte>, pos: nat)
    requires pos <= |s| && NextTag(s, pos).Some?
    ensures var t := NextTag(s, pos).value; forall i | pos <= i < t.1 :: s[i] != NUL
  {
    var a := Find(s, pos, OPEN);
    var b := Find(s, a + 1, CLOSE);
  }

  lemma PassOne(s: seq<Byte>, b: seq<Byte>, pos: nat, start: nat, tag: seq<Byte>)
    requires Passing(s, b, pos, start, tag) && NextTag(s, start).Some?
    requires var t := NextTag(s, start).value; !IsEnd(NameAt(s, t), tag) && Ends(s, t.1 + 1)
    ensures var t := NextTag(s, start).value; Passing(s, b[t.1 := NUL], pos, t.1 + 1, tag)
  {
    hide Find, NextTag, Ends;
    var t := NextTag(s, start).value;
    assert EndOfData(s, start, tag) == EndOfData(s, t.1 + 1, tag);
    hide EndOfData;
  }

  lemma PassLast(s: seq<Byte>, b: seq<Byte>, pos: nat, start: nat, tag: seq<Byte>)
    requires Passing(s, b, pos, start, tag) && NextTag(s, start).Some?
    requires var t := NextTag(s, start).value; IsEnd(NameAt(s, t), tag) && Ends(s, t.1 + 1)
    ensures var t := NextTag(s, start).value;
            var c := b[t.1 := NUL][t.0 := NUL];
            && EndOfData(s, pos, tag) == Some(t.1 + 1) && NextTag(s, pos).Some?
            && Unread(s, c, t.1 + 1) && |c| == |s| && CString(c, pos) == DataAt(s, pos, tag)
            && Find(c, pos, NUL) <= t.1
  {
    hide Find, NextTag, Ends;
    var t := NextTag(s, start).value;
    var c := b[t.1 := NUL][t.0 := NUL];
    assert EndOfData(s, start, tag) == Some(t.1 + 1);
    hide EndOfData;
    NextTagClear(s, pos);
    var d := NextTag(s, pos).value;
    var end := if start == pos then t.0 else d.1;
    assert forall i | pos <= i < end :: c[i] == s[i];
    FindIs(c, pos, NUL, end);
    assert c[pos..end] == s[pos..end];
  }

  lemma SameName(s: seq<Byte>, b: seq<Byte>, pos: nat, t: (nat, nat))
    requires Unread(s, b, pos) && pos <= t.0 < t.1 < |s|
    ensures NameAt(s, t) == b[t.0 + 1..t.1]
  {
  }

  /** Ahead of the matching end tag another tag ends, if the next one is not it. */
  lemma {:induction false} EndTagLies(s: seq<Byte>, pos: nat, tag: seq<Byte>)
    requires pos <= |s| && EndOfData(s, pos, tag).Some?
    ensures NextTag(s, pos).Some?
    ensures var t, e := NextTag(s, pos).value, EndOfData(s, pos, tag).value;
      && pos + |tag| + 3 <= e
      && if IsEnd(NameAt(s, t), tag) then t.0 == e - |tag| - 3 else t.1 < e - |tag| - 3
    decreases |s| - pos
  {
    var t := NextTag(s, pos).value;
    if IsEnd(NameAt(s, t), tag) {
      assert |NameAt(s, t)| == |tag| + 1;
    } else {
      EndTagLies(s, t.1 + 1, tag);
    }
  }

  /** The data is all the text in front of its end tag just when no other tag comes first. */
  lemma DataEndsAtEndTag(s: seq<Byte>, pos: nat, tag: seq<Byte>)
    requires pos <= |s| && EndOfData(s, pos, tag).Some?
    ensures NextTag(s, pos).Some? && pos + |tag| + 3 <= EndOfData(s, pos, tag).value
    ensures DataAt(s, pos, tag) == s[pos..EndOfData(s, pos, tag).value - |tag| - 3] <==> IsEnd(NameAt(s, NextTag(s, pos).value), tag)
  {
    EndTagLies(s, pos, tag);
    var t, e := NextTag(s, pos).value, EndOfData(s, pos, tag).value;
    if !IsEnd(NameAt(s, t), tag) {
      assert |DataAt(s, pos, tag)| == t.1 - pos < |s[pos..e - |tag| - 3]|;
    }
  }

  lemma TagIs(s: seq<Byte>, pos: nat, a: nat, b: nat)
    requires pos <= a < b < |s| && s[a] == OPEN && s[b] == CLOSE
    requires forall j | pos <= j < b && j != a :: s[j] != NUL && s[j] != OPEN && s[j] != CLOSE
    ensures NextTag(s, pos) == Some((a, b)) && NameAt(s, (a, b)) == s[a + 1..b]
  {
    FindIs(s, pos, OPEN, a);
    FindIs(s, a + 1, CLOSE, b);
  }

  lemma TextPart(text: string, i: nat, j: nat, part: string)
    requires i <= j <= |text| && |part| == j - i && forall k | 0 <= k < j - i :: part[k] == text[i + k]
    ensures (Ascii(text) + [NUL])[i..j] == Ascii(part)
  {
  }

  lemma TextTag(text: string, pos: nat, a: nat, b: nat, name: string)
    requires pos <= a < b < |text| && text[a] == '<' && text[b] == '>'
    requires |name| == b - a - 1 && forall k | 0 <= k < |name| :: name[k] == text[a + 1 + k]
    requires forall j | pos <= j < b && j != a :: 0 < text[j] as int < 256 && text[j] != '<' && text[j] != '>'
    ensures var s := Ascii(text) + [NUL]; NextTag(s, pos) == Some((a, b)) && NameAt(s, (a, b)) == Ascii(name)
  {
    TagIs(Ascii(text) + [NUL], pos, a, b);
    TextPart(text, a + 1, b, name);
  }

  /** In this text another tag comes first: the key's name is not the text in front of its end tag. */
  const NESTED_TEXT := "<key>a<b>c</key><true/>"
  const NESTED := Ascii(NESTED_TEXT) + [NUL]

  lemma NestedStart()
    ensures NextTag(NESTED, 0) == Some((0, 4)) && NameAt(NESTED, (0, 4)) == KEY
  {
    var text := NESTED_TEXT;
    assert text[1] == 'k' && text[2] == 'e' && text[3] == 'y';
    hide NextTag, Find, Ascii;
    TextTag(text, 0, 0, 4, "key");
  }

  lemma NestedEnd()
    ensures EndOfData(NESTED, 5, KEY) == Some(16)
    ensures DataAt(NESTED, 5, KEY) == Ascii("a<b") && NESTED[5..10] == Ascii("a<b>c")
  {
    hide NextTag, Find;
    TextTag(NESTED_TEXT, 5, 6, 8, "b");
    TextTag(NESTED_TEXT, 9, 10, 15, "/key");
    TextPart(NESTED_TEXT, 5, 8, "a<b");
    TextPart(NESTED_TEXT, 5, 10, "a<b>c");
    assert |NameAt(NESTED, (6, 8))| == 1;
    assert IsEnd(Ascii("/key"), KEY);
    assert EndOfData(NESTED, 9, KEY) == Some(16);
  }

  lemma NestedValue()
    ensures Parse(NESTED, 16) == Got(Some(Tag(True, None, [])), 23)
  {
    hide NextTag, Find;
    TextTag(NESTED_TEXT, 16, 16, 22, "true/");
    assert TRUE[0] == 116 && DICT[0] == 100 && DICT_EMPTY[0] == 100 && PLIST[0] == 112 && KEY[0] == 107;
    assert STRING[0] == 115 && INTEGER[0] == 105 && DATA[0] == 100 && DATE[0] == 100 && FALSE[0] == 102;
  }

  lemma NestedKey()
    ensures Parse(NESTED, 0) == Got(Some(Tag(Key, Some(Ascii("a<b")), [Tag(True, None, [])])), 23)
    ensures EndOfData(NESTED, 5, KEY) == Some(10 + |KEY| + 3) && NESTED[5..10] == Ascii("a<b>c")
  {
    hide NextTag, Find, DataAt, EndOfData;
    NestedStart();
    NestedEnd();
    NestedValue();
    assert KEY[0] == 107 && DICT[0] == 100 && DICT_EMPTY[0] == 100 && PLIST[0] == 112;
    assert ParseKey(NESTED, 5) == Got(Some(Tag(Key, Some(Ascii("a<b")), [Tag(True, None, [])])), 23);
  }

  /** What is cut later leaves a string that ends before. */
  lemma LaterCut(b: seq<Byte>, c: seq<Byte>, pos: nat, e: nat)
    requires Cut(b, c, e) && pos <= |b| && e <= |b| && Find(b, pos, NUL) < e
    ensures CString(c, pos) == CString(b, pos)
  {
    var i := Find(b, pos, NUL);
    FindIs(c, pos, NUL, i);
    assert c[pos..i] == b[pos..i];
  }
}
