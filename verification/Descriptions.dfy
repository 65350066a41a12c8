/** From a written description to the device tree: what every node and property holds. */
module Descriptions {
  import opened Bytes
  import opened FlatTree
  import opened TreePaths
  import X = XmlText
  import D = XmlDocuments
  import opened BootTree

  // ----- the data of an array, taken apart again

  datatype Element = Text(text: seq<Byte>) | Number(bytes: seq<Byte>)

  /** Where the first NUL is, if there is one. */
  function FirstNul(b: seq<Byte>): (i: nat)
    ensures i <= |b| && (i < |b| ==> b[i] == 0) && forall j | 0 <= j < i :: b[j] != 0
  {
    if b == [] || b[0] == 0 then 0 else 1 + FirstNul(b[1..])
  }

  /** Four bytes for an integer, and up to the next NUL for a string. */
  function Cut(kinds: seq<X.Kind>, b: seq<Byte>): Option<seq<Element>> {
    if kinds == [] then if b == [] then Some([]) else None
    else
      var n := if kinds[0] == X.Integer then 4 else FirstNul(b) + 1;
      if n > |b| then None
      else
        match Cut(kinds[1..], b[n..])
        case None => None
        case Some(rest) => Some([if kinds[0] == X.Integer then Number(b[..4]) else Text(b[..n - 1])] + rest)
  }

  /** The elements of an array, the last one first. */
  function Elements(items: seq<D.Item>): seq<Element> {
    seq(|items|, i requires 0 <= i < |items| => ElementOf(items[|items| - 1 - i]))
  }

  function ElementOf(item: D.Item): Element {
    if item.Content? && item.kind == X.String then Text(item.text) else Number([0, 0, 0, 0])
  }

  function Kinds(items: seq<D.Item>): seq<X.Kind> {
    seq(|items|, i requires 0 <= i < |items| => if items[|items| - 1 - i].Content? then items[|items| - 1 - i].kind else X.Key)
  }

  // ----- what a written dict describes

  /** A key that lists children: its name begins with '@'. */
  predicate IsMarked(text: seq<Byte>) {
    text != [] && text[0] == 64
  }

  predicate IsProperty(item: D.Item) {
    item.Named? &&
    match item.value
    case Content(_, kind, _) => kind == X.String || kind == X.Integer
    case Container(_, kind, _, _) => kind == X.Array && !IsMarked(item.text)
    case _ => false
  }

  /** A string with its NUL, a zero word, or the elements of an array. */
  predicate HoldsValue(value: D.Item, b: seq<Byte>) {
    match value
    case Content(_, kind, text) => b == if kind == X.String then text + [0] else [0, 0, 0, 0]
    case Container(_, _, items, _) => Cut(Kinds(items), b) == Some(Elements(items))
    case _ => false
  }

  /** One property for each key with a string, an integer or a plain array; the last one comes first. */
  predicate PropsAre(items: seq<D.Item>, ps: seq<Prop>) {
    if items == [] then ps == []
    else if !IsProperty(items[0]) then PropsAre(items[1..], ps)
    else
      && ps != [] && ps[|ps| - 1].name == items[0].text && HoldsValue(items[0].value, ps[|ps| - 1].value)
      && PropsAre(items[1..], ps[..|ps| - 1])
  }

  predicate Describes(dict: D.Item, t: Tree)
    decreases dict, 1
  {
    match dict
    case Container(_, Dict, items, _) => PropsAre(items, t.props) && KidsAre(items, t.kids)
    case Bare(_, Dict) => t == Tree([], [])
    case _ => false
  }

  /** One child for each dict under a marked key, in the order of the text. */
  predicate KidsAre(items: seq<D.Item>, ts: seq<Tree>)
    decreases items, 0
  {
    if items == [] then ts == []
    else
      match items[0]
      case Named(_, text, Container(_, Array, dicts, _)) =>
        if IsMarked(text) then
          |dicts| <= |ts| && (forall i | 0 <= i < |dicts| :: Describes(dicts[i], ts[i])) && KidsAre(items[1..], ts[|dicts|..])
        else KidsAre(items[1..], ts)
      case _ => KidsAre(items[1..], ts)
  }

  // ----- properties

  lemma {:induction false} ReadAt(items: seq<D.Item>)
    ensures |D.ReadAll(items)| == |items|
    ensures forall i | 0 <= i < |items| :: D.ReadAll(items)[i] == D.Read(items[|items| - 1 - i])
  {
    if items != [] {
      ReadAt(items[1..]);
    }
  }

  /** The element a tag stands for. */
  predicate Stands(t: X.Tag, kind: X.Kind, e: Element) {
    && IsItem(t) && kind == t.kind
    && if kind == X.Integer then e == Number([0, 0, 0, 0]) else e == Text(t.name.value) && 0 !in t.name.value
  }

  lemma FirstNulAt(t: seq<Byte>, rest: seq<Byte>)
    requires 0 !in t
    ensures var b := t + [0] + rest; FirstNul(b) == |t| && b[..|t|] == t && b[|t| + 1..] == rest
  {
    var b := t + [0] + rest;
    assert b[|t|] == 0;
    assert forall j | 0 <= j < |t| :: b[j] == t[j];
  }

  lemma CutFirst(t: X.Tag, kind: X.Kind, e: Element, kinds: seq<X.Kind>, rest: seq<Byte>, els: seq<Element>)
    requires Stands(t, kind, e) && Cut(kinds, rest) == Some(els)
    ensures Cut([kind] + kinds, ItemData(t) + rest) == Some([e] + els)
  {
    var b, all := ItemData(t) + rest, [kind] + kinds;
    assert all[1..] == kinds;
    if kind == X.Integer {
      assert ItemData(t) == [0, 0, 0, 0];
      assert b[..4] == ItemData(t) && b[4..] == rest;
    } else {
      FirstNulAt(t.name.value, rest);
    }
  }

  lemma {:induction false} CutArray(ts: seq<X.Tag>, kinds: seq<X.Kind>, els: seq<Element>)
    requires |ts| == |kinds| == |els| && forall i | 0 <= i < |ts| :: Stands(ts[i], kinds[i], els[i])
    ensures Cut(kinds, ArrayData(ts)) == Some(els)
  {
    hide Stands, ItemData;
    if ts != [] {
      CutArray(ts[1..], kinds[1..], els[1..]);
      CutFirst(ts[0], kinds[0], els[0], kinds[1..], ArrayData(ts[1..]), els[1..]);
      assert els == [els[0]] + els[1..] && kinds == [kinds[0]] + kinds[1..];
    }
  }

  lemma ItemStands(item: D.Item)
    requires D.WellFormed(item) && IsItem(D.Read(item))
    ensures item.Content? && Stands(D.Read(item), item.kind, ElementOf(item))
  {
  }

  lemma ArrayHolds(items: seq<D.Item>)
    requires forall i | 0 <= i < |items| :: D.WellFormed(items[i])
    requires forall i | 0 <= i < |D.ReadAll(items)| :: IsItem(D.ReadAll(items)[i])
    ensures Cut(Kinds(items), ArrayData(D.ReadAll(items))) == Some(Elements(items))
  {
    var ts := D.ReadAll(items);
    ReadAt(items);
    hide D.ReadAll, D.Read, D.WellFormed, Stands, Cut, ArrayData, IsItem;
    forall i | 0 <= i < |ts|
      ensures Stands(ts[i], Kinds(items)[i], Elements(items)[i])
    {
      assert IsItem(ts[i]) && ts[i] == D.Read(items[|items| - 1 - i]);
      ItemStands(items[|items| - 1 - i]);
    }
    CutArray(ts, Kinds(items), Elements(items));
  }

  /** A key becomes its property, or none. */
  lemma KeyProps(item: D.Item)
    requires D.WellFormed(item) && FitsKey(D.Read(item))
    ensures var ps := PropsOfKey(D.Read(item));
      if IsProperty(item) then |ps| == 1 && ps[0].name == item.text && HoldsValue(item.value, ps[0].value) else ps == []
  {
    match item
    case Named(_, text, value) =>
      assert D.Read(item).tags == [D.Read(value)];
      if IsProperty(item) && value.Container? {
        ArrayHolds(value.items);
      }
    case _ =>
  }

  lemma {:induction false} PropsSplit(a: seq<X.Tag>, k: X.Tag)
    ensures PropsOfKeys(a + [k]) == PropsOfKeys(a) + PropsOfKey(k)
  {
    hide PropsOfKey;
    if a == [] {
      assert PropsOfKeys([k]) == PropsOfKey(k) + PropsOfKeys([]);
    } else {
      assert (a + [k])[1..] == a[1..] + [k];
      PropsSplit(a[1..], k);
    }
  }

  lemma LastFits(keys: seq<X.Tag>, k: X.Tag)
    requires AllFit(keys + [k])
    ensures AllFit(keys) && FitsKey(k)
  {
    hide FitsKey;
    var all := keys + [k];
    assert FitsKey(all[|keys|]);
    assert forall i | 0 <= i < |keys| :: all[i] == keys[i];
  }

  lemma {:induction false} PropsDescribed(items: seq<D.Item>)
    requires (forall i | 0 <= i < |items| :: D.WellFormed(items[i])) && AllFit(D.ReadAll(items))
    ensures PropsAre(items, PropsOfKeys(D.ReadAll(items)))
  {
    hide D.WellFormed, D.Read, FitsKey, PropsOfKey, HoldsValue, IsProperty, AllFit;
    if items != [] {
      var k, rest := D.Read(items[0]), D.ReadAll(items[1..]);
      LastFits(rest, k);
      PropsDescribed(items[1..]);
      KeyProps(items[0]);
      PropsSplit(rest, k);
      var ps := PropsOfKeys(rest) + PropsOfKey(k);
      if IsProperty(items[0]) {
        assert ps[..|ps| - 1] == PropsOfKeys(rest) && ps[|ps| - 1] == PropsOfKey(k)[0];
      } else {
        assert ps == PropsOfKeys(rest);
      }
    }
  }

  // ----- children

  lemma {:induction false} KidsSplit(a: seq<X.Tag>, k: X.Tag)
    ensures KidsOfKeys(a + [k]) == KidsOfKey(k) + KidsOfKeys(a)
  {
    hide KidsOfKey;
    if a == [] {
      assert KidsOfKeys([k]) == KidsOfKeys([]) + KidsOfKey(k);
    } else {
      assert (a + [k])[1..] == a[1..] + [k];
      KidsSplit(a[1..], k);
    }
  }

  lemma {:induction false} TreesAt(dicts: seq<X.Tag>)
    ensures |TreesOfDicts(dicts)| == |dicts|
    ensures forall i | 0 <= i < |dicts| :: TreesOfDicts(dicts)[i] == TreeOfDict(dicts[|dicts| - 1 - i])
  {
    hide TreeOfDict;
    if dicts != [] {
      TreesAt(dicts[1..]);
    }
  }

  /** The dict a tag is read from describes the tree the tag becomes. */
  lemma {:induction false} DictDescribed(dict: D.Item)
    requires D.WellFormed(dict) && Fits(D.Read(dict))
    ensures Describes(dict, TreeOfDict(D.Read(dict)))
    decreases dict, 1
  {
    match dict
    case Container(_, _, items, _) =>
      PropsDescribed(items);
      KidsDescribed(items);
    case _ =>
  }

  lemma {:induction false} KidsDescribed(items: seq<D.Item>)
    requires (forall i | 0 <= i < |items| :: D.WellFormed(items[i])) && AllFit(D.ReadAll(items))
    ensures KidsAre(items, KidsOfKeys(D.ReadAll(items)))
    decreases items, 0
  {
    hide FitsKey, Describes, AllFit, D.WellFormed;
    if items != [] {
      var k, rest := D.Read(items[0]), D.ReadAll(items[1..]);
      LastFits(rest, k);
      KidsDescribed(items[1..]);
      KidsSplit(rest, k);
      KeyKids(items[0]);
      var ts := KidsOfKey(k) + KidsOfKeys(rest);
      assert ts[|KidsOfKey(k)|..] == KidsOfKeys(rest);
      assert KidsOfKey(k) == [] ==> ts == KidsOfKeys(rest);
      match items[0]
      case Named(_, text, Container(_, Array, dicts, _)) =>
        if IsMarked(text) {
          forall i | 0 <= i < |dicts|
            ensures Describes(dicts[i], ts[i])
          {
            ChildFits(items[0], i);
            DictDescribed(dicts[i]);
          }
        }
      case _ =>
    }
  }

  /** The children a key lists. */
  lemma KeyKids(item: D.Item)
    requires D.WellFormed(item) && FitsKey(D.Read(item))
    ensures var ts := KidsOfKey(D.Read(item));
      match item
      case Named(_, text, Container(_, Array, dicts, _)) =>
        if IsMarked(text) then |ts| == |dicts| && forall i | 0 <= i < |dicts| :: ts[i] == TreeOfDict(D.Read(dicts[i])) else ts == []
      case _ => ts == []
  {
    match item
    case Named(_, text, value) =>
      assert D.Read(item).tags == [D.Read(value)];
      if value.Container? {
        ReadAt(value.items);
        TreesAt(D.ReadAll(value.items));
      }
    case _ =>
  }

  lemma ChildFits(item: D.Item, i: nat)
    requires D.WellFormed(item) && FitsKey(D.Read(item))
    requires item.Named? && IsMarked(item.text) && item.value.Container? && item.value.kind == X.Array && i < |item.value.items|
    ensures D.WellFormed(item.value.items[i]) && Fits(D.Read(item.value.items[i]))
  {
    var ds := item.value.items;
    assert D.Read(item).tags == [D.Read(item.value)];
    ReadAt(ds);
    assert D.ReadAll(ds)[|ds| - 1 - i] == D.Read(ds[i]);
  }

  // ----- the whole text

  lemma {:induction false} DeclarationsPassed(s: seq<Byte>, pos: nat, hs: seq<D.Heading>, isNull: bool, rest: seq<Byte>)
    requires (forall i | 0 <= i < |hs| :: D.IsDeclaration(hs[i])) && LiesAt(s, pos, D.HeadingTexts(hs) + rest)
    ensures var p := pos + |D.HeadingTexts(hs)|;
            pos <= |s| && LiesAt(s, p, rest) && p <= |s| && FirstDict(s, pos, isNull) == FirstDict(s, p, isNull || hs != [])
    decreases |hs|
  {
    hide X.Parse, D.HeadingText, D.IsDeclaration;
    if hs == [] {
      assert D.HeadingTexts(hs) + rest == rest;
    } else {
      var h, t := D.HeadingText(hs[0]), D.HeadingTexts(hs[1..]);
      assert h + t + rest == h + (t + rest);
      LiesParts(s, pos, h, t + rest);
      D.HeadingParsed(s, pos, hs[0]);
      DeclarationsPassed(s, pos + |h|, hs[1..], true, rest);
    }
  }

  /** Declarations, then at most one plist tag, and then a dict: that dict is what prepare_devicetree enters. */
  lemma DescriptionFound(s: seq<Byte>, decls: seq<D.Heading>, plist: seq<D.Heading>, dict: D.Item)
    requires (forall i | 0 <= i < |decls| :: D.IsDeclaration(decls[i])) && D.WellFormed(dict) && D.Read(dict).kind == X.Dict
    requires plist == [] || (decls != [] && |plist| == 1 && D.IsPlistTag(plist[0]))
    requires LiesAt(s, 0, D.HeadingTexts(decls) + (D.HeadingTexts(plist) + D.Printed(dict)))
    ensures FirstDict(s, 0, false) == Sought.Dict(D.Read(dict))
  {
    hide X.Parse, FirstDict, D.Printed, D.WellFormed, D.Read, LiesAt, D.IsDeclaration, D.IsPlistTag, D.HeadingText, D.HeadingTexts;
    var p, front := |D.HeadingTexts(decls)|, D.HeadingTexts(plist);
    DeclarationsPassed(s, 0, decls, false, front + D.Printed(dict));
    if plist == [] {
      NoHeading(D.Printed(dict));
    } else {
      OneHeading(plist);
      LiesParts(s, p, front, D.Printed(dict));
      PlistPassed(s, p, plist[0]);
    }
    DictFound(s, p + |front|, dict, decls != []);
  }

  lemma NoHeading(rest: seq<Byte>)
    ensures D.HeadingTexts([]) == [] && D.HeadingTexts([]) + rest == rest
  {
  }

  lemma OneHeading(hs: seq<D.Heading>)
    requires |hs| == 1
    ensures D.HeadingTexts(hs) == D.HeadingText(hs[0])
  {
    assert D.HeadingTexts(hs) == D.HeadingText(hs[0]) + D.HeadingTexts([]);
    hide D.HeadingText;
  }

  lemma PlistPassed(s: seq<Byte>, pos: nat, h: D.Heading)
    requires D.IsPlistTag(h) && LiesAt(s, pos, D.HeadingText(h))
    ensures pos + |D.HeadingText(h)| <= |s| && FirstDict(s, pos, true) == FirstDict(s, pos + |D.HeadingText(h)|, true)
  {
    hide X.Parse, D.IsPlistTag;
    D.HeadingParsed(s, pos, h);
  }

  lemma DictFound(s: seq<Byte>, pos: nat, dict: D.Item, isNull: bool)
    requires D.WellFormed(dict) && D.Read(dict).kind == X.Dict && LiesAt(s, pos, D.Printed(dict))
    ensures pos <= |s| && FirstDict(s, pos, isNull) == Sought.Dict(D.Read(dict))
  {
    hide X.Parse, D.Printed, D.WellFormed, D.Read;
    D.ItemParsed(s, pos, dict);
  }

  /** The root is called "/", and for the rest is what the dict describes. */
  lemma RootDescribed(dict: D.Item)
    requires D.WellFormed(dict) && Fits(D.Read(dict))
    ensures var t := RootOf(D.Read(dict));
            && t.props != [] && t.props[0] == Prop(Ascii("name"), Ascii("/") + [0])
            && Describes(dict, Tree(t.props[1..], t.kids))
  {
    var r := D.Read(dict);
    DictDescribed(dict);
    assert Ascii("/") == [47];
    assert RootOf(r).props[1..] == TreeOfDict(r).props;
    hide Describes, PropsOfKeys, KidsOfKeys;
  }
}
