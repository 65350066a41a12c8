/** bootx.c: entering parsed XML into the device tree. */
module BootTree {
  import opened Bytes
  import opened FlatTree
  import opened NodePools
  import opened TreePaths
  import opened DeviceTrees
  import X = XmlText
  import P = XmlPools
  import opened XmlTags

  const AT: Byte := 64 // '@'

  // ----- what becomes of a dict

  /** The array under a key whose name begins with '@' lists child nodes. */
  predicate HasChildren(key: X.Tag, v: X.Tag) {
    v.kind == X.Array && Text(key.name) != [] && Text(key.name)[0] == AT
  }

  function Text(name: Option<seq<Byte>>): seq<Byte> {
    if name.Some? then name.value else []
  }

  /** The data of one string or integer; the value of an integer is always 0 (xml.c:361-364). */
  function ItemData(t: X.Tag): seq<Byte> {
    if t.kind == X.Integer then Word32(0) else Text(t.name) + [0]
  }

  function ArrayData(ts: seq<X.Tag>): seq<Byte> {
    if ts == [] then [] else ItemData(ts[0]) + ArrayData(ts[1..])
  }

  /** The property a key with value v becomes, if any. */
  function PropOf(key: X.Tag, v: X.Tag): seq<Prop> {
    if HasChildren(key, v) then []
    else if v.kind == X.Array then [Prop(Text(key.name), ArrayData(v.tags))]
    else if v.kind == X.Integer || v.kind == X.String then [Prop(Text(key.name), ItemData(v))]
    else []
  }

  /** The properties of a list of keys, in the order of the list. */
  function PropsOfKeys(keys: seq<X.Tag>): seq<Prop> {
    if keys == [] then [] else PropsOfKey(keys[0]) + PropsOfKeys(keys[1..])
  }

  function PropsOfKey(key: X.Tag): seq<Prop> {
    if key.tags == [] then [] else PropOf(key, key.tags[0])
  }

  function TreeOfDict(dict: X.Tag): Tree
    decreases dict, 2
  {
    Tree(PropsOfKeys(dict.tags), KidsOfKeys(dict.tags))
  }

  /** The children a list of keys leaves behind: each new one comes first. */
  function KidsOfKeys(keys: seq<X.Tag>): seq<Tree>
    decreases keys, 1
  {
    if keys == [] then [] else KidsOfKeys(keys[1..]) + KidsOfKey(keys[0])
  }

  function KidsOfKey(key: X.Tag): seq<Tree>
    decreases key, 1
  {
    if key.tags != [] && HasChildren(key, key.tags[0]) then TreesOfDicts(key.tags[0].tags) else []
  }

  function TreesOfDicts(dicts: seq<X.Tag>): seq<Tree>
    decreases dicts, 0
  {
    if dicts == [] then [] else TreesOfDicts(dicts[1..]) + [TreeOfDict(dicts[0])]
  }

  // ----- the same in the order of the text

  /** A tag with every list turned round again: its parts in the order they are written. */
  function Written(t: X.Tag): X.Tag
    decreases t, 1
  {
    X.Tag(t.kind, t.name, WrittenAll(t.tags))
  }

  function WrittenAll(ts: seq<X.Tag>): (r: seq<X.Tag>)
    ensures |r| == |ts|
    decreases ts, 0
  {
    if ts == [] then [] else WrittenAll(ts[1..]) + [Written(ts[0])]
  }

  /** Children in the order they are written, properties and array data in the opposite order. */
  function DocTree(w: X.Tag): Tree
    decreases w, 2
  {
    Tree(X.Reverse(DocProps(w.tags)), DocKids(w.tags))
  }

  function DocProps(keys: seq<X.Tag>): seq<Prop> {
    if keys == [] then [] else DocPropsOfKey(keys[0]) + DocProps(keys[1..])
  }

  function Value(key: X.Tag): X.Tag
    requires key.tags != []
  {
    key.tags[|key.tags| - 1]
  }

  function DocPropsOfKey(key: X.Tag): seq<Prop> {
    if key.tags == [] then [] else PropOf(key, Value(key).(tags := X.Reverse(Value(key).tags)))
  }

  function DocKids(keys: seq<X.Tag>): seq<Tree>
    decreases keys, 1
  {
    if keys == [] then [] else DocKidsOfKey(keys[0]) + DocKids(keys[1..])
  }

  function DocKidsOfKey(key: X.Tag): seq<Tree>
    decreases key, 1
  {
    if key.tags != [] && HasChildren(key, Value(key)) then DocTrees(Value(key).tags) else []
  }

  function DocTrees(dicts: seq<X.Tag>): seq<Tree>
    decreases dicts, 0
  {
    if dicts == [] then [] else [DocTree(dicts[0])] + DocTrees(dicts[1..])
  }

  // ----- both are the same tree

  lemma {:induction false} ReversePair(a: seq<Prop>, b: seq<Prop>)
    ensures X.Reverse(a + b) == X.Reverse(b) + X.Reverse(a)
  {
    if a == [] {
      assert a + b == b;
    } else {
      assert (a + b)[1..] == a[1..] + b;
      ReversePair(a[1..], b);
    }
  }

  lemma {:induction false} DocKidsSplit(a: seq<X.Tag>, b: seq<X.Tag>)
    ensures DocKids(a + b) == DocKids(a) + DocKids(b)
  {
    hide DocKidsOfKey;
    if a == [] {
      assert a + b == b;
    } else {
      assert (a + b)[1..] == a[1..] + b;
      DocKidsSplit(a[1..], b);
    }
  }

  lemma {:induction false} DocPropsSplit(a: seq<X.Tag>, b: seq<X.Tag>)
    ensures DocProps(a + b) == DocProps(a) + DocProps(b)
  {
    hide DocPropsOfKey;
    if a == [] {
      assert a + b == b;
    } else {
      assert (a + b)[1..] == a[1..] + b;
      DocPropsSplit(a[1..], b);
    }
  }

  lemma {:induction false} DocTreesSplit(a: seq<X.Tag>, b: seq<X.Tag>)
    ensures DocTrees(a + b) == DocTrees(a) + DocTrees(b)
  {
    hide DocTree;
    if a == [] {
      assert a + b == b;
    } else {
      assert (a + b)[1..] == a[1..] + b;
      DocTreesSplit(a[1..], b);
    }
  }

  /** At every depth children come out in the order of the text and properties in the opposite one. */
  lemma {:induction false} DocumentOrder(dict: X.Tag)
    ensures TreeOfDict(dict) == DocTree(Written(dict))
    decreases dict, 2
  {
    KidsWritten(dict.tags);
    PropsWritten(dict.tags);
  }

  lemma {:induction false} KidsWritten(keys: seq<X.Tag>)
    ensures KidsOfKeys(keys) == DocKids(WrittenAll(keys))
    decreases keys, 1
  {
    hide KidsOfKey, Written, DocKidsOfKey;
    if keys != [] {
      KidsWritten(keys[1..]);
      KeyWritten(keys[0]);
      DocKidsSplit(WrittenAll(keys[1..]), [Written(keys[0])]);
      assert DocKids([Written(keys[0])]) == DocKidsOfKey(Written(keys[0])) + DocKids([]) == DocKidsOfKey(Written(keys[0]));
    }
  }

  lemma {:induction false} KeyWritten(key: X.Tag)
    ensures KidsOfKey(key) == DocKidsOfKey(Written(key))
    decreases key, 1
  {
    if key.tags != [] {
      LastWritten(key);
      if HasChildren(key, key.tags[0]) {
        DictsWritten(key.tags[0].tags);
      }
    }
  }

  lemma LastWritten(key: X.Tag)
    requires key.tags != []
    ensures Written(key).tags != [] && Value(Written(key)) == Written(key.tags[0])
  {
  }

  lemma {:induction false} DictsWritten(dicts: seq<X.Tag>)
    ensures TreesOfDicts(dicts) == DocTrees(WrittenAll(dicts))
    decreases dicts, 0
  {
    hide TreeOfDict, Written, DocTree;
    if dicts != [] {
      DictsWritten(dicts[1..]);
      DocumentOrder(dicts[0]);
      DocTreesSplit(WrittenAll(dicts[1..]), [Written(dicts[0])]);
      assert DocTrees([Written(dicts[0])]) == [DocTree(Written(dicts[0]))] + DocTrees([]);
    }
  }

  lemma {:induction false} PropsWritten(keys: seq<X.Tag>)
    ensures PropsOfKeys(keys) == X.Reverse(DocProps(WrittenAll(keys)))
  {
    hide PropsOfKey, Written, DocPropsOfKey;
    if keys != [] {
      var w := Written(keys[0]);
      PropsWritten(keys[1..]);
      PropWritten(keys[0]);
      DocPropsSplit(WrittenAll(keys[1..]), [w]);
      assert DocProps([w]) == DocPropsOfKey(w) + DocProps([]) == DocPropsOfKey(w);
      ReversePair(DocProps(WrittenAll(keys[1..])), DocPropsOfKey(w));
    }
  }

  lemma PropWritten(key: X.Tag)
    ensures PropsOfKey(key) == DocPropsOfKey(Written(key)) == X.Reverse(DocPropsOfKey(Written(key)))
  {
    if key.tags != [] {
      LastWritten(key);
      SameData(key.tags[0].tags);
    }
  }

  lemma {:induction false} SameData(ts: seq<X.Tag>)
    ensures ArrayData(X.Reverse(WrittenAll(ts))) == ArrayData(ts)
  {
    if ts != [] {
      SameData(ts[1..]);
      P.ReverseAppend(WrittenAll(ts[1..]), Written(ts[0]));
      assert ([Written(ts[0])] + X.Reverse(WrittenAll(ts[1..])))[1..] == X.Reverse(WrittenAll(ts[1..]));
    }
  }

  /** What ParseList reverses, Written restores: the tags in the order they were read. */
  lemma {:induction false} ReadInOrder(items: seq<X.Tag>)
    ensures |WrittenAll(X.Reverse(items))| == |items|
    ensures forall i | 0 <= i < |items| :: WrittenAll(X.Reverse(items))[i] == Written(items[i])
  {
    if items != [] {
      ReadInOrder(items[1..]);
      WrittenLast(X.Reverse(items[1..]), items[0]);
    }
  }

  lemma {:induction false} WrittenLast(ts: seq<X.Tag>, t: X.Tag)
    ensures WrittenAll(ts + [t]) == [Written(t)] + WrittenAll(ts)
  {
    if ts == [] {
      assert ts + [t] == [t] && WrittenAll([t]) == WrittenAll([t][1..]) + [Written(t)];
    } else {
      assert (ts + [t])[1..] == ts[1..] + [t];
      WrittenLast(ts[1..], t);
    }
  }

  // ----- what the code demands of a dict

  /** ArrayToDeviceTreeData accepts strings and integers only. */
  predicate IsItem(t: X.Tag) {
    t.kind == X.Integer || (t.kind == X.String && t.name.Some?)
  }

  /** No panic and no null string on the way. */
  predicate Fits(dict: X.Tag)
    decreases dict, 2
  {
    dict.kind == X.Dict && forall i | 0 <= i < |dict.tags| :: FitsKey(dict.tags[i])
  }

  predicate FitsKey(key: X.Tag)
    decreases key, 1
  {
    key.tags == [] ||
    var v := key.tags[0];
    if HasChildren(key, v) then v.tags != [] && forall i | 0 <= i < |v.tags| :: Fits(v.tags[i])
    else if v.kind == X.Array then
      && key.name.Some? && v.tags != [] && (forall i | 0 <= i < |v.tags| :: IsItem(v.tags[i]))
      && |ArrayData(v.tags)| < LIMIT
    else v.kind == X.Integer || v.kind == X.String ==> key.name.Some? && IsItem(v) && |ItemData(v)| < LIMIT
  }

  // ----- how the tree grows

  /** In g node n has the properties ps behind and the children ts in front of what it had in f. */
  ghost predicate Populated(f: Forest, g: Forest, n: int, ps: seq<Prop>, ts: seq<Tree>) {
    && Linked(f) && Linked(g) && 0 <= n < |f.nodes| <= |g.nodes|
    && (forall m | 0 <= m < |f.nodes| && m != n :: PropsOf(g, m) == PropsOf(f, m) && KidsOf(g, m) == KidsOf(f, m))
    && PropsOf(g, n) == PropsOf(f, n) + ps
    && KidTrees(g, n) == ts + KidTrees(f, n)
  }

  /** Whatever came behind the properties and in front of the children of n, all else is as it was. */
  ghost predicate Extended(f: Forest, g: Forest, n: int) {
    exists ps, ts :: Populated(f, g, n, ps, ts)
  }

  lemma ExtendedTwice(f: Forest, g: Forest, h: Forest, n: int)
    requires Extended(f, g, n) && Extended(g, h, n)
    ensures Extended(f, h, n)
  {
    hide Populated;
    var ps, ts :| Populated(f, g, n, ps, ts);
    var qs, us :| Populated(g, h, n, qs, us);
    PopulatedTwice(f, g, h, n, ps, ts, qs, us);
  }

  lemma ChildExtends(f: Forest, g: Forest, h: Forest, n: int)
    requires Grown(f, g, n, []) && 0 <= n && Extended(g, h, |f.nodes|)
    ensures Extended(f, h, n)
  {
    hide Populated, Grown;
    var ps, ts :| Populated(g, h, |f.nodes|, ps, ts);
    ChildPopulates(f, g, h, n, ps, ts);
  }

  lemma PopulatedNothing(f: Forest, n: int)
    requires Linked(f) && 0 <= n < |f.nodes|
    ensures Populated(f, f, n, [], []) && Extended(f, f, n)
  {
    hide Linked, PropsOf, KidsOf, KidTrees;
  }

  lemma PopulatedTwice(f: Forest, g: Forest, h: Forest, n: int, ps: seq<Prop>, ts: seq<Tree>, qs: seq<Prop>, us: seq<Tree>)
    requires Populated(f, g, n, ps, ts) && Populated(g, h, n, qs, us)
    ensures Populated(f, h, n, ps + qs, us + ts)
  {
    hide Linked, PropsOf, KidsOf, KidTrees;
    assert PropsOf(f, n) + ps + qs == PropsOf(f, n) + (ps + qs);
    assert us + (ts + KidTrees(f, n)) == us + ts + KidTrees(f, n);
  }

  /** Nodes newer than n look the same in f and g. */
  ghost predicate SameAbove(f: Forest, g: Forest, n: int) {
    && Linked(f) && Linked(g) && 0 <= n < |f.nodes| <= |g.nodes|
    && forall m | n < m < |f.nodes| :: PropsOf(g, m) == PropsOf(f, m) && KidsOf(g, m) == KidsOf(f, m)
  }

  lemma {:induction false} TreesKept(f: Forest, g: Forest, n: int, k: int, ks: seq<int>)
    requires SameAbove(f, g, n) && n <= k < |f.nodes| && forall c | c in ks :: k < c < |f.nodes|
    ensures TreesOf(g, k, ks) == TreesOf(f, k, ks)
    decreases |f.nodes| - k, |ks|
  {
    hide Linked, PropsOf, KidsOf;
    if ks != [] {
      var c := ks[0];
      assert c in ks && forall d | d in ks[1..] :: d in ks;
      TreesKept(f, g, n, c, KidsOf(f, c));
      assert TreeOf(g, c) == TreeOf(f, c);
      hide TreeOf;
      TreesKept(f, g, n, k, ks[1..]);
    }
  }

  lemma PropPopulates(f: Forest, g: Forest, n: int, p: Prop)
    requires PropAdded(f, g, n, p)
    ensures Populated(f, g, n, [p], []) && Extended(f, g, n)
  {
    hide Linked, PropsOf, KidsOf;
    TreesKept(f, g, n, n, KidsOf(f, n));
    assert Populated(f, g, n, [p], []);
  }

  /** A new child of n filled in afterwards. */
  lemma ChildPopulates(f: Forest, g: Forest, h: Forest, n: int, ps: seq<Prop>, ts: seq<Tree>)
    requires Grown(f, g, n, []) && 0 <= n && Populated(g, h, |f.nodes|, ps, ts)
    ensures Populated(f, h, n, [], [Tree(ps, ts)])
  {
    hide Linked, PropsOf, KidsOf;
    var c := |f.nodes|;
    TreesKept(f, h, n, n, KidsOf(f, n));
    assert KidTrees(g, c) == [];
    assert TreeOf(h, c) == Tree(ps, ts);
    hide TreeOf;
    assert KidsOf(h, n)[0] == c && KidsOf(h, n)[1..] == KidsOf(f, n);
  }

  // ----- the code

  /** The record at the head of a list, and the tag it holds. */
  lemma Head(tags: seq<P.Record>, p: int, ns: seq<P.Node>)
    requires P.Holds(tags, p, ns)
    ensures p == NIL <==> ns == []
    ensures p != NIL ==>
      && 0 <= p < |tags| && tags[p].kind == Some(ns[0].kind) && tags[p].name == ns[0].name
      && P.Holds(tags, tags[p].tag, ns[0].kids) && P.Holds(tags, tags[p].next, ns[1..])
      && P.TagsOf(ns) == [P.TagOf(ns[0])] + P.TagsOf(ns[1..])
      && P.TagOf(ns[0]) == X.Tag(ns[0].kind, ns[0].name, P.TagsOf(ns[0].kids))
  {
  }

  predicate AllItems(ts: seq<X.Tag>) {
    forall i | 0 <= i < |ts| :: IsItem(ts[i])
  }

  /** The bytes ArrayToDeviceTreeData adds for one element. */
  method ItemBytes(xml: Xml, p: int, ghost t: X.Tag) returns (data: seq<Byte>)
    requires 0 <= p < |xml.tags| && xml.tags[p].kind == Some(t.kind) && xml.tags[p].name == t.name && IsItem(t)
    ensures data == ItemData(t)
  {
    if xml.tags[p].kind == Some(X.Integer) {
      data := Word32(0);
    } else {
      data := xml.tags[p].name.value + [0];
    }
  }

  /** The first loop of ArrayToDeviceTreeData. */
  method CountArrayData(xml: Xml, p: int, ghost ns: seq<P.Node>) returns (cnt: nat)
    requires P.Holds(xml.tags, p, ns) && AllItems(P.TagsOf(ns))
    ensures cnt == |ArrayData(P.TagsOf(ns))|
  {
    hide P.Holds, P.TagsOf, P.TagOf, ItemData, ArrayData, AllItems;
    var next := p;
    cnt := 0;
    ghost var rest := ns;
    while next != NIL
      invariant P.Holds(xml.tags, next, rest) && AllItems(P.TagsOf(rest))
      invariant cnt + |ArrayData(P.TagsOf(rest))| == |ArrayData(P.TagsOf(ns))|
      decreases |rest|
    {
      Head(xml.tags, next, rest);
      FirstItem(P.TagOf(rest[0]), P.TagsOf(rest[1..]));
      var data := ItemBytes(xml, next, P.TagOf(rest[0]));
      cnt := cnt + |data|;
      next, rest := xml.tags[next].next, rest[1..];
    }
    Head(xml.tags, next, rest);
    NoItems();
  }

  method StoreData(buf: array<Byte>, at: nat, data: seq<Byte>)
    requires at + |data| <= buf.Length
    modifies buf
    ensures buf[..at + |data|] == old(buf[..at]) + data
  {
    forall i | 0 <= i < |data| {
      buf[at + i] := data[i];
    }
  }

  /** ArrayToDeviceTreeData: counts the bytes first and then fills a buffer of that size. */
  method ArrayToDeviceTreeData(xml: Xml, p: int, ghost ns: seq<P.Node>) returns (buf: array<Byte>)
    requires P.Holds(xml.tags, p, ns) && AllItems(P.TagsOf(ns))
    ensures fresh(buf) && buf[..] == ArrayData(P.TagsOf(ns))
  {
    hide P.Holds, P.TagsOf, P.TagOf, ItemData, ArrayData, AllItems;
    ghost var all := ArrayData(P.TagsOf(ns));
    var size := CountArrayData(xml, p, ns);
    buf := new Byte[size];
    var next := p;
    var cnt: nat := 0;
    ghost var rest := ns;
    while next != NIL
      invariant P.Holds(xml.tags, next, rest) && AllItems(P.TagsOf(rest))
      invariant buf.Length == |all| && cnt <= buf.Length && buf[..cnt] + ArrayData(P.TagsOf(rest)) == all
      decreases |rest|
    {
      Head(xml.tags, next, rest);
      FirstItem(P.TagOf(rest[0]), P.TagsOf(rest[1..]));
      var data := ItemBytes(xml, next, P.TagOf(rest[0]));
      StoreData(buf, cnt, data);
      cnt := cnt + |data|;
      next, rest := xml.tags[next].next, rest[1..];
    }
    Head(xml.tags, next, rest);
    NoItems();
    assert buf[..cnt] == buf[..];
  }

  lemma FirstItem(t: X.Tag, ts: seq<X.Tag>)
    ensures ArrayData([t] + ts) == ItemData(t) + ArrayData(ts)
    ensures AllItems([t] + ts) ==> IsItem(t) && AllItems(ts)
  {
    assert ([t] + ts)[1..] == ts && ([t] + ts)[0] == t;
    if AllItems([t] + ts) {
      forall i | 0 <= i < |ts| ensures IsItem(ts[i]) {
        assert ([t] + ts)[i + 1] == ts[i];
      }
    }
  }

  lemma NoItems()
    ensures ArrayData(P.TagsOf([])) == []
  {
  }

  /** The pieces of one key and of the rest. */
  lemma FirstKey(t: X.Tag, ts: seq<X.Tag>)
    ensures PropsOfKeys([t] + ts) == PropsOfKey(t) + PropsOfKeys(ts)
    ensures KidsOfKeys([t] + ts) == KidsOfKeys(ts) + KidsOfKey(t)
    ensures TreesOfDicts([t] + ts) == TreesOfDicts(ts) + [TreeOfDict(t)]
    ensures AllFit([t] + ts) ==> FitsKey(t) && AllFit(ts)
    ensures AllDicts([t] + ts) ==> Fits(t) && AllDicts(ts)
  {
    assert ([t] + ts)[1..] == ts && ([t] + ts)[0] == t;
    assert forall i | 0 <= i < |ts| :: ([t] + ts)[i + 1] == ts[i];
    hide FitsKey, Fits;
  }

  predicate AllFit(keys: seq<X.Tag>) {
    forall i | 0 <= i < |keys| :: FitsKey(keys[i])
  }

  predicate AllDicts(ts: seq<X.Tag>) {
    forall i | 0 <= i < |ts| :: Fits(ts[i])
  }

  lemma NoKeys()
    ensures PropsOfKeys([]) == [] && KidsOfKeys([]) == [] && TreesOfDicts([]) == [] && P.TagsOf([]) == []
  {
  }

  /** DT__AddProperty, as a step of filling in a node. */
  method EnterProperty(dt: DeviceTree, node: int, name: seq<Byte>, value: seq<Byte>)
    requires dt.Valid() && 0 <= node < |dt.nodes| && |value| < LIMIT
    modifies dt
    ensures dt.Valid() && |old(dt.nodes)| <= |dt.nodes| && (old(dt.starved) ==> dt.starved)
    ensures Extended(old(dt.State()), dt.State(), node)
    ensures !dt.starved ==> Populated(old(dt.State()), dt.State(), node, [Prop(name, value)], [])
  {
    hide NodeLinks, PropLinks, Counters, WeightsBelow, CountedSize, Populated, Extended;
    ghost var f := dt.State();
    NothingEntered(f, node, dt.rootNode, dt.numNodes, dt.numProperties, dt.totalPropertySize);
    var p := dt.AddProperty(node, name, value);
    if p != NIL {
      PropPopulates(f, dt.State(), node, Prop(name, value));
    }
  }

  /** The loop body of PopulateDeviceTreeNode: what one key enters into the node. */
  method EnterKey(xml: Xml, dt: DeviceTree, next: int, node: int, ghost key: P.Node)
    requires 0 <= next < |xml.tags| && xml.tags[next].name == key.name
    requires P.Holds(xml.tags, xml.tags[next].tag, key.kids) && FitsKey(P.TagOf(key))
    requires dt.Valid() && 0 <= node < |dt.nodes|
    modifies dt
    ensures dt.Valid() && |old(dt.nodes)| <= |dt.nodes| && (old(dt.starved) ==> dt.starved)
    ensures Extended(old(dt.State()), dt.State(), node)
    ensures !dt.starved ==>
        Populated(old(dt.State()), dt.State(), node, PropsOfKey(P.TagOf(key)), KidsOfKey(P.TagOf(key)))
    decreases key, 0
  {
    hide P.Holds, Good, Linked, Populated, Extended, TreesOfDicts, ArrayData, Word32, KidsOf, PropsOf;
    var tag := xml.tags[next].tag;
    Head(xml.tags, tag, key.kids);
    KeyParts(key);
    if tag != NIL {
      var v := xml.tags[tag];
      ghost var val := key.kids[0];
      if v.kind == Some(X.Array) {
        var name := xml.tags[next].name;
        if name.Some? && name.value != [] && name.value[0] == AT {
          WalkDeviceTreeNodeChildren(xml, dt, v.tag, node, val);
        } else {
          var buf := ArrayToDeviceTreeData(xml, v.tag, val.kids);
          EnterProperty(dt, node, name.value, buf[..]);
        }
      } else if v.kind == Some(X.Integer) {
        EnterProperty(dt, node, xml.tags[next].name.value, Word32(0));
      } else if v.kind == Some(X.String) {
        EnterProperty(dt, node, xml.tags[next].name.value, v.name.value + [0]);
      } else {
        NothingEntered(dt.State(), node, dt.rootNode, dt.numNodes, dt.numProperties, dt.totalPropertySize);
      }
    } else {
      NothingEntered(dt.State(), node, dt.rootNode, dt.numNodes, dt.numProperties, dt.totalPropertySize);
    }
  }

  lemma NothingEntered(f: Forest, node: int, root: int, nn: nat, np: nat, tp: nat)
    requires Good(f, root, nn, np, tp) && 0 <= node < |f.nodes|
    ensures Populated(f, f, node, [], []) && Extended(f, f, node)
  {
    hide NodeLinks, PropLinks, Populated, Extended;
    PopulatedNothing(f, node);
  }

  /** The tag of a key's record, with its value opened up. */
  lemma KeyParts(key: P.Node)
    ensures var t := P.TagOf(key);
      && t.name == key.name && |t.tags| == |key.kids|
      && (key.kids != [] ==>
           var val := key.kids[0];
           t.tags[0] == P.TagOf(val) == X.Tag(val.kind, val.name, P.TagsOf(val.kids)))
  {
    if key.kids != [] {
      TagsLength(key.kids[1..]);
    }
  }

  lemma {:induction false} TagsLength(ns: seq<P.Node>)
    ensures |P.TagsOf(ns)| == |ns|
  {
    if ns != [] {
      TagsLength(ns[1..]);
    }
  }

  /** WalkDeviceTreeNodeChildren: one new child for each dict of the array. */
  method WalkDeviceTreeNodeChildren(xml: Xml, dt: DeviceTree, first: int, parent: int, ghost list: P.Node)
    requires P.Holds(xml.tags, first, list.kids) && AllDicts(P.TagsOf(list.kids))
    requires dt.Valid() && 0 <= parent < |dt.nodes|
    modifies dt
    ensures dt.Valid() && |old(dt.nodes)| <= |dt.nodes| && (old(dt.starved) ==> dt.starved)
    ensures Extended(old(dt.State()), dt.State(), parent)
    ensures !dt.starved ==>
        Populated(old(dt.State()), dt.State(), parent, [], TreesOfDicts(P.TagsOf(list.kids)))
    decreases list, 0
  {
    hide P.Holds, P.TagOf, P.TagsOf, Good, Linked, Populated, Extended, TreesOfDicts, TreeOfDict, KidsOf, PropsOf, Fits, Grown;
    hide KidsOfKeys, PropsOfKeys, AllDicts, AllFit;
    ghost var f := dt.State();
    var next := first;
    ghost var i, ts := 0, [];
    NothingEntered(f, parent, dt.rootNode, dt.numNodes, dt.numProperties, dt.totalPropertySize);
    assert list.kids[0..] == list.kids;
    while next != NIL
      invariant 0 <= i <= |list.kids| && P.Holds(xml.tags, next, list.kids[i..]) && AllDicts(P.TagsOf(list.kids[i..]))
      invariant dt.Valid() && |f.nodes| <= |dt.nodes| && (old(dt.starved) ==> dt.starved)
      invariant Extended(f, dt.State(), parent)
      invariant !dt.starved ==> Populated(f, dt.State(), parent, [], ts)
      invariant TreesOfDicts(P.TagsOf(list.kids)) == TreesOfDicts(P.TagsOf(list.kids[i..])) + ts
      decreases |list.kids| - i
    {
      ghost var g, rest := dt.State(), list.kids[i..];
      Head(xml.tags, next, rest);
      assert rest[0] == list.kids[i] && rest[1..] == list.kids[i + 1..];
      FirstKey(P.TagOf(rest[0]), P.TagsOf(rest[1..]));
      var node := dt.AddChild(parent, None);
      if node == NIL {
        return;
      }
      ghost var h := dt.State();
      PopulateDeviceTreeNode(xml, dt, next, node, list.kids[i]);
      ChildExtends(g, h, dt.State(), parent);
      ExtendedTwice(f, g, dt.State(), parent);
      if !dt.starved {
        ghost var t := P.TagOf(list.kids[i]);
        ghost var none: seq<Prop> := [];
        OneTree(t, P.TagsOf(rest[1..]), ts);
        ChildPopulates(g, h, dt.State(), parent, PropsOfKeys(t.tags), KidsOfKeys(t.tags));
        PopulatedTwice(f, g, dt.State(), parent, none, ts, none, [TreeOfDict(t)]);
        assert none + none == none;
      }
      OneTree(P.TagOf(list.kids[i]), P.TagsOf(rest[1..]), ts);
      ts := [TreeOfDict(P.TagOf(list.kids[i]))] + ts;
      i := i + 1;
      next := xml.tags[next].next;
    }
    Head(xml.tags, next, list.kids[i..]);
    NoKeys();
    assert [] + ts == ts;
  }

  lemma OneTree(t: X.Tag, rest: seq<X.Tag>, ts: seq<Tree>)
    ensures TreeOfDict(t) == Tree(PropsOfKeys(t.tags), KidsOfKeys(t.tags))
    ensures TreesOfDicts(rest) + [TreeOfDict(t)] + ts == TreesOfDicts(rest) + ([TreeOfDict(t)] + ts)
  {
    hide TreesOfDicts, PropsOfKeys, KidsOfKeys;
  }

  /** PopulateDeviceTreeNode */
  method PopulateDeviceTreeNode(xml: Xml, dt: DeviceTree, tag: int, node: int, ghost dict: P.Node)
    requires 0 <= tag < |xml.tags| && P.Holds(xml.tags, xml.tags[tag].tag, dict.kids) && Fits(P.TagOf(dict))
    requires dt.Valid() && 0 <= node < |dt.nodes|
    modifies dt
    ensures dt.Valid() && |old(dt.nodes)| <= |dt.nodes| && (old(dt.starved) ==> dt.starved)
    ensures Extended(old(dt.State()), dt.State(), node)
    ensures !dt.starved ==>
        Populated(old(dt.State()), dt.State(), node, PropsOfKeys(P.TagOf(dict).tags), KidsOfKeys(P.TagOf(dict).tags))
    decreases dict, 1
  {
    hide P.Holds, P.TagsOf, Good, Linked, Populated, Extended, PropsOfKeys, KidsOfKeys, KidsOf, PropsOf, FitsKey;
    hide PropsOfKey, KidsOfKey;
    hide AllFit;
    ghost var f := dt.State();
    var next := xml.tags[tag].tag;
    ghost var i, ps, ts := 0, [], [];
    NothingEntered(f, node, dt.rootNode, dt.numNodes, dt.numProperties, dt.totalPropertySize);
    DictFits(dict);
    assert dict.kids[0..] == dict.kids;
    while next != NIL
      invariant 0 <= i <= |dict.kids| && P.Holds(xml.tags, next, dict.kids[i..]) && AllFit(P.TagsOf(dict.kids[i..]))
      invariant dt.Valid() && |f.nodes| <= |dt.nodes| && (old(dt.starved) ==> dt.starved)
      invariant Extended(f, dt.State(), node)
      invariant !dt.starved ==> Populated(f, dt.State(), node, ps, ts)
      invariant PropsOfKeys(P.TagsOf(dict.kids)) == ps + PropsOfKeys(P.TagsOf(dict.kids[i..]))
      invariant KidsOfKeys(P.TagsOf(dict.kids)) == KidsOfKeys(P.TagsOf(dict.kids[i..])) + ts
      decreases |dict.kids| - i
    {
      ghost var g, rest := dt.State(), dict.kids[i..];
      Head(xml.tags, next, rest);
      assert rest[0] == dict.kids[i] && rest[1..] == dict.kids[i + 1..];
      ghost var t := P.TagOf(dict.kids[i]);
      FirstKey(t, P.TagsOf(rest[1..]));
      EnterKey(xml, dt, next, node, dict.kids[i]);
      ExtendedTwice(f, g, dt.State(), node);
      if !dt.starved {
        PopulatedTwice(f, g, dt.State(), node, ps, ts, PropsOfKey(t), KidsOfKey(t));
      }
      Regroup(ps, PropsOfKey(t), PropsOfKeys(P.TagsOf(rest[1..])));
      Regroup(KidsOfKeys(P.TagsOf(rest[1..])), KidsOfKey(t), ts);
      ps, ts := ps + PropsOfKey(t), KidsOfKey(t) + ts;
      i := i + 1;
      next := xml.tags[next].next;
    }
    Head(xml.tags, next, dict.kids[i..]);
    NoKeys();
    assert ps + [] == ps && [] + ts == ts;
  }

  lemma Regroup<T>(a: seq<T>, b: seq<T>, c: seq<T>)
    ensures a + b + c == a + (b + c)
  {
  }

  lemma DictFits(dict: P.Node)
    requires Fits(P.TagOf(dict))
    ensures AllFit(P.TagsOf(dict.kids)) && P.TagOf(dict).tags == P.TagsOf(dict.kids)
  {
    hide FitsKey;
  }

  // ----- from the text to the tree

  /** What prepare_devicetree finds: Undefined when it would look at a tag pointer nothing has set. */
  datatype Sought = Undefined | Missing | Dict(dict: X.Tag)

  /** The first dict at the top level; isNull says that the tag pointer is known to be null. */
  function FirstDict(s: seq<Byte>, pos: nat, isNull: bool): Sought
    requires pos <= |s|
    decreases |s| - pos
  {
    match X.Parse(s, pos)
    case Fail => Missing
    case Undefined => Undefined
    case Plist(end) => if isNull then FirstDict(s, end, isNull) else Undefined
    case Got(None, end) => FirstDict(s, end, true)
    case Got(Some(t), end) => if t.kind == X.Dict then Dict(t) else FirstDict(s, end, false)
  }

  /** The root node called "/" with what the dict enters into it. */
  function RootOf(dict: X.Tag): Tree {
    Tree([Prop(NAME, [SLASH, 0])] + PropsOfKeys(dict.tags), KidsOfKeys(dict.tags))
  }

  lemma RootIs(f: Forest, g: Forest, dict: X.Tag)
    requires Populated(f, g, 0, PropsOfKeys(dict.tags), KidsOfKeys(dict.tags))
    requires KidsOf(f, 0) == [] && PropsOf(f, 0) == [Prop(NAME, [SLASH, 0])]
    ensures TreeOf(g, 0) == RootOf(dict)
  {
    hide Linked, PropsOf, KidsOf, PropsOfKeys, KidsOfKeys;
    assert KidTrees(f, 0) == [];
    assert KidTrees(g, 0) == KidsOfKeys(dict.tags);
  }

  /**
   * prepare_devicetree: reads the text up to the first dict, enters it below a new root and frees every tag it
   * has read.
   */
  method PrepareDeviceTree(xml: Xml, buffer: array<Byte>, ghost s: seq<Byte>) returns (dt: DeviceTree, ok: bool)
    requires xml.Valid() && s == buffer[..] && X.Ends(s, 0)
    requires FirstDict(s, 0, false) != Undefined
    requires FirstDict(s, 0, false).Dict? ==> Fits(FirstDict(s, 0, false).dict)
    modifies xml, buffer
    ensures xml.Valid() && xml.used == old(xml.used) && xml.names == old(xml.names)
    ensures fresh(dt) && dt.Valid() && (ok ==> dt.nodes != [])
    ensures ok && !dt.starved ==>
        FirstDict(s, 0, false).Dict? && TreeOf(dt.State(), 0) == RootOf(FirstDict(s, 0, false).dict)
    ensures !ok ==> FirstDict(s, 0, false) == Missing || xml.starved || dt.starved
  {
    hide P.Conserved, P.Counted, P.FreeList, P.Holds, P.Addresses, P.Names, P.Kept, P.Sum, P.One, P.TagOf;
    hide X.Ends, X.Unread, X.Cut, X.Parse, Linked, PropsOf, KidsOf, TreeOf, Fits, RootOf, Populated, Balanced;
    hide Counters;
    dt := new DeviceTree();
    ok := false;
    if dt.nodes == [] {
      return;
    }
    ghost var used, names, sought := xml.used, xml.names, FirstDict(s, 0, false);
    var tag, pos := NIL, 0;
    ghost var isNull, f, starved := false, dt.State(), dt.starved;
    AllUnread(s);
    while true
      invariant xml.Valid() && xml.used == used && xml.names == names && 0 <= pos <= buffer.Length == |s|
      invariant X.Unread(s, buffer[..], pos) && X.Ends(s, pos) && sought == FirstDict(s, pos, isNull)
      invariant (isNull ==> tag == NIL) && dt.Valid() && dt.State() == f && dt.starved == starved && fresh(dt)
      decreases buffer.Length - pos
    {
      ghost var r, ns := X.Parse(s, pos), [];
      var length;
      length, tag, ns := xml.XMLParseNextTag(buffer, pos, tag, s);
      P.EmptyParts(used, names);
      if length == -1 {
        return;
      }
      pos := length;
      isNull := tag == NIL;
      if tag != NIL {
        Head(xml.tags, tag, ns);
        if xml.tags[tag].kind == Some(X.Dict) {
          PopulateDeviceTreeNode(xml, dt, tag, dt.rootNode, ns[0]);
          if !dt.starved {
            RootIs(f, dt.State(), P.TagOf(ns[0]));
          }
          xml.XMLFreeTag(tag, ns, used, names);
          ok := true;
          return;
        }
        xml.XMLFreeTag(tag, ns, used, names);
      }
    }
  }

  lemma AllUnread(s: seq<Byte>)
    ensures X.Unread(s, s, 0)
  {
  }
}
