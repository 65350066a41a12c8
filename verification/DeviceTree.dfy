/** device_tree.c: building the device tree, flattening it and finding nodes in it. */
module DeviceTrees {
  import opened Bytes
  import opened FlatTree
  import opened FlatLayout
  import opened NodePools
  import opened TreePaths

  const POOL := 256 // kAllocSize / sizeof(Node) and kAllocSize / sizeof(Property)

  lemma SumMod(a: nat, b: nat)
    ensures (a % LIMIT + b) % LIMIT == (a + b) % LIMIT
  {
    assert a == a / LIMIT * LIMIT + a % LIMIT;
    ModShift(a / LIMIT, a % LIMIT + b);
  }

  lemma ModShift(q: nat, r: nat)
    ensures (q * LIMIT + r) % LIMIT == r % LIMIT
  {
  }

  ghost predicate Counters(f: Forest, numNodes: nat, numProperties: nat, totalPropertySize: nat) {
    && numNodes == |f.nodes| % LIMIT
    && numProperties == |f.props| % LIMIT
    && totalPropertySize == BytesBelow(f.props, |f.props|) % LIMIT
  }

  lemma CountedProp(f: Forest, g: Forest, value: seq<Byte>, nn: nat, np: nat, tp: nat)
    requires Counters(f, nn, np, tp) && |g.nodes| == |f.nodes| && |g.props| == |f.props| + 1
    requires g.props[|f.props|].value == value
    requires forall i | 0 <= i < |f.props| :: g.props[i].value == f.props[i].value
    ensures Counters(g, nn, (np + 1) % LIMIT, (tp + (|value| + 3) % LIMIT / 4 * 4) % LIMIT)
  {
    OneMoreValue(f.props, g.props);
    hide BytesBelow;
    RoundedMod(BytesBelow(f.props, |f.props|), |value|);
    SumMod(|f.props|, 1);
  }

  lemma CountedNode(f: Forest, g: Forest, nn: nat, np: nat, tp: nat)
    requires Counters(f, nn, np, tp) && |g.nodes| == |f.nodes| + 1 && g.props == f.props
    ensures Counters(g, (nn + 1) % LIMIT, np, tp)
  {
    hide BytesBelow;
    SumMod(|f.nodes|, 1);
  }

  lemma HasLast(f: Forest, n: int, root: int, nn: nat, np: nat, tp: nat)
    requires Good(f, root, nn, np, tp) && 0 <= n < |f.nodes|
    ensures f.nodes[n].properties != NIL ==> 0 <= f.nodes[n].lastProp < |f.props|
  {
  }

  /** Rounding after truncation to 32 bits only loses a multiple of 2^32. */
  lemma RoundedMod(b: nat, n: nat)
    ensures (b + RoundToLong(n)) % LIMIT == (b % LIMIT + (n + 3) % LIMIT / 4 * 4) % LIMIT
  {
    var q, r := (n + 3) / LIMIT, (n + 3) % LIMIT;
    assert n + 3 == LIMIT * q + r;
    assert (n + 3) / 4 == LIMIT / 4 * q + r / 4;
    assert RoundToLong(n) == LIMIT * q + r / 4 * 4;
    ModShift(q, b + r / 4 * 4);
    SumMod(b, r / 4 * 4);
  }

  /** The state of the builder: linked records, the counters that go with them, and the root. */
  ghost predicate Good(f: Forest, root: int, nn: nat, np: nat, tp: nat) {
    Balanced(f) && Counters(f, nn, np, tp) && root == if f.nodes == [] then NIL else 0
  }

  lemma EmptyIsGood()
    ensures Good(Forest([], [], [], []), NIL, 0, 0, 0)
  {
  }

  lemma GoodAfterProp(f: Forest, n: int, name: seq<Byte>, value: seq<Byte>, root: int, nn: nat, np: nat, tp: nat)
    requires Good(f, root, nn, np, tp) && 0 <= n < |f.nodes| && |value| < LIMIT
    ensures PropAdded(f, WithProp(f, n, name, value), n, Prop(name, value))
    ensures Good(WithProp(f, n, name, value), root,
                 nn, (np + 1) % LIMIT, (tp + (|value| + 3) % LIMIT / 4 * 4) % LIMIT)
  {
    var g := WithProp(f, n, name, value);
    WithPropExact(f, n, name, value);
    PropKeepsBalance(f, n, name, value);
    hide NodeLinks, PropLinks, PropsOf, KidsOf, Balanced, Counters;
    CountedProp(f, g, value, nn, np, tp);
  }

  lemma GoodAfterChild(f: Forest, n: int, root: int, nn: nat, np: nat, tp: nat)
    requires Good(f, root, nn, np, tp) && NIL <= n < |f.nodes| && (n == NIL <==> f.nodes == [])
    ensures ChildAdded(f, WithChild(f, n), n)
    ensures n != NIL ==> root == 0
    ensures Good(WithChild(f, n), 0, (nn + 1) % LIMIT, np, tp)
  {
    var g := WithChild(f, n);
    WithChildExact(f, n);
    ChildKeepsBalance(f, n);
    hide NodeLinks, PropLinks, PropsOf, KidsOf, Balanced, Counters;
    CountedNode(f, g, nn, np, tp);
  }

  /** A child and then its name: one new node bearing that name. */
  lemma NamedChild(f: Forest, g: Forest, h: Forest, n: int, p: Prop)
    requires ChildAdded(f, g, n) && PropAdded(g, h, |f.nodes|, p)
    ensures Grown(f, h, n, [p])
  {
    hide Linked, PropsOf, KidsOf;
  }

  class DeviceTree {
    var nodes: seq<Node>
    var props: seq<Property>
    var rootNode: int
    var freeNodes: nat
    var freeProperties: nat
    var numNodes: nat
    var numProperties: nat
    var totalPropertySize: nat
    ghost var up: seq<int>
    ghost var owner: seq<int>
    ghost var starved: bool // some request to malloc has failed

    ghost function State(): Forest
      reads this
    {
      Forest(nodes, props, up, owner)
    }

    ghost predicate Valid()
      reads this
    {
      Good(State(), rootNode, numNodes, numProperties, totalPropertySize)
    }

    /** DT__Initialize: a tree of one node called "/", or no tree when there is no memory. */
    constructor ()
      ensures Valid() && (nodes == [] ==> starved)
      ensures nodes != [] ==> |nodes| == 1 && KidsOf(State(), 0) == []
      ensures nodes != [] && !starved ==> PropsOf(State(), 0) == [Prop(NAME, [SLASH, 0])]
    {
      nodes, props, up, owner := [], [], [], [];
      freeNodes, freeProperties := 0, 0;
      numNodes, numProperties, totalPropertySize := 0, 0, 0;
      rootNode, starved := NIL, false;
      new;
      hide Good, Linked, KidsOf, PropsOf;
      EmptyIsGood();
      assert [SLASH] + [0] == [SLASH, 0];
      var root := AddChild(NIL, Some([SLASH]));
    }

    /** malloc of a 4096-byte pool, which may fail. */
    method Malloc() returns (ok: bool)
      modifies `starved
      ensures starved == (old(starved) || !ok)
    {
      ok := *;
      if !ok {
        starved := true;
      }
    }

    /** The links and counters DT__AddProperty sets once it has a free record. */
    method LinkProperty(node: int, name: seq<Byte>, value: seq<Byte>)
      requires 0 <= node < |nodes|
      requires nodes[node].properties != NIL ==> 0 <= nodes[node].lastProp < |props|
      modifies this`nodes, this`props, this`owner, this`numProperties, this`totalPropertySize
      ensures State() == WithProp(old(State()), node, name, value)
      ensures numProperties == (old(numProperties) + 1) % LIMIT
      ensures totalPropertySize == (old(totalPropertySize) + (|value| + 3) % LIMIT / 4 * 4) % LIMIT
    {
      var p := |props|;
      if nodes[node].properties == NIL {
        nodes := nodes[node := nodes[node].(properties := p)];
      } else {
        var last := nodes[node].lastProp;
        props := props[last := props[last].(next := p)];
      }
      nodes := nodes[node := nodes[node].(lastProp := p)];
      props := props + [Property(name, value, NIL)];
      owner := owner + [node];
      numProperties := (numProperties + 1) % LIMIT;
      totalPropertySize := (totalPropertySize + (|value| + 3) % LIMIT / 4 * 4) % LIMIT;
    }

    /** DT__AddProperty: always added at the end of the node's list. */
    method AddProperty(node: int, name: seq<Byte>, value: seq<Byte>) returns (p: int)
      requires Valid() && 0 <= node < |nodes| && |value| < LIMIT
      modifies this
      ensures Valid() && (p == NIL <==> State() == old(State())) && (p == NIL ==> starved)
      ensures p != NIL ==> p == |old(props)| && PropAdded(old(State()), State(), node, Prop(name, value))
      ensures p != NIL ==> starved == old(starved)
    {
      hide Good, Linked, KidsOf, PropsOf;
      if freeProperties == 0 {
        var ok := Malloc();
        if !ok {
          return NIL;
        }
        freeProperties := POOL - 1;
      }
      freeProperties := freeProperties - 1;
      p := |props|;
      HasLast(State(), node, rootNode, numNodes, numProperties, totalPropertySize);
      GoodAfterProp(State(), node, name, value, rootNode, numNodes, numProperties, totalPropertySize);
      LinkProperty(node, name, value);
    }

    /** DT__AddChild: added in front of the parent's children; without a parent it becomes the root. */
    method AddChild(parent: int, name: Option<seq<Byte>>) returns (c: int)
      requires Valid() && NIL <= parent < |nodes| && (parent == NIL <==> nodes == [])
      requires name.Some? ==> |name.value| < LIMIT - 1
      modifies this
      ensures Valid() && (old(starved) ==> starved)
      ensures c == NIL <==> State() == old(State())
      ensures c == NIL ==> starved
      ensures c != NIL ==> c == |old(nodes)| && |nodes| == c + 1
      ensures c != NIL ==>
          || Grown(old(State()), State(), parent, [])
          || (name.Some? && Grown(old(State()), State(), parent, [Prop(NAME, name.value + [0])]))
      ensures c != NIL && name.Some? && !starved ==>
          Grown(old(State()), State(), parent, [Prop(NAME, name.value + [0])])
    {
      hide Good, Linked, KidsOf, PropsOf;
      if freeNodes == 0 {
        var ok := Malloc();
        if !ok {
          return NIL;
        }
        freeNodes := POOL - 1;
      }
      freeNodes := freeNodes - 1;
      c := |nodes|;
      ghost var f := State();
      GoodAfterChild(f, parent, rootNode, numNodes, numProperties, totalPropertySize);
      if parent == NIL {
        rootNode := c;
        nodes := nodes + [Node(NIL, NIL, NIL, NIL)];
      } else {
        nodes := nodes[parent := nodes[parent].(children := c)] + [Node(NIL, NIL, NIL, nodes[parent].children)];
      }
      up := up + [parent];
      numNodes := (numNodes + 1) % LIMIT;
      assert State() == WithChild(f, parent);
      ghost var g := State();
      if name.Some? {
        var p := AddProperty(c, NAME, name.value + [0]);
        if p != NIL {
          NamedChild(f, g, State(), parent, Prop(NAME, name.value + [0]));
        }
      }
    }

    // ----- flattening

    /** strcpy and bcopy into the flat buffer. */
    method Store(buffer: array<Byte>, at: nat, src: seq<Byte>)
      requires at + |src| <= buffer.Length
      modifies buffer
      ensures buffer[..] == Put(old(buffer[..]), at, src) && Wrote(old(buffer[..]), buffer[..], at, src)
    {
      forall i | 0 <= i < |src| {
        buffer[at + i] := src[i];
      }
    }

    /** One property at the given offset of a zeroed buffer. */
    method FlattenProp(prop: int, buffer: array<Byte>, at: nat) returns (end: nat)
      requires 0 <= prop < |props| && ValidProp(Prop(props[prop].name, props[prop].value))
      requires at + PropSize(Prop(props[prop].name, props[prop].value)) <= buffer.Length
      requires ZeroIn(buffer[..], at, at + PropSize(Prop(props[prop].name, props[prop].value)))
      modifies buffer
      ensures end == at + PropSize(Prop(props[prop].name, props[prop].value))
      ensures Wrote(old(buffer[..]), buffer[..], at, FlatProp(Prop(props[prop].name, props[prop].value)))
    {
      PropStores(buffer[..], at, Prop(props[prop].name, props[prop].value));
      hide Put, ZeroIn, FlatProp;
      Store(buffer, at, props[prop].name + [0]);
      Store(buffer, at + NAME_LENGTH, Word32(|props[prop].value|));
      end := at + NAME_LENGTH + 4;
      Store(buffer, end, props[prop].value);
      end := end + RoundToLong(|props[prop].value|);
    }

    /** The first loop of FlattenNodes. */
    method FlattenProps(node: int, buffer: array<Byte>, at: nat) returns (end: nat, count: nat)
      requires Linked(State()) && 0 <= node < |nodes|
      requires forall p | p in PropsOf(State(), node) :: ValidProp(p)
      requires at + PropsSize(PropsOf(State(), node)) <= buffer.Length
      requires ZeroIn(buffer[..], at, at + PropsSize(PropsOf(State(), node)))
      modifies buffer
      ensures end == at + PropsSize(PropsOf(State(), node)) && count == |PropsOf(State(), node)|
      ensures Wrote(old(buffer[..]), buffer[..], at, FlatProps(PropsOf(State(), node)))
    {
      hide NodeLinks, PropLinks, PropsFrom, PropsOf, Wrote, ZeroIn, FlatProps, FlatProp, PropsSize, PropSize;
      hide ValidProp;
      ghost var f, base, all := State(), buffer[..], PropsOf(State(), node);
      FirstProp(f, node);
      ghost var done: seq<Prop> := [];
      end, count := at, 0;
      var prop := nodes[node].properties;
      NothingWrote(base, at);
      while prop != NIL
        invariant NIL <= prop < |props| && done + PropsFrom(f, prop) == all
        invariant (forall p | p in done :: ValidProp(p)) && count == |done|
        invariant end == at + PropsSize(done)
        invariant Wrote(base, buffer[..], at, FlatProps(done))
        decreases if prop == NIL then 0 else |props| - prop
      {
        ghost var p, before := Prop(props[prop].name, props[prop].value), buffer[..];
        PropStep(f, prop, done, all);
        PropRoom(base, before, at, done, p, all);
        end := FlattenProp(prop, buffer, end);
        PropWrote(base, before, buffer[..], at, done, p);
        done := done + [p];
        count := count + 1;
        prop := props[prop].next;
      }
      NoMoreProps(f, done, all);
    }

    /** The second loop of FlattenNodes. */
    method FlattenKids(node: int, buffer: array<Byte>, at: nat) returns (end: nat, count: nat)
      requires Linked(State()) && 0 <= node < |nodes|
      requires forall t | t in KidTrees(State(), node) :: ValidTree(t)
      requires at + KidsSize(KidTrees(State(), node)) <= buffer.Length
      requires ZeroIn(buffer[..], at, at + KidsSize(KidTrees(State(), node)))
      modifies buffer
      ensures end == at + KidsSize(KidTrees(State(), node)) && count == |KidTrees(State(), node)|
      ensures Wrote(old(buffer[..]), buffer[..], at, FlatKids(KidTrees(State(), node)))
      decreases |nodes| - node, 0
    {
      hide NodeLinks, PropLinks, TreeOf, KidTrees, TreesFrom, Wrote, ZeroIn, FlatKids, Flat, KidsSize, Size;
      hide ValidTree;
      ghost var f, base, all := State(), buffer[..], KidTrees(State(), node);
      FirstKid(f, node);
      ghost var done: seq<Tree> := [];
      end, count := at, 0;
      var child := nodes[node].children;
      NothingWrote(base, at);
      while child != NIL
        invariant KidLink(f, node, child) && done + TreesFrom(f, node, child) == all
        invariant (forall t | t in done :: ValidTree(t)) && count == |done|
        invariant end == at + KidsSize(done)
        invariant Wrote(base, buffer[..], at, FlatKids(done))
        decreases child
      {
        ghost var t, before := TreeOf(f, child), buffer[..];
        KidStep(f, node, child, done, all);
        KidRoom(base, before, at, done, t, all);
        end := FlattenNodes(child, buffer, end);
        KidWrote(base, before, buffer[..], at, done, t);
        done := done + [t];
        count := count + 1;
        child := nodes[child].next;
      }
      NoMoreKids(f, node, done, all);
    }

    /** FlattenNodes: the header is patched with the counts after what they count has been written. */
    method FlattenNodes(node: int, buffer: array<Byte>, start: nat) returns (end: nat)
      requires Linked(State()) && 0 <= node < |nodes| && ValidTree(TreeOf(State(), node))
      requires start + Size(TreeOf(State(), node)) <= buffer.Length
      requires ZeroIn(buffer[..], start, start + Size(TreeOf(State(), node)))
      modifies buffer
      ensures end == start + Size(TreeOf(State(), node))
      ensures Wrote(old(buffer[..]), buffer[..], start, Flat(TreeOf(State(), node)))
      decreases |nodes| - node, 1
    {
      hide NodeLinks, PropLinks, PropsOf, KidTrees, TreeOf, Flat, Size, ValidTree, FlatProps, FlatKids, Word32;
      hide PropsSize, KidsSize, Wrote, Put, ZeroIn, ValidProp;
      ghost var f, s0, hi := State(), buffer[..], start + Size(TreeOf(State(), node));
      ghost var ps, ts := PropsOf(f, node), KidTrees(f, node);
      NodeParts(f, node);
      ZeroWithin(s0, start, hi, start + 8, start + 8 + PropsSize(ps));
      var count;
      end, count := FlattenProps(node, buffer, start + 8);
      ghost var s1 := buffer[..];
      Store(buffer, start, Word32(count));
      RestIsZero(s0, s1, buffer[..], start, FlatProps(ps), Word32(count), hi);
      end, count := FlattenKids(node, buffer, end);
      ghost var s3 := buffer[..];
      Store(buffer, start + 4, Word32(count));
      NodeWrote(s0, s1, s3, buffer[..], start, FlatProps(ps), FlatKids(ts), Word32(|ps|), Word32(|ts|));
    }

    /**
     * DT__FlattenDeviceTree: the size comes from the counters; with `want`, the tree is written into the
     * supplied buffer or a new one.
     */
    method FlattenDeviceTree(want: bool, supplied: array?<Byte>) returns (buf: array?<Byte>, length: nat)
      requires Valid()
      requires want ==> NamesFit(State()) && CountedSize(State()) < LIMIT
      requires want && supplied != null ==> CountedSize(State()) <= supplied.Length
      modifies if supplied == null then {} else {supplied}
      ensures length == CountedSize(State()) % LIMIT
      ensures nodes == [] ==> length == 0 && buf == null
      ensures nodes != [] ==> CountedSize(State()) == Size(TreeOf(State(), 0))
      ensures want && nodes != [] ==> buf != null && ValidTree(TreeOf(State(), 0))
      ensures want && nodes != [] ==> length <= buf.Length && buf[..length] == Flat(TreeOf(State(), 0))
      ensures want && nodes != [] ==> NodeAt(buf[..], 0, TreeOf(State(), 0)) && length == NodeBytes(TreeOf(State(), 0))
      ensures want && nodes != [] ==> ReadTree(buf[..length]) == Some((TreeOf(State(), 0), []))
      ensures want && nodes != [] && supplied == null ==> fresh(buf) && buf.Length == length
      ensures want && nodes != [] && supplied != null ==>
          buf == supplied && buf[length..] == old(supplied[..])[length..]
    {
      hide NodeLinks, PropLinks, PropsOf, TreeOf, Flat, Size, ValidTree, WeightsBelow, ReadTree, NodeAt, NodeBytes;
      hide BytesBelow, CountedSize, Counters, Wrote, NamesFit;
      length := (numNodes * 8 + numProperties * (NAME_LENGTH + 4) + totalPropertySize) % LIMIT;
      TotalIsCounted(State(), numNodes, numProperties, totalPropertySize);
      buf := null;
      if nodes == [] {
        NothingCounted(State());
      } else {
        RootSize(State());
        if want {
          TreeFits(State(), 0);
          if supplied == null {
            buf := new Byte[length];
          } else {
            buf := supplied;
          }
          ghost var before := buf[..];
          WriteRoot(buf, length);
          RootReads(before, buf[..], TreeOf(State(), 0));
          assert buf[..length] == buf[..][..length] && buf[length..] == buf[..][length..];
        }
      }
    }

    /** bzero, then FlattenNodes from the root. */
    method WriteRoot(buf: array<Byte>, length: nat)
      requires Linked(State()) && rootNode == 0 && nodes != [] && ValidTree(TreeOf(State(), 0))
      requires length == Size(TreeOf(State(), 0)) <= buf.Length
      modifies buf
      ensures Wrote(old(buf[..]), buf[..], 0, Flat(TreeOf(State(), 0)))
    {
      hide NodeLinks, PropLinks, TreeOf, Flat, Size, ValidTree;
      forall i | 0 <= i < length {
        buf[i] := 0;
      }
      ghost var zeroed := buf[..];
      FlatSize(TreeOf(State(), 0));
      var end := FlattenNodes(rootNode, buf, 0);
      assert zeroed[length..] == old(buf[..])[length..];
    }

    /** DT__GetName */
    method GetName(node: int) returns (name: seq<Byte>)
      requires Linked(State()) && 0 <= node < |nodes|
      ensures name == NameOf(State(), node)
    {
      hide NodeLinks, PropLinks, PropsOf, PropsFrom;
      FirstProp(State(), node);
      var prop := nodes[node].properties;
      while prop != NIL
        invariant NIL <= prop < |props| && NameIn(PropsFrom(State(), prop)) == NameOf(State(), node)
        decreases if prop == NIL then 0 else |props| - prop
      {
        PropStep(State(), prop, [], PropsFrom(State(), prop));
        if props[prop].name == NAME {
          return ReadName(props[prop].value);
        }
        prop := props[prop].next;
      }
      NoMoreProps(State(), [], PropsFrom(State(), prop));
      return NO_NAME;
    }

    /** The first scanning loop of DT__FindNode. */
    method PastSlashes(path: seq<Byte>, start: nat) returns (i: nat)
      requires start <= |path|
      ensures start <= i <= |path| && SkipSlashes(path[start..]) == path[i..]
    {
      i := start;
      while i < |path| && path[i] == SLASH
        invariant start <= i <= |path| && SkipSlashes(path[start..]) == SkipSlashes(path[i..])
      {
        assert path[i..][1..] == path[i + 1..];
        i := i + 1;
      }
    }

    /** The second: copies one part of the path and says where it ends. */
    method CopyPart(path: seq<Byte>, start: nat) returns (part: seq<Byte>, i: nat)
      requires start <= |path|
      ensures i == start + PartLength(path[start..], MAX_PART) && part == path[start..i]
    {
      i := start;
      part := [];
      var k := 1;
      while k < MAX_PART + 1 && i < |path| && path[i] != SLASH
        invariant start <= i <= |path| && i == start + k - 1 && k <= MAX_PART + 1 && part == path[start..i]
        invariant PartLength(path[start..], MAX_PART) == k - 1 + PartLength(path[i..], MAX_PART + 1 - k)
      {
        assert path[i..][1..] == path[i + 1..];
        part := part + [path[i]];
        i := i + 1;
        k := k + 1;
      }
    }

    /** The child loop of DT__FindNode. */
    method FindChild(node: int, name: seq<Byte>) returns (child: int)
      requires Linked(State()) && 0 <= node < |nodes|
      ensures NIL <= child < |nodes| && child == Named(State(), KidsOf(State(), node), name)
    {
      hide NodeLinks, PropLinks, KidsFrom, KidsOf, NameOf;
      FirstChild(State(), node);
      child := nodes[node].children;
      while child != NIL
        invariant KidLink(State(), node, child) && AllNodes(State(), KidsFrom(State(), child))
        invariant Named(State(), KidsFrom(State(), child), name) == Named(State(), KidsOf(State(), node), name)
        decreases child
      {
        ChildStep(State(), node, child);
        var n := GetName(child);
        if n == name {
          return;
        }
        child := nodes[child].next;
      }
      NoChild(State());
    }

    /** DT__FindNode */
    method FindNode(path: seq<Byte>, create: bool) returns (node: int)
      requires Valid() && 0 !in path
      modifies this
      ensures Valid() && (old(starved) ==> starved)
      ensures !create || Find(old(State()), path) != NIL ==>
          State() == old(State()) && node == Find(old(State()), path)
      ensures create && node == NIL ==> starved || old(nodes) == []
      ensures !starved ==> NewNodesNamed(old(State()), State())
      ensures create && NewNodesNamed(old(State()), State()) ==>
          node == Find(State(), path) && KeepsPaths(old(State()), State())
      ensures OneMoreAtMost(old(State()), State())
      ensures create && old(nodes) != [] ==>
          var most := |old(nodes)| + Missing(old(State()), 0, Parts(path));
          |nodes| <= most && (node != NIL ==> |nodes| == most)
    {
      hide NodeLinks, PropLinks, KidsOf, PropsOf, Counters, WeightsBelow, CountedSize, KeepsPaths, Grown;
      hide Follow, OneMoreAtMost, Missing, Named, NewNodesNamed;
      hide Parts, PartLength, SkipSlashes;
      ghost var f0 := State();
      ghost var done: seq<seq<Byte>>, grown := [], false;
      var i := 0;
      node := rootNode;
      SamePaths(f0);
      SameIsKept(f0);
      assert path[0..] == path;
      while node != NIL
        invariant Valid() && (old(starved) ==> starved) && NIL <= node < |nodes| && 0 <= i <= |path|
        invariant done + Parts(path[i..]) == Parts(path)
        invariant if grown then create && Find(f0, path) == NIL && f0.nodes != [] else State() == f0
        invariant OneMoreAtMost(f0, State()) && (!starved || !grown ==> NewNodesNamed(f0, State()))
        invariant NewNodesNamed(f0, State()) ==> Reached(State(), done, node) && KeepsPaths(f0, State())
        invariant node == NIL ==> starved || f0.nodes == [] || (!grown && !create)
        invariant !grown && node != NIL ==> Missing(f0, 0, Parts(path)) == Missing(f0, node, Parts(path[i..]))
        invariant !grown && node == NIL && f0.nodes != [] ==> Find(f0, path) == NIL
        invariant grown && node != NIL ==> node >= |f0.nodes| && KidsOf(State(), node) == []
        invariant grown ==> |nodes| + (if node == NIL then 0 else |Parts(path[i..])|) <= |f0.nodes| + Missing(f0, 0, Parts(path))
        invariant grown && node != NIL ==> |nodes| + |Parts(path[i..])| == |f0.nodes| + Missing(f0, 0, Parts(path))
        decreases |path| - i, node != NIL
      {
        ghost var f := State();
        var m := PastSlashes(path, i);
        var part, j := CopyPart(path, m);
        if part == [] {
          LastPart(path, done, i, m);
          MissingStep(f, node, part, []);
          break;
        }
        var child := FindChild(node, part);
        PartsStep(path, done, i, m, part, j);
        if NewNodesNamed(f0, f) {
          ReachStep(f, done, node, part);
        }
        MissingStep(f, node, part, Parts(path[j..]));
        if grown {
          NoneNamed(f, node, part);
        }
        if !grown && child == NIL {
          NotFound(f0, done + [part], Parts(path[j..]), path);
        }
        if child == NIL && create {
          child := AddChild(node, Some(part));
          grown := grown || child != NIL;
          if child != NIL {
            ChildMade(f0, f, State(), done, node, part, f == f0);
          }
        }
        i := j;
        done := done + [part];
        node := child;
      }
      if node == NIL && NewNodesNamed(f0, State()) {
        NotFound(State(), done, Parts(path[i..]), path);
      }
    }
  }

  lemma NothingWrote(s: seq<Byte>, at: nat)
    requires at <= |s|
    ensures Wrote(s, s, at, FlatProps([])) && Wrote(s, s, at, FlatKids([]))
    ensures PropsSize([]) == 0 && KidsSize([]) == 0
  {
  }

  lemma FirstProp(f: Forest, n: int)
    requires Linked(f) && 0 <= n < |f.nodes|
    ensures NIL <= f.nodes[n].properties < |f.props| && PropsFrom(f, f.nodes[n].properties) == PropsOf(f, n)
  {
  }

  ghost predicate KidLink(f: Forest, n: int, c: int) {
    NIL <= c < |f.nodes| && (c != NIL ==> 0 <= n < c && |f.up| == |f.nodes| && f.up[c] == n)
  }

  ghost function TreesFrom(f: Forest, n: int, c: int): seq<Tree>
    requires Linked(f) && 0 <= n < |f.nodes| && KidLink(f, n, c)
  {
    TreesOf(f, n, KidsFrom(f, c))
  }

  /** The trees under n in list order. */
  ghost function KidTrees(f: Forest, n: int): seq<Tree>
    requires Linked(f) && 0 <= n < |f.nodes|
  {
    TreesOf(f, n, KidsOf(f, n))
  }

  lemma FirstKid(f: Forest, n: int)
    requires Linked(f) && 0 <= n < |f.nodes|
    ensures KidLink(f, n, f.nodes[n].children) && TreesFrom(f, n, f.nodes[n].children) == KidTrees(f, n)
  {
  }

  lemma NoMoreKids(f: Forest, n: int, done: seq<Tree>, all: seq<Tree>)
    requires Linked(f) && 0 <= n < |f.nodes| && done + TreesFrom(f, n, NIL) == all
    ensures done == all
  {
  }

  lemma TreesStep(f: Forest, n: int, c: int)
    requires Linked(f) && 0 <= n < |f.nodes| && c != NIL && KidLink(f, n, c)
    ensures var q := f.nodes[c].next;
            q < c && KidLink(f, n, q) && TreesFrom(f, n, c) == [TreeOf(f, c)] + TreesFrom(f, n, q)
  {
    assert KidsFrom(f, c)[1..] == KidsFrom(f, f.nodes[c].next);
    hide PropLinks, TreeOf;
  }

  lemma Stepped<T>(done: seq<T>, t: T, rest: seq<T>, all: seq<T>)
    requires done + ([t] + rest) == all
    ensures done + [t] + rest == all && t in all && done + [t] <= all
  {
    assert all[|done|] == t;
  }

  lemma KidStep(f: Forest, n: int, c: int, done: seq<Tree>, all: seq<Tree>)
    requires Linked(f) && 0 <= n < |f.nodes| && c != NIL && KidLink(f, n, c) && done + TreesFrom(f, n, c) == all
    ensures var q, t := f.nodes[c].next, TreeOf(f, c);
            && q < c && KidLink(f, n, q) && done + [t] + TreesFrom(f, n, q) == all && t in all && done + [t] <= all
  {
    hide NodeLinks, PropLinks, TreesFrom, TreeOf;
    TreesStep(f, n, c);
    Stepped(done, TreeOf(f, c), TreesFrom(f, n, f.nodes[c].next), all);
  }

  lemma KidSizes(done: seq<Tree>, t: Tree, all: seq<Tree>)
    requires done + [t] <= all
    ensures KidsSize(done) + Size(t) <= KidsSize(all)
  {
    hide Size, KidsSize;
    assert all == done + [t] + all[|done| + 1..];
    KidsSizeSplit(done + [t], all[|done| + 1..]);
    KidsSizeAppend(done, t);
  }

  lemma KidRoom(base: seq<Byte>, b: seq<Byte>, at: nat, done: seq<Tree>, t: Tree, all: seq<Tree>)
    requires done + [t] <= all && forall k | k in done :: ValidTree(k)
    requires at + KidsSize(all) <= |base| && ZeroIn(base, at, at + KidsSize(all))
    requires Wrote(base, b, at, FlatKids(done))
    ensures |b| == |base| && at + KidsSize(done) + Size(t) <= |b|
    ensures ZeroIn(b, at + KidsSize(done), at + KidsSize(done) + Size(t))
  {
    hide ValidTree, Size, KidsSize, FlatKids;
    KidSizes(done, t, all);
    FlatKidsSize(done);
    PutKeepsZero(base, at, FlatKids(done), at + KidsSize(all));
  }

  lemma ZeroWithin(s: seq<Byte>, lo: nat, hi: nat, from: nat, to: nat)
    requires lo <= from <= to <= hi <= |s| && ZeroIn(s, lo, hi)
    ensures ZeroIn(s, from, to)
  {
  }

  lemma RestIsZero(s: seq<Byte>, r: seq<Byte>, q: seq<Byte>, at: nat, ps: seq<Byte>, np: seq<Byte>, hi: nat)
    requires |np| == 4 && Wrote(s, r, at + 8, ps) && Wrote(r, q, at, np)
    requires at + 8 + |ps| <= hi <= |s| && ZeroIn(s, at, hi)
    ensures |q| == |s| && ZeroIn(q, at + 8 + |ps|, hi)
  {
  }

  lemma NodeWrote(s0: seq<Byte>, s1: seq<Byte>, s3: seq<Byte>, s4: seq<Byte>, at: nat,
                  ps: seq<Byte>, ks: seq<Byte>, np: seq<Byte>, nk: seq<Byte>)
    requires |np| == |nk| == 4 && at + 8 + |ps| + |ks| <= |s0|
    requires Wrote(s0, s1, at + 8, ps) && Wrote(Put(s1, at, np), s3, at + 8 + |ps|, ks) && Wrote(s3, s4, at + 4, nk)
    ensures Wrote(s0, s4, at, np + nk + ps + ks)
  {
    NodeStores(s0, at, np, nk, ps, ks);
  }

  lemma KidsSizeAppend(ts: seq<Tree>, t: Tree)
    ensures KidsSize(ts + [t]) == KidsSize(ts) + Size(t)
  {
    KidsSizeSplit(ts, [t]);
    assert KidsSize([t]) == Size(t) + KidsSize([]);
  }

  /** Writing the next child extends what is written by its flat form. */
  lemma KidWrote(base: seq<Byte>, b: seq<Byte>, c: seq<Byte>, at: nat, done: seq<Tree>, t: Tree)
    requires ValidTree(t) && forall k | k in done :: ValidTree(k)
    requires Wrote(base, b, at, FlatKids(done)) && Wrote(b, c, at + KidsSize(done), Flat(t))
    ensures Wrote(base, c, at, FlatKids(done + [t])) && KidsSize(done + [t]) == KidsSize(done) + Size(t)
  {
    FlatKidsSize(done);
    KidsSizeAppend(done, t);
    FlatKidsAppend(done, t);
    hide Flat, FlatKids, ValidTree, Size, KidsSize;
    PutPut(base, at, FlatKids(done), Flat(t));
  }

  lemma NodeParts(f: Forest, n: int)
    requires Linked(f) && 0 <= n < |f.nodes| && ValidTree(TreeOf(f, n))
    ensures var ps, ts := PropsOf(f, n), KidTrees(f, n);
            && (forall p | p in ps :: ValidProp(p)) && (forall t | t in ts :: ValidTree(t))
            && |ps| < LIMIT && |ts| < LIMIT
            && Size(TreeOf(f, n)) == 8 + PropsSize(ps) + KidsSize(ts)
            && Flat(TreeOf(f, n)) == Word32(|ps|) + Word32(|ts|) + FlatProps(ps) + FlatKids(ts)
            && |FlatProps(ps)| == PropsSize(ps) && |FlatKids(ts)| == KidsSize(ts)
  {
    FlatPropsSize(PropsOf(f, n));
    FlatKidsSize(KidTrees(f, n));
  }

  lemma TotalIsCounted(f: Forest, nn: nat, np: nat, tp: nat)
    requires Counters(f, nn, np, tp)
    ensures (nn * 8 + np * (NAME_LENGTH + 4) + tp) % LIMIT == CountedSize(f) % LIMIT
  {
    var a, b, c := |f.nodes|, |f.props|, BytesBelow(f.props, |f.props|);
    hide BytesBelow;
    assert 8 * a + 36 * b + c == (8 * (a / LIMIT) + 36 * (b / LIMIT) + c / LIMIT) * LIMIT + (8 * nn + 36 * np + tp);
    ModShift(8 * (a / LIMIT) + 36 * (b / LIMIT) + c / LIMIT, 8 * nn + 36 * np + tp);
  }

  lemma NothingCounted(f: Forest)
    requires Linked(f) && f.nodes == []
    ensures CountedSize(f) == 0
  {
    if f.props != [] {
      SomeOwner(f, 0);
    }
  }

  lemma SomeOwner(f: Forest, p: int)
    requires PropLinks(f) && 0 <= p < |f.props|
    ensures f.nodes != []
  {
    assert 0 <= f.owner[p] < |f.nodes|;
  }

  /** What FlattenNodes leaves in the buffer, and that it reads back. */
  lemma RootReads(s: seq<Byte>, r: seq<Byte>, t: Tree)
    requires ValidTree(t) && Wrote(s, r, 0, Flat(t))
    ensures |r| == |s| && Size(t) <= |s| && r[..Size(t)] == Flat(t) && r[Size(t)..] == s[Size(t)..]
    ensures ReadTree(Flat(t)) == Some((t, []))
    ensures NodeAt(r, 0, t) && Size(t) == NodeBytes(t)
  {
    hide Flat, ReadTree, ValidTree, Size, NodeAt, NodeBytes;
    FlatSize(t);
    NodeLies(r, 0, t);
    assert Flat(t) + [] == Flat(t);
    ReadTreeExact(t, []);
  }

  ghost predicate AllNodes(f: Forest, ks: seq<int>) {
    forall k | k in ks :: 0 <= k < |f.nodes|
  }

  lemma FirstChild(f: Forest, n: int)
    requires Linked(f) && 0 <= n < |f.nodes|
    ensures var c := f.nodes[n].children;
            KidLink(f, n, c) && KidsFrom(f, c) == KidsOf(f, n) && AllNodes(f, KidsFrom(f, c))
  {
  }

  lemma ChildStep(f: Forest, n: int, c: int)
    requires Linked(f) && 0 <= n < |f.nodes| && c != NIL && KidLink(f, n, c)
    ensures var q := f.nodes[c].next;
            q < c && KidLink(f, n, q) && KidsFrom(f, c) == [c] + KidsFrom(f, q) && AllNodes(f, KidsFrom(f, q))
  {
  }

  lemma NoChild(f: Forest)
    requires Linked(f)
    ensures KidsFrom(f, NIL) == []
  {
  }

  /** Going down the parts from the root arrives at n. */
  ghost predicate Reached(f: Forest, parts: seq<seq<Byte>>, n: int) {
    Linked(f) && n == if f.nodes == [] then NIL else Follow(f, 0, parts)
  }

  lemma SamePaths(f: Forest)
    requires Linked(f)
    ensures KeepsPaths(f, f) && Reached(f, [], if f.nodes == [] then NIL else 0)
  {
  }

  lemma LastPart(path: seq<Byte>, done: seq<seq<Byte>>, i: nat, j: nat)
    requires i <= j <= |path| && done + Parts(path[i..]) == Parts(path)
    requires SkipSlashes(path[i..]) == path[j..] && PartLength(path[j..], MAX_PART) == 0
    ensures done == Parts(path) && Parts(path[i..]) == []
  {
  }

  lemma PartsStep(path: seq<Byte>, done: seq<seq<Byte>>, i: nat, m: nat, part: seq<Byte>, j: nat)
    requires i <= m <= j <= |path| && done + Parts(path[i..]) == Parts(path) && 0 !in path
    requires SkipSlashes(path[i..]) == path[m..] && j == m + PartLength(path[m..], MAX_PART)
    requires part == path[m..j] != []
    ensures done + [part] + Parts(path[j..]) == Parts(path) && Parts(path[i..]) == [part] + Parts(path[j..])
    ensures 0 < |part| <= MAX_PART && 0 !in part
  {
    hide PartLength, SkipSlashes;
    var s := path[m..];
    assert s[..j - m] == part && s[j - m..] == path[j..];
    FirstPart(path[i..]);
    hide Parts;
    assert done + ([part] + Parts(path[j..])) == done + [part] + Parts(path[j..]);
  }

  lemma FirstPart(path: seq<Byte>)
    ensures var s := SkipSlashes(path);
            var n := PartLength(s, MAX_PART);
            n != 0 ==> Parts(path) == [s[..n]] + Parts(s[n..])
  {
    hide PartLength, SkipSlashes;
  }

  lemma ReachStep(f: Forest, done: seq<seq<Byte>>, n: int, part: seq<Byte>)
    requires Reached(f, done, n) && 0 <= n < |f.nodes|
    ensures Reached(f, done + [part], Named(f, KidsOf(f, n), part))
  {
    hide NodeLinks, PropLinks, KidsOf, NameOf;
    FollowSplit(f, 0, done, [part]);
    var c := Named(f, KidsOf(f, n), part);
    assert Follow(f, n, [part]) == Follow(f, c, []);
  }

  lemma NotFound(f: Forest, done: seq<seq<Byte>>, rest: seq<seq<Byte>>, path: seq<Byte>)
    requires Reached(f, done, NIL) && done + rest == Parts(path)
    ensures Find(f, path) == NIL
  {
    if f.nodes != [] {
      FollowSplit(f, 0, done, rest);
    }
  }

  lemma PathsChain(f: Forest, g: Forest, h: Forest)
    requires KeepsPaths(f, g) && KeepsPaths(g, h)
    ensures KeepsPaths(f, h)
  {
    hide NodeLinks, PropLinks;
    forall m, parts | 0 <= m < |f.nodes| && Follow(f, m, parts) != NIL
      ensures Follow(h, m, parts) == Follow(f, m, parts)
    {
      assert Follow(g, m, parts) == Follow(f, m, parts);
    }
  }

  lemma ChildCounted(f0: Forest, f: Forest, g: Forest, n: int, ps: seq<Prop>, first: bool)
    requires Grown(f, g, n, ps) && 0 <= n && OneMoreAtMost(f0, f)
    requires if first then f == f0 else n >= |f0.nodes|
    ensures OneMoreAtMost(f0, g) && KidsOf(g, |f.nodes|) == []
  {
    if first {
      FirstCreated(f, g, n, ps);
    } else {
      NextCreated(f0, f, g, n, ps);
    }
  }

  lemma NoneNamed(f: Forest, n: int, part: seq<Byte>)
    requires Linked(f) && 0 <= n < |f.nodes| && KidsOf(f, n) == []
    ensures Named(f, KidsOf(f, n), part) == NIL
  {
  }

  /** The node DT__FindNode creates is where its part leads, and nothing found before is lost. */
  lemma ChildReached(f0: Forest, f: Forest, g: Forest, done: seq<seq<Byte>>, n: int, part: seq<Byte>)
    requires KeepsPaths(f0, f) && Reached(f, done, n) && 0 <= n < |f.nodes|
    requires Grown(f, g, n, [Prop(NAME, part + [0])]) && 0 !in part
    requires Named(f, KidsOf(f, n), part) == NIL
    ensures KeepsPaths(f0, g) && Reached(g, done + [part], |f.nodes|)
  {
    hide NodeLinks, PropLinks, KidsOf, PropsOf, NameOf;
    var ps := [Prop(NAME, part + [0])];
    ReadNameExact(part, [0]);
    assert NameIn(ps) == part;
    GrownKeepsPaths(f, g, n, ps);
    PathsChain(f0, f, g);
    assert Follow(f, 0, done) == n;
    assert Reached(g, done, n);
    ReachStep(g, done, n, part);
  }

  /** The same, when the property for its name may have failed. */
  lemma ChildMade(f0: Forest, f: Forest, g: Forest, done: seq<seq<Byte>>, n: int, part: seq<Byte>, first: bool)
    requires Grown(f, g, n, []) || Grown(f, g, n, [Prop(NAME, part + [0])])
    requires 0 <= n < |f.nodes| && 0 !in part && Named(f, KidsOf(f, n), part) == NIL && OneMoreAtMost(f0, f)
    requires if first then f == f0 else n >= |f0.nodes|
    requires NewNodesNamed(f0, f) ==> KeepsPaths(f0, f) && Reached(f, done, n)
    ensures OneMoreAtMost(f0, g) && KidsOf(g, |f.nodes|) == []
    ensures NewNodesNamed(f0, g) ==> KeepsPaths(f0, g) && Reached(g, done + [part], |f.nodes|)
    ensures NewNodesNamed(f0, g) <==> NewNodesNamed(f0, f) && Grown(f, g, n, [Prop(NAME, part + [0])])
  {
    hide NodeLinks, PropLinks, KidsOf, PropsOf, NameOf, Named, Follow, NewNodesNamed, KeepsPaths, Reached;
    var ps := if Grown(f, g, n, []) then [] else [Prop(NAME, part + [0])];
    ChildCounted(f0, f, g, n, ps, first);
    NamedStep(f0, f, g, n, ps);
    if ps != [] && NewNodesNamed(f0, f) {
      ChildReached(f0, f, g, done, n, part);
    }
  }

  lemma NoMoreProps(f: Forest, done: seq<Prop>, all: seq<Prop>)
    requires Linked(f) && done + PropsFrom(f, NIL) == all
    ensures done == all
  {
  }

  lemma PropStep(f: Forest, p: int, done: seq<Prop>, all: seq<Prop>)
    requires Linked(f) && 0 <= p < |f.props| && done + PropsFrom(f, p) == all
    ensures var q, v := f.props[p].next, Prop(f.props[p].name, f.props[p].value);
            && NIL <= q < |f.props| && (q == NIL || p < q)
            && done + [v] + PropsFrom(f, q) == all && v in all && done + [v] <= all
  {
    var q, v := f.props[p].next, Prop(f.props[p].name, f.props[p].value);
    assert PropsFrom(f, p) == [v] + PropsFrom(f, q);
    assert all == done + [v] + PropsFrom(f, q);
    assert all[|done|] == v;
  }

  lemma PropRoom(base: seq<Byte>, b: seq<Byte>, at: nat, done: seq<Prop>, p: Prop, all: seq<Prop>)
    requires done + [p] <= all && forall q | q in done :: ValidProp(q)
    requires at + PropsSize(all) <= |base| && ZeroIn(base, at, at + PropsSize(all))
    requires Wrote(base, b, at, FlatProps(done))
    ensures |b| == |base| && at + PropsSize(done) + PropSize(p) <= |b|
    ensures ZeroIn(b, at + PropsSize(done), at + PropsSize(done) + PropSize(p))
  {
    assert all == done + [p] + all[|done| + 1..];
    PropsSizeSplit(done + [p], all[|done| + 1..]);
    PropsSizeAppend(done, p);
    FlatPropsSize(done);
    PutKeepsZero(base, at, FlatProps(done), at + PropsSize(all));
  }

  /** Writing the next property extends what is written by its flat form. */
  lemma PropWrote(base: seq<Byte>, b: seq<Byte>, c: seq<Byte>, at: nat, done: seq<Prop>, p: Prop)
    requires ValidProp(p) && forall q | q in done :: ValidProp(q)
    requires Wrote(base, b, at, FlatProps(done)) && Wrote(b, c, at + PropsSize(done), FlatProp(p))
    ensures Wrote(base, c, at, FlatProps(done + [p])) && PropsSize(done + [p]) == PropsSize(done) + PropSize(p)
  {
    FlatPropsSize(done);
    PropsSizeAppend(done, p);
    FlatPropsAppend(done, p);
    hide FlatProp, FlatProps;
    PutPut(base, at, FlatProps(done), FlatProp(p));
  }
}
