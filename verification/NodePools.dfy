/** The linked nodes and properties of device_tree.c, by allocation index, and the tree they spell. */
module NodePools {
  import opened Bytes
  import opened FlatTree

  const NIL := -1

  datatype Node = Node(properties: int, lastProp: int, children: int, next: int)

  datatype Property = Property(name: seq<Byte>, value: seq<Byte>, next: int)

  /** All records in allocation order, with the parent of each node and the node each property hangs from. */
  datatype Forest = Forest(nodes: seq<Node>, props: seq<Property>, up: seq<int>, owner: seq<int>)

  /** c is the newest node below k whose parent is n; NIL if there is none. */
  ghost predicate Newest(up: seq<int>, n: int, k: nat, c: int)
    requires k <= |up|
  {
    if c == NIL then forall j | 0 <= j < k :: up[j] != n
    else 0 <= c < k && up[c] == n && forall j | c < j < k :: up[j] != n
  }

  ghost predicate NodeLinks(f: Forest) {
    && |f.up| == |f.nodes|
    && (forall c | 0 <= c < |f.up| :: NIL <= f.up[c] < c && (f.up[c] == NIL <==> c == 0))
    && (forall n | 0 <= n < |f.nodes| :: Newest(f.up, n, |f.up|, f.nodes[n].children))
    && (forall c | 0 <= c < |f.nodes| :: Newest(f.up, f.up[c], c, f.nodes[c].next))
  }

  ghost predicate PropLinks(f: Forest) {
    && |f.owner| == |f.props|
    && (forall p | 0 <= p < |f.props| ::
          && 0 <= f.owner[p] < |f.nodes|
          && |f.props[p].value| < LIMIT
          && var q := f.props[p].next;
             if q == NIL then p == f.nodes[f.owner[p]].lastProp else p < q < |f.props| && f.owner[q] == f.owner[p])
    && (forall n | 0 <= n < |f.nodes| ::
          var p, q := f.nodes[n].properties, f.nodes[n].lastProp;
          if p == NIL then n !in f.owner
          else 0 <= p < |f.props| && f.owner[p] == n && 0 <= q < |f.props| && f.owner[q] == n && f.props[q].next == NIL)
  }

  ghost predicate Linked(f: Forest) {
    NodeLinks(f) && PropLinks(f)
  }

  // ----- what the links spell

  ghost function PropsFrom(f: Forest, p: int): seq<Prop>
    requires PropLinks(f) && NIL <= p < |f.props|
    decreases if p == NIL then 0 else |f.props| - p
  {
    if p == NIL then [] else [Prop(f.props[p].name, f.props[p].value)] + PropsFrom(f, f.props[p].next)
  }

  ghost function KidsFrom(f: Forest, c: int): (ks: seq<int>)
    requires NodeLinks(f) && NIL <= c < |f.nodes|
    ensures c != NIL ==> forall k | k in ks :: f.up[c] < k <= c && f.up[k] == f.up[c]
    decreases c + 1
  {
    if c == NIL then [] else [c] + KidsFrom(f, f.nodes[c].next)
  }

  /** The properties of n, first to last. */
  ghost function PropsOf(f: Forest, n: int): seq<Prop>
    requires Linked(f) && 0 <= n < |f.nodes|
  {
    PropsFrom(f, f.nodes[n].properties)
  }

  /** The children of n in list order. */
  ghost function KidsOf(f: Forest, n: int): (ks: seq<int>)
    requires Linked(f) && 0 <= n < |f.nodes|
    ensures forall k | k in ks :: n < k < |f.nodes|
  {
    KidsFrom(f, f.nodes[n].children)
  }

  ghost function TreeOf(f: Forest, n: int): Tree
    requires Linked(f) && 0 <= n < |f.nodes|
    decreases |f.nodes| - n, 0
  {
    Tree(PropsOf(f, n), TreesOf(f, n, KidsOf(f, n)))
  }

  ghost function TreesOf(f: Forest, n: int, ks: seq<int>): seq<Tree>
    requires Linked(f) && 0 <= n < |f.nodes|
    requires forall k | k in ks :: n < k < |f.nodes|
    decreases |f.nodes| - n - 1, |ks| + 1
  {
    if ks == [] then []
    else
      assert ks[0] in ks && forall k | k in ks[1..] :: k in ks;
      [TreeOf(f, ks[0])] + TreesOf(f, n, ks[1..])
  }

  // ----- every node is written once: the size of the root's tree

  ghost function Weight(f: Forest, n: int): nat
    requires Linked(f) && 0 <= n < |f.nodes|
  {
    8 + PropsSize(PropsOf(f, n))
  }

  ghost function WeightsBelow(f: Forest, k: nat): nat
    requires Linked(f) && k <= |f.nodes|
  {
    if k == 0 then 0 else WeightsBelow(f, k - 1) + Weight(f, k - 1)
  }

  ghost function SizesBelow(f: Forest, k: nat): nat
    requires Linked(f) && k <= |f.nodes|
  {
    if k == 0 then 0 else SizesBelow(f, k - 1) + Size(TreeOf(f, k - 1))
  }

  /** The sizes of the children of n among the first k nodes. */
  ghost function KidSizes(f: Forest, n: int, k: nat): nat
    requires Linked(f) && k <= |f.nodes|
  {
    if k == 0 then 0
    else KidSizes(f, n, k - 1) + if f.up[k - 1] == n then Size(TreeOf(f, k - 1)) else 0
  }

  /** The same summed over the first m nodes as parents. */
  ghost function AllKidSizes(f: Forest, m: nat, k: nat): nat
    requires Linked(f) && k <= |f.nodes|
  {
    if m == 0 then 0 else AllKidSizes(f, m - 1, k) + KidSizes(f, m - 1, k)
  }

  lemma {:induction false} NoKids(f: Forest, n: int, j: nat, k: nat)
    requires Linked(f) && j <= k <= |f.nodes|
    requires forall i | j <= i < k :: f.up[i] != n
    ensures KidSizes(f, n, k) == KidSizes(f, n, j)
  {
    hide Linked, TreeOf, Size;
    if j < k {
      NoKids(f, n, j, k - 1);
    }
  }

  lemma {:induction false} ListedKidSizes(f: Forest, n: int, k: nat, c: int)
    requires Linked(f) && 0 <= n < |f.nodes| && k <= |f.nodes| && Newest(f.up, n, k, c)
    ensures KidsSize(TreesOf(f, n, KidsFrom(f, c))) == KidSizes(f, n, k)
    decreases k
  {
    if c == NIL {
      NoKids(f, n, 0, k);
    } else {
      NoKids(f, n, c + 1, k);
      ListedKidSizes(f, n, c, f.nodes[c].next);
      assert KidsFrom(f, c)[1..] == KidsFrom(f, f.nodes[c].next);
      assert TreesOf(f, n, KidsFrom(f, c))[1..] == TreesOf(f, n, KidsFrom(f, f.nodes[c].next));
    }
  }

  lemma {:induction false} OneMoreKid(f: Forest, m: nat, k: nat)
    requires Linked(f) && k < |f.nodes|
    ensures AllKidSizes(f, m, k + 1) == AllKidSizes(f, m, k) + if 0 <= f.up[k] < m then Size(TreeOf(f, k)) else 0
  {
    hide Linked, TreeOf, Size;
    if m > 0 {
      OneMoreKid(f, m - 1, k);
    }
  }

  lemma {:induction false} EveryKidOnce(f: Forest, k: nat)
    requires Linked(f) && 0 < k <= |f.nodes|
    ensures AllKidSizes(f, |f.nodes|, k) + Size(TreeOf(f, 0)) == SizesBelow(f, k)
  {
    OneMoreKid(f, |f.nodes|, k - 1);
    if k == 1 {
      NoKidsAtAll(f, |f.nodes|);
    } else {
      EveryKidOnce(f, k - 1);
    }
  }

  lemma {:induction false} NoKidsAtAll(f: Forest, m: nat)
    requires Linked(f)
    ensures AllKidSizes(f, m, 0) == 0
  {
    if m > 0 {
      NoKidsAtAll(f, m - 1);
    }
  }

  lemma {:induction false} SizesAddUp(f: Forest, k: nat)
    requires Linked(f) && k <= |f.nodes|
    ensures SizesBelow(f, k) == WeightsBelow(f, k) + AllKidSizes(f, k, |f.nodes|)
  {
    if k > 0 {
      SizesAddUp(f, k - 1);
      ListedKidSizes(f, k - 1, |f.nodes|, f.nodes[k - 1].children);
    }
  }

  /** Every node lies in the root's tree exactly once, so its flat size is the sum over all records. */
  lemma RootSize(f: Forest)
    requires Linked(f) && f.nodes != []
    ensures Size(TreeOf(f, 0)) == WeightsBelow(f, |f.nodes|)
  {
    EveryKidOnce(f, |f.nodes|);
    SizesAddUp(f, |f.nodes|);
  }

  // ----- the two ways the records grow

  /** g is f with property p appended to node n. */
  ghost predicate PropAdded(f: Forest, g: Forest, n: int, p: Prop) {
    && Linked(f) && Linked(g) && 0 <= n < |f.nodes| == |g.nodes| && |g.props| == |f.props| + 1
    && (forall m | 0 <= m < |f.nodes| :: KidsOf(g, m) == KidsOf(f, m))
    && (forall m | 0 <= m < |f.nodes| :: PropsOf(g, m) == if m == n then PropsOf(f, m) + [p] else PropsOf(f, m))
  }

  /** g is f with a new node, holding no properties, as the first child of n; or as the root if f was empty. */
  ghost predicate ChildAdded(f: Forest, g: Forest, n: int) {
    && Linked(f) && Linked(g) && NIL <= n < |f.nodes| && |g.nodes| == |f.nodes| + 1 && |g.props| == |f.props|
    && (forall m | 0 <= m < |f.nodes| :: KidsOf(g, m) == if m == n then [|f.nodes|] + KidsOf(f, m) else KidsOf(f, m))
    && (forall m | 0 <= m < |f.nodes| :: PropsOf(g, m) == PropsOf(f, m))
    && KidsOf(g, |f.nodes|) == [] && PropsOf(g, |f.nodes|) == []
  }

  /** The records after DT__AddProperty. */
  function WithProp(f: Forest, n: int, name: seq<Byte>, value: seq<Byte>): Forest
    requires 0 <= n < |f.nodes|
    requires f.nodes[n].properties != NIL ==> 0 <= f.nodes[n].lastProp < |f.props|
  {
    var k, q := |f.props|, f.nodes[n].lastProp;
    var first := f.nodes[n].properties == NIL;
    f.(props := (if first then f.props else f.props[q := f.props[q].(next := k)]) + [Property(name, value, NIL)],
       nodes := f.nodes[n := f.nodes[n].(properties := if first then k else f.nodes[n].properties, lastProp := k)],
       owner := f.owner + [n])
  }

  /** The records after DT__AddChild, before the name property. */
  function WithChild(f: Forest, n: int): Forest
    requires NIL <= n < |f.nodes|
  {
    if n == NIL then f.(nodes := f.nodes + [Node(NIL, NIL, NIL, NIL)], up := f.up + [NIL])
    else
      f.(nodes := f.nodes[n := f.nodes[n].(children := |f.nodes|)] + [Node(NIL, NIL, NIL, f.nodes[n].children)],
         up := f.up + [n])
  }

  lemma WithPropLinked(f: Forest, n: int, name: seq<Byte>, value: seq<Byte>)
    requires Linked(f) && 0 <= n < |f.nodes| && |value| < LIMIT
    ensures Linked(WithProp(f, n, name, value))
  {
    var g := WithProp(f, n, name, value);
    assert NodeLinks(g) by {
      hide PropLinks;
    }
    WithPropNexts(f, n, name, value);
    WithPropEnds(f, n, name, value);
  }

  lemma WithPropNexts(f: Forest, n: int, name: seq<Byte>, value: seq<Byte>)
    requires PropLinks(f) && 0 <= n < |f.nodes| && |value| < LIMIT
    ensures var g := WithProp(f, n, name, value);
            |g.owner| == |g.props| &&
            forall p | 0 <= p < |g.props| ::
              && 0 <= g.owner[p] < |g.nodes|
              && |g.props[p].value| < LIMIT
              && var q := g.props[p].next;
                 if q == NIL then p == g.nodes[g.owner[p]].lastProp else p < q < |g.props| && g.owner[q] == g.owner[p]
  {
  }

  lemma WithPropEnds(f: Forest, n: int, name: seq<Byte>, value: seq<Byte>)
    requires PropLinks(f) && 0 <= n < |f.nodes|
    ensures var g := WithProp(f, n, name, value);
            |g.owner| == |g.props| &&
            forall m | 0 <= m < |g.nodes| ::
              var p, q := g.nodes[m].properties, g.nodes[m].lastProp;
              if p == NIL then m !in g.owner
              else 0 <= p < |g.props| && g.owner[p] == m && 0 <= q < |g.props| && g.owner[q] == m && g.props[q].next == NIL
  {
    assert forall m | 0 <= m < |f.nodes| && m !in f.owner && m != n :: m !in f.owner + [n];
  }

  lemma {:induction false} OtherProps(f: Forest, g: Forest, n: int, p: int)
    requires Linked(f) && 0 <= n < |f.nodes| && NIL <= p < |f.props| && PropLinks(g) && |g.props| > |f.props|
    requires forall i | 0 <= i < |f.props| && f.owner[i] != n :: g.props[i] == f.props[i]
    requires p != NIL ==> f.owner[p] != n
    ensures PropsFrom(g, p) == PropsFrom(f, p)
    decreases if p == NIL then 0 else |f.props| - p
  {
    if p != NIL {
      OtherProps(f, g, n, f.props[p].next);
    }
  }

  /** g's properties are f's with the new one linked behind the last of n. */
  ghost predicate Extends(f: Forest, g: Forest, n: int, last: Property) {
    && 0 <= n < |f.nodes| && |g.props| == |f.props| + 1 && g.props[|f.props|] == last && last.next == NIL
    && (forall i | 0 <= i < |f.props| :: g.props[i].name == f.props[i].name && g.props[i].value == f.props[i].value)
    && (forall i | 0 <= i < |f.props| :: g.props[i].next == if i == f.nodes[n].lastProp then |f.props| else f.props[i].next)
  }

  lemma {:induction false} AppendedProps(f: Forest, g: Forest, n: int, last: Property, p: int)
    requires PropLinks(f) && PropLinks(g) && Extends(f, g, n, last) && 0 <= p < |f.props| && f.owner[p] == n
    ensures PropsFrom(g, p) == PropsFrom(f, p) + [Prop(last.name, last.value)]
    decreases |f.props| - p
  {
    var q := f.props[p].next;
    NextProp(f, g, n, last, p);
    OneProp(g, |f.props|);
    hide PropLinks, Extends;
    if q == NIL {
      OneProp(f, p);
    } else {
      AppendedProps(f, g, n, last, q);
    }
  }

  lemma NextProp(f: Forest, g: Forest, n: int, last: Property, p: int)
    requires PropLinks(f) && Extends(f, g, n, last) && 0 <= p < |f.props| && f.owner[p] == n
    ensures var q := f.props[p].next;
            && (q == NIL ==> g.props[p].next == |f.props|)
            && (q != NIL ==> g.props[p].next == q && p < q < |f.props| == |f.owner| && f.owner[q] == n)
    ensures g.props[p].name == f.props[p].name && g.props[p].value == f.props[p].value
    ensures g.props[|f.props|] == last && last.next == NIL && |g.props| == |f.props| + 1
  {
  }

  lemma OneProp(f: Forest, p: int)
    requires PropLinks(f) && 0 <= p < |f.props| && f.props[p].next == NIL
    ensures PropsFrom(f, p) == [Prop(f.props[p].name, f.props[p].value)]
  {
  }

  lemma {:induction false} SameKids(f: Forest, g: Forest, c: int)
    requires NodeLinks(f) && NodeLinks(g) && NIL <= c < |f.nodes| <= |g.nodes|
    requires forall i | 0 <= i < |f.nodes| :: g.nodes[i].next == f.nodes[i].next
    ensures KidsFrom(g, c) == KidsFrom(f, c)
    decreases c + 1
  {
    if c != NIL {
      SameKids(f, g, f.nodes[c].next);
    }
  }

  lemma WithPropKids(f: Forest, n: int, name: seq<Byte>, value: seq<Byte>, m: int)
    requires Linked(f) && 0 <= n < |f.nodes| && Linked(WithProp(f, n, name, value)) && 0 <= m < |f.nodes|
    ensures KidsOf(WithProp(f, n, name, value), m) == KidsOf(f, m)
  {
    var g := WithProp(f, n, name, value);
    hide PropLinks;
    SameKids(f, g, f.nodes[m].children);
  }

  lemma WithPropExtends(f: Forest, n: int, name: seq<Byte>, value: seq<Byte>)
    requires 0 <= n < |f.nodes| && f.nodes[n].properties != NIL && 0 <= f.nodes[n].lastProp < |f.props|
    ensures Extends(f, WithProp(f, n, name, value), n, Property(name, value, NIL))
  {
  }

  lemma WithPropProps(f: Forest, n: int, name: seq<Byte>, value: seq<Byte>, m: int)
    requires Linked(f) && 0 <= n < |f.nodes| && Linked(WithProp(f, n, name, value)) && 0 <= m < |f.nodes|
    ensures PropsOf(WithProp(f, n, name, value), m)
         == if m == n then PropsOf(f, m) + [Prop(name, value)] else PropsOf(f, m)
  {
    hide NodeLinks;
    var g := WithProp(f, n, name, value);
    if m != n {
      OtherProps(f, g, n, f.nodes[m].properties);
    } else if f.nodes[n].properties != NIL {
      WithPropExtends(f, n, name, value);
      AppendedProps(f, g, n, Property(name, value, NIL), f.nodes[n].properties);
    } else {
      OneProp(g, |f.props|);
    }
  }

  /** DT__AddProperty appends to one node's properties and leaves everything else as it was. */
  lemma WithPropExact(f: Forest, n: int, name: seq<Byte>, value: seq<Byte>)
    requires Linked(f) && 0 <= n < |f.nodes| && |value| < LIMIT
    ensures PropAdded(f, WithProp(f, n, name, value), n, Prop(name, value))
  {
    var g := WithProp(f, n, name, value);
    WithPropLinked(f, n, name, value);
    hide NodeLinks, PropLinks, PropsOf, KidsOf;
    forall m | 0 <= m < |f.nodes|
      ensures KidsOf(g, m) == KidsOf(f, m)
      ensures PropsOf(g, m) == if m == n then PropsOf(f, m) + [Prop(name, value)] else PropsOf(f, m)
    {
      WithPropKids(f, n, name, value, m);
      WithPropProps(f, n, name, value, m);
    }
  }

  lemma WithChildLinked(f: Forest, n: int)
    requires Linked(f) && NIL <= n < |f.nodes| && (n == NIL <==> f.nodes == [])
    ensures Linked(WithChild(f, n))
  {
    WithChildNodes(f, n);
    WithChildProps(f, n);
  }

  lemma WithChildNodes(f: Forest, n: int)
    requires NodeLinks(f) && NIL <= n < |f.nodes| && (n == NIL <==> f.nodes == [])
    ensures NodeLinks(WithChild(f, n))
  {
    var g := WithChild(f, n);
    forall m | 0 <= m < |g.nodes| ensures Newest(g.up, m, |g.up|, g.nodes[m].children) {
      if m < |f.nodes| {
        assert Newest(f.up, m, |f.up|, f.nodes[m].children);
      }
    }
    forall c | 0 <= c < |g.nodes| ensures Newest(g.up, g.up[c], c, g.nodes[c].next) {
      if c < |f.nodes| {
        assert Newest(f.up, f.up[c], c, f.nodes[c].next);
      }
    }
  }

  lemma WithChildProps(f: Forest, n: int)
    requires PropLinks(f) && NIL <= n < |f.nodes| && (n == NIL <==> f.nodes == [])
    ensures PropLinks(WithChild(f, n))
  {
  }

  lemma {:induction false} SameProps(f: Forest, g: Forest, p: int)
    requires PropLinks(f) && PropLinks(g) && g.props == f.props && NIL <= p < |f.props|
    ensures PropsFrom(g, p) == PropsFrom(f, p)
    decreases if p == NIL then 0 else |f.props| - p
  {
    if p != NIL {
      SameProps(f, g, f.props[p].next);
    }
  }

  /** DT__AddChild puts one new, empty node in front of its parent's children. */
  lemma WithChildExact(f: Forest, n: int)
    requires Linked(f) && NIL <= n < |f.nodes| && (n == NIL <==> f.nodes == [])
    ensures ChildAdded(f, WithChild(f, n), n)
  {
    var g := WithChild(f, n);
    WithChildLinked(f, n);
    forall m | 0 <= m < |f.nodes|
      ensures KidsOf(g, m) == if m == n then [|f.nodes|] + KidsOf(f, m) else KidsOf(f, m)
      ensures PropsOf(g, m) == PropsOf(f, m)
    {
      SameKids(f, g, f.nodes[m].children);
      SameProps(f, g, f.nodes[m].properties);
    }
  }

  lemma {:induction false} WeightsAfterProp(f: Forest, g: Forest, n: int, p: Prop, k: nat)
    requires PropAdded(f, g, n, p) && k <= |f.nodes|
    ensures WeightsBelow(g, k) == WeightsBelow(f, k) + if n < k then PropSize(p) else 0
  {
    hide Linked, PropsOf;
    if k > 0 {
      WeightsAfterProp(f, g, n, p, k - 1);
      PropsSizeAppend(PropsOf(f, n), p);
    }
  }

  lemma {:induction false} PropsSizeAppend(ps: seq<Prop>, p: Prop)
    ensures PropsSize(ps + [p]) == PropsSize(ps) + PropSize(p)
  {
    if ps == [] {
      assert ps + [p] == [p];
    } else {
      assert (ps + [p])[1..] == ps[1..] + [p];
      PropsSizeAppend(ps[1..], p);
    }
  }

  lemma {:induction false} WeightsAfterChild(f: Forest, g: Forest, n: int, k: nat)
    requires ChildAdded(f, g, n) && k <= |f.nodes|
    ensures WeightsBelow(g, k) == WeightsBelow(f, k)
    ensures Weight(g, |f.nodes|) == 8
  {
    hide Linked, PropsOf;
    if k > 0 {
      WeightsAfterChild(f, g, n, k - 1);
    }
  }

  ghost function BytesBelow(props: seq<Property>, k: nat): nat
    requires k <= |props|
  {
    if k == 0 then 0 else BytesBelow(props, k - 1) + (|props[k - 1].value| + 3) / 4 * 4
  }

  /** What DT__FlattenDeviceTree adds up from the counters, before truncation to 32 bits. */
  ghost function CountedSize(f: Forest): nat {
    8 * |f.nodes| + 36 * |f.props| + BytesBelow(f.props, |f.props|)
  }

  ghost predicate Balanced(f: Forest) {
    Linked(f) && WeightsBelow(f, |f.nodes|) == CountedSize(f)
  }

  lemma {:induction false} SameBytes(a: seq<Property>, b: seq<Property>, k: nat)
    requires k <= |a| && k <= |b| && forall i | 0 <= i < k :: a[i].value == b[i].value
    ensures BytesBelow(a, k) == BytesBelow(b, k)
  {
    if k > 0 {
      SameBytes(a, b, k - 1);
    }
  }

  lemma PropBalance(f: Forest, g: Forest, n: int, p: Prop)
    requires PropAdded(f, g, n, p) && Balanced(f)
    requires BytesBelow(g.props, |g.props|) == BytesBelow(f.props, |f.props|) + RoundToLong(|p.value|)
    ensures Balanced(g)
  {
    hide Linked, PropsOf, KidsOf, BytesBelow, WeightsBelow;
    WeightsAfterProp(f, g, n, p, |f.nodes|);
  }

  lemma OneMoreValue(a: seq<Property>, b: seq<Property>)
    requires |b| == |a| + 1 && forall i | 0 <= i < |a| :: a[i].value == b[i].value
    ensures BytesBelow(b, |b|) == BytesBelow(a, |a|) + RoundToLong(|b[|a|].value|)
  {
    SameBytes(a, b, |a|);
  }

  lemma PropKeepsBalance(f: Forest, n: int, name: seq<Byte>, value: seq<Byte>)
    requires Balanced(f) && 0 <= n < |f.nodes| && |value| < LIMIT
    ensures Balanced(WithProp(f, n, name, value))
  {
    var g := WithProp(f, n, name, value);
    WithPropExact(f, n, name, value);
    hide Balanced, PropsOf, KidsOf, NodeLinks, PropLinks;
    assert |g.props| == |f.props| + 1 && g.props[|f.props|].value == value;
    OneMoreValue(f.props, g.props);
    PropBalance(f, g, n, Prop(name, value));
  }

  lemma ChildBalance(f: Forest, g: Forest, n: int)
    requires ChildAdded(f, g, n) && Balanced(f) && g.props == f.props
    ensures Balanced(g)
  {
    hide Linked, PropsOf, KidsOf, BytesBelow;
    WeightsAfterChild(f, g, n, |f.nodes|);
  }

  lemma ChildKeepsBalance(f: Forest, n: int)
    requires Balanced(f) && NIL <= n < |f.nodes| && (n == NIL <==> f.nodes == [])
    ensures Balanced(WithChild(f, n))
  {
    hide PropsOf, KidsOf, NodeLinks, PropLinks;
    WithChildExact(f, n);
    ChildBalance(f, WithChild(f, n), n);
  }

  // ----- when the root's tree can be written

  /** Every property name fits its 32-byte field. */
  ghost predicate NamesFit(f: Forest) {
    forall p | 0 <= p < |f.props| :: ValidName(f.props[p].name)
  }

  lemma {:induction false} PropsFit(f: Forest, p: int)
    requires PropLinks(f) && NamesFit(f) && NIL <= p < |f.props|
    ensures forall q | q in PropsFrom(f, p) :: ValidProp(q)
    decreases if p == NIL then 0 else |f.props| - p
  {
    if p != NIL {
      PropsFit(f, f.props[p].next);
    }
  }

  lemma {:induction false} TreeFits(f: Forest, n: int)
    requires Linked(f) && NamesFit(f) && 0 <= n < |f.nodes| && Size(TreeOf(f, n)) < LIMIT
    ensures ValidTree(TreeOf(f, n))
    decreases |f.nodes| - n, 0
  {
    PropsFit(f, f.nodes[n].properties);
    TreesFit(f, n, KidsOf(f, n));
    ManyNeedRoom(PropsOf(f, n), TreesOf(f, n, KidsOf(f, n)));
  }

  lemma {:induction false} TreesFit(f: Forest, n: int, ks: seq<int>)
    requires Linked(f) && NamesFit(f) && 0 <= n < |f.nodes| && forall k | k in ks :: n < k < |f.nodes|
    requires KidsSize(TreesOf(f, n, ks)) < LIMIT
    ensures forall t | t in TreesOf(f, n, ks) :: ValidTree(t)
    decreases |f.nodes| - n - 1, |ks| + 1
  {
    hide Linked, TreeOf, Size;
    if ks != [] {
      assert ks[0] in ks && forall k | k in ks[1..] :: k in ks;
      var ts := TreesOf(f, n, ks);
      assert ts[0] == TreeOf(f, ks[0]) && ts[1..] == TreesOf(f, n, ks[1..]);
      TreeFits(f, ks[0]);
      TreesFit(f, n, ks[1..]);
      assert forall t | t in ts :: t == ts[0] || t in ts[1..];
    }
  }
}
