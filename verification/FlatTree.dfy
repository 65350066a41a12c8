/** The flattened device tree: the byte format device_tree.c writes, and a reader for it. */
module FlatTree {

  import opened Bytes

  datatype Prop = Prop(name: seq<Byte>, value: seq<Byte>)

  datatype Tree = Tree(props: seq<Prop>, kids: seq<Tree>)

  const NAME_LENGTH := 32 // kPropNameLength
  const LIMIT := 0x1_0000_0000

  function Zeros(n: nat): (z: seq<Byte>)
    ensures |z| == n && forall i | 0 <= i < n :: z[i] == 0
  {
    seq(n, _ => 0)
  }

  /** RoundToLong */
  function RoundToLong(n: nat): nat {
    (n + 3) / 4 * 4
  }

  /** A 32-bit word in memory, low byte first. */
  function Word32(n: nat): (w: seq<Byte>)
    requires n < LIMIT
    ensures |w| == 4
  {
    [n % 256, n / 256 % 256, n / 65536 % 256, n / 16777216]
  }

  function ReadWord32(b: seq<Byte>): nat
    requires |b| >= 4
  {
    b[0] as int + 256 * b[1] as int + 65536 * b[2] as int + 16777216 * b[3] as int
  }

  lemma Word32Exact(n: nat, rest: seq<Byte>)
    requires n < LIMIT
    ensures ReadWord32(Word32(n) + rest) == n
  {
    var w := Word32(n) + rest;
    assert w[0] == n % 256 && w[1] == n / 256 % 256 && w[2] == n / 65536 % 256 && w[3] == n / 16777216;
    assert n == n % 256 + 256 * (n / 256);
    assert n / 256 == n / 256 % 256 + 256 * (n / 65536);
    assert n / 65536 == n / 65536 % 256 + 256 * (n / 16777216);
  }

  // ----- writing

  predicate ValidName(name: seq<Byte>) {
    |name| < NAME_LENGTH && forall i | 0 <= i < |name| :: name[i] != 0
  }

  predicate ValidProp(p: Prop) {
    ValidName(p.name) && |p.value| < LIMIT
  }

  ghost predicate ValidTree(t: Tree) {
    && |t.props| < LIMIT && |t.kids| < LIMIT
    && (forall p | p in t.props :: ValidProp(p))
    && (forall k | k in t.kids :: ValidTree(k))
  }

  function FlatProp(p: Prop): seq<Byte>
    requires ValidProp(p)
  {
    p.name + Zeros(NAME_LENGTH - |p.name|) + Word32(|p.value|) + p.value + Zeros(RoundToLong(|p.value|) - |p.value|)
  }

  function FlatProps(ps: seq<Prop>): seq<Byte>
    requires forall p | p in ps :: ValidProp(p)
  {
    if ps == [] then [] else FlatProp(ps[0]) + FlatProps(ps[1..])
  }

  ghost function Flat(t: Tree): seq<Byte>
    requires ValidTree(t)
    decreases t, 1
  {
    Word32(|t.props|) + Word32(|t.kids|) + FlatProps(t.props) + FlatKids(t.kids)
  }

  ghost function FlatKids(ts: seq<Tree>): seq<Byte>
    requires forall k | k in ts :: ValidTree(k)
    decreases ts, 0
  {
    if ts == [] then [] else Flat(ts[0]) + FlatKids(ts[1..])
  }

  // ----- reading

  /** The bytes of a name field up to its terminator. */
  function ReadName(b: seq<Byte>): seq<Byte> {
    if b == [] || b[0] == 0 then [] else [b[0]] + ReadName(b[1..])
  }

  function ReadProp(b: seq<Byte>): (r: Option<(Prop, seq<Byte>)>)
    ensures r.Some? ==> |r.value.1| < |b|
  {
    if |b| < NAME_LENGTH + 4 then None
    else
      var n, v := ReadWord32(b[NAME_LENGTH..]), b[NAME_LENGTH + 4..];
      if |v| < RoundToLong(n) then None
      else Some((Prop(ReadName(b[..NAME_LENGTH]), v[..n]), v[RoundToLong(n)..]))
  }

  function ReadProps(b: seq<Byte>, n: nat): (r: Option<(seq<Prop>, seq<Byte>)>)
    ensures r.Some? ==> |r.value.1| <= |b|
    decreases n
  {
    if n == 0 then Some(([], b))
    else
      match ReadProp(b)
      case None => None
      case Some((p, rest)) =>
        match ReadProps(rest, n - 1)
        case None => None
        case Some((ps, rest)) => Some(([p] + ps, rest))
  }

  function ReadTree(b: seq<Byte>): (r: Option<(Tree, seq<Byte>)>)
    ensures r.Some? ==> |r.value.1| < |b|
    decreases |b|, 0
  {
    if |b| < 8 then None
    else
      match ReadProps(b[8..], ReadWord32(b))
      case None => None
      case Some((ps, rest)) =>
        match ReadKids(rest, ReadWord32(b[4..]))
        case None => None
        case Some((ks, rest)) => Some((Tree(ps, ks), rest))
  }

  function ReadKids(b: seq<Byte>, n: nat): (r: Option<(seq<Tree>, seq<Byte>)>)
    ensures r.Some? ==> |r.value.1| <= |b|
    decreases |b|, n + 1
  {
    if n == 0 then Some(([], b))
    else
      match ReadTree(b)
      case None => None
      case Some((t, rest)) =>
        match ReadKids(rest, n - 1)
        case None => None
        case Some((ts, rest)) => Some(([t] + ts, rest))
  }

  // ----- the reader undoes the writer

  lemma {:induction false} ReadNameExact(name: seq<Byte>, z: seq<Byte>)
    requires forall i | 0 <= i < |name| :: name[i] != 0
    requires z == [] || z[0] == 0
    ensures ReadName(name + z) == name
  {
    if name == [] {
      assert name + z == z;
    } else {
      assert (name + z)[1..] == name[1..] + z;
      ReadNameExact(name[1..], z);
    }
  }

  lemma ReadPropExact(p: Prop, rest: seq<Byte>)
    requires ValidProp(p)
    ensures ReadProp(FlatProp(p) + rest) == Some((p, rest))
  {
    var b := FlatProp(p) + rest;
    var n, pad := |p.value|, Zeros(RoundToLong(|p.value|) - |p.value|);
    assert b[..NAME_LENGTH] == p.name + Zeros(NAME_LENGTH - |p.name|);
    ReadNameExact(p.name, Zeros(NAME_LENGTH - |p.name|));
    assert b[NAME_LENGTH..] == Word32(n) + (p.value + pad + rest);
    Word32Exact(n, p.value + pad + rest);
    assert b[NAME_LENGTH + 4..] == p.value + pad + rest;
    assert (p.value + pad + rest)[..n] == p.value;
    assert (p.value + pad + rest)[RoundToLong(n)..] == rest;
  }

  lemma {:induction false} ReadPropsExact(ps: seq<Prop>, rest: seq<Byte>)
    requires forall p | p in ps :: ValidProp(p)
    ensures ReadProps(FlatProps(ps) + rest, |ps|) == Some((ps, rest))
  {
    hide ReadProp, FlatProp;
    if ps == [] {
      assert [] + rest == rest;
    } else {
      FlatPropsSplit(ps, rest);
      ReadPropExact(ps[0], FlatProps(ps[1..]) + rest);
      ReadPropsExact(ps[1..], rest);
      assert [ps[0]] + ps[1..] == ps;
    }
  }

  lemma FlatPropsSplit(ps: seq<Prop>, rest: seq<Byte>)
    requires ps != [] && forall p | p in ps :: ValidProp(p)
    ensures FlatProps(ps) + rest == FlatProp(ps[0]) + (FlatProps(ps[1..]) + rest)
  {
    hide FlatProp;
  }

  /** Every flattened tree reads back as itself, whatever follows it. */
  lemma {:induction false} ReadTreeExact(t: Tree, rest: seq<Byte>)
    requires ValidTree(t)
    ensures ReadTree(Flat(t) + rest) == Some((t, rest))
    decreases t, 1
  {
    var b := Flat(t) + rest;
    var P, K := FlatProps(t.props), FlatKids(t.kids);
    assert b == Word32(|t.props|) + (Word32(|t.kids|) + (P + (K + rest)));
    Word32Exact(|t.props|, Word32(|t.kids|) + (P + (K + rest)));
    assert b[4..] == Word32(|t.kids|) + (P + (K + rest));
    Word32Exact(|t.kids|, P + (K + rest));
    assert b[8..] == P + (K + rest);
    ReadPropsExact(t.props, K + rest);
    ReadKidsExact(t.kids, rest);
  }

  lemma {:induction false} ReadKidsExact(ts: seq<Tree>, rest: seq<Byte>)
    requires forall k | k in ts :: ValidTree(k)
    ensures ReadKids(FlatKids(ts) + rest, |ts|) == Some((ts, rest))
    decreases ts, 0
  {
    hide Flat, ReadTree, ValidTree;
    if ts == [] {
      assert [] + rest == rest;
    } else {
      assert FlatKids(ts) + rest == Flat(ts[0]) + (FlatKids(ts[1..]) + rest);
      ReadTreeExact(ts[0], FlatKids(ts[1..]) + rest);
      ReadKidsExact(ts[1..], rest);
      assert [ts[0]] + ts[1..] == ts;
    }
  }

  // ----- sizes

  function PropSize(p: Prop): nat {
    NAME_LENGTH + 4 + RoundToLong(|p.value|)
  }

  function PropsSize(ps: seq<Prop>): nat {
    if ps == [] then 0 else PropSize(ps[0]) + PropsSize(ps[1..])
  }

  function Size(t: Tree): nat
    decreases t, 1
  {
    8 + PropsSize(t.props) + KidsSize(t.kids)
  }

  function KidsSize(ts: seq<Tree>): nat
    decreases ts, 0
  {
    if ts == [] then 0 else Size(ts[0]) + KidsSize(ts[1..])
  }

  lemma {:induction false} FlatPropsSize(ps: seq<Prop>)
    requires forall p | p in ps :: ValidProp(p)
    ensures |FlatProps(ps)| == PropsSize(ps)
  {
    if ps != [] {
      FlatPropsSize(ps[1..]);
    }
  }

  lemma {:induction false} FlatSize(t: Tree)
    requires ValidTree(t)
    ensures |Flat(t)| == Size(t)
    decreases t, 1
  {
    FlatPropsSize(t.props);
    FlatKidsSize(t.kids);
  }

  lemma {:induction false} FlatKidsSize(ts: seq<Tree>)
    requires forall k | k in ts :: ValidTree(k)
    ensures |FlatKids(ts)| == KidsSize(ts)
    decreases ts, 0
  {
    if ts != [] {
      FlatSize(ts[0]);
      FlatKidsSize(ts[1..]);
    }
  }

  lemma {:induction false} FlatPropsAppend(ps: seq<Prop>, p: Prop)
    requires ValidProp(p) && forall q | q in ps :: ValidProp(q)
    ensures FlatProps(ps + [p]) == FlatProps(ps) + FlatProp(p)
  {
    hide FlatProp;
    if ps == [] {
      assert ps + [p] == [p] && FlatProps([p]) == FlatProp(p) + FlatProps([]);
    } else {
      assert (ps + [p])[1..] == ps[1..] + [p];
      FlatPropsAppend(ps[1..], p);
    }
  }

  lemma {:induction false} FlatKidsAppend(ts: seq<Tree>, t: Tree)
    requires ValidTree(t) && forall k | k in ts :: ValidTree(k)
    ensures FlatKids(ts + [t]) == FlatKids(ts) + Flat(t)
  {
    hide ValidTree, Flat;
    if ts == [] {
      assert ts + [t] == [t] && FlatKids([t]) == Flat(t) + FlatKids([]);
    } else {
      assert (ts + [t])[1..] == ts[1..] + [t];
      FlatKidsAppend(ts[1..], t);
    }
  }

  lemma {:induction false} KidsSizeSplit(a: seq<Tree>, b: seq<Tree>)
    ensures KidsSize(a + b) == KidsSize(a) + KidsSize(b)
  {
    if a == [] {
      assert a + b == b;
    } else {
      assert (a + b)[1..] == a[1..] + b;
      KidsSizeSplit(a[1..], b);
    }
  }

  lemma {:induction false} PropsSizeSplit(a: seq<Prop>, b: seq<Prop>)
    ensures PropsSize(a + b) == PropsSize(a) + PropsSize(b)
  {
    if a == [] {
      assert a + b == b;
    } else {
      assert (a + b)[1..] == a[1..] + b;
      PropsSizeSplit(a[1..], b);
    }
  }

  lemma {:induction false} ManyNeedRoom(ps: seq<Prop>, ts: seq<Tree>)
    ensures |ps| <= PropsSize(ps) && |ts| <= KidsSize(ts)
    decreases |ps| + |ts|
  {
    if ps != [] {
      ManyNeedRoom(ps[1..], ts);
    } else if ts != [] {
      ManyNeedRoom(ps, ts[1..]);
    }
  }

  // ----- bytes written into a buffer

  function Put(s: seq<Byte>, at: nat, b: seq<Byte>): (r: seq<Byte>)
    requires at + |b| <= |s|
    ensures |r| == |s|
  {
    s[..at] + b + s[at + |b|..]
  }

  /** r is s with the bytes b written at the given offset. */
  predicate Wrote(s: seq<Byte>, r: seq<Byte>, at: nat, b: seq<Byte>) {
    at + |b| <= |s| && r == Put(s, at, b)
  }

  predicate ZeroIn(s: seq<Byte>, lo: nat, hi: nat)
    requires hi <= |s|
  {
    forall i | lo <= i < hi :: s[i] == 0
  }

  lemma PutPut(s: seq<Byte>, at: nat, a: seq<Byte>, b: seq<Byte>)
    requires at + |a| + |b| <= |s|
    ensures Put(Put(s, at, a), at + |a|, b) == Put(s, at, a + b)
  {
  }

  lemma PutKeepsZero(s: seq<Byte>, at: nat, b: seq<Byte>, hi: nat)
    requires at + |b| <= hi <= |s| && ZeroIn(s, at, hi)
    ensures ZeroIn(Put(s, at, b), at + |b|, hi)
  {
  }

  lemma PutPadded(s: seq<Byte>, at: nat, a: seq<Byte>, n: nat)
    requires at + |a| + n <= |s| && ZeroIn(s, at, at + |a| + n)
    ensures Put(s, at, a + Zeros(n)) == Put(s, at, a)
  {
  }

  lemma NameField(name: seq<Byte>)
    requires |name| < NAME_LENGTH
    ensures name + [0] + Zeros(NAME_LENGTH - 1 - |name|) == name + Zeros(NAME_LENGTH - |name|)
  {
  }

  lemma FlatPropParts(p: Prop)
    requires ValidProp(p)
    ensures |FlatProp(p)| == PropSize(p)
    ensures FlatProp(p) == p.name + Zeros(NAME_LENGTH - |p.name|) + Word32(|p.value|) + p.value
                           + Zeros(RoundToLong(|p.value|) - |p.value|)
  {
  }

  /** The three stores of one property into a zeroed buffer amount to its flat form. */
  lemma PropStores(s: seq<Byte>, at: nat, p: Prop)
    requires ValidProp(p) && at + PropSize(p) <= |s| && ZeroIn(s, at, at + PropSize(p))
    ensures |FlatProp(p)| == PropSize(p)
    ensures Put(Put(Put(s, at, p.name + [0]), at + NAME_LENGTH, Word32(|p.value|)), at + NAME_LENGTH + 4, p.value)
         == Put(s, at, FlatProp(p))
  {
    var n, name := |p.value|, p.name + Zeros(NAME_LENGTH - |p.name|);
    NameField(p.name);
    FlatPropParts(p);
    hide Put, FlatProp, Word32;
    PutPadded(s, at, p.name + [0], NAME_LENGTH - 1 - |p.name|);
    PutPut(s, at, name, Word32(n));
    PutPut(s, at, name + Word32(n), p.value);
    PutPadded(s, at, name + Word32(n) + p.value, RoundToLong(n) - n);
  }

  /** A node's header is stored around its contents: counts before, then in between, properties and children. */
  lemma NodeStores(s: seq<Byte>, at: nat, np: seq<Byte>, nk: seq<Byte>, ps: seq<Byte>, ks: seq<Byte>)
    requires |np| == |nk| == 4 && at + 8 + |ps| + |ks| <= |s|
    ensures Put(Put(Put(Put(s, at + 8, ps), at, np), at + 8 + |ps|, ks), at + 4, nk) == Put(s, at, np + nk + ps + ks)
  {
    var a := Put(Put(s, at + 8, ps), at, np);
    assert a == s[..at] + np + s[at + 4..at + 8] + ps + s[at + 8 + |ps|..];
    var b := Put(a, at + 8 + |ps|, ks);
    assert b == s[..at] + np + s[at + 4..at + 8] + ps + ks + s[at + 8 + |ps| + |ks|..];
  }
}
