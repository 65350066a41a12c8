/** Where each byte of a flattened device tree lies. */
module FlatLayout {
  import opened Bytes
  import opened FlatTree

  /** A number in four bytes, the low one first. */
  predicate WordAt(b: seq<Byte>, o: nat, n: nat) {
    && o + 4 <= |b|
    && b[o] == n % 256 && b[o + 1] == n / 256 % 256 && b[o + 2] == n / 65536 % 256 && b[o + 3] == n / 16777216 % 256
  }

  function PropBytes(p: Prop): nat {
    36 + (|p.value| + 3) / 4 * 4
  }

  /** The name in 32 bytes and the value up to the next multiple of 4, both with zeros behind, and the length between them. */
  predicate PropAt(b: seq<Byte>, q: nat, p: Prop) {
    && |p.name| <= 31 && q + PropBytes(p) <= |b|
    && (forall i | 0 <= i < 32 :: b[q + i] == if i < |p.name| then p.name[i] else 0)
    && WordAt(b, q + 32, |p.value|)
    && (forall i | 0 <= i < PropBytes(p) - 36 :: b[q + 36 + i] == if i < |p.value| then p.value[i] else 0)
  }

  function PropsBytes(ps: seq<Prop>): nat {
    if ps == [] then 0 else PropBytes(ps[0]) + PropsBytes(ps[1..])
  }

  predicate PropsAt(b: seq<Byte>, q: nat, ps: seq<Prop>)
    decreases |ps|
  {
    ps == [] || (PropAt(b, q, ps[0]) && PropsAt(b, q + PropBytes(ps[0]), ps[1..]))
  }

  function NodeBytes(t: Tree): nat
    decreases t, 1
  {
    8 + PropsBytes(t.props) + KidsBytes(t.kids)
  }

  function KidsBytes(ts: seq<Tree>): nat
    decreases ts, 0
  {
    if ts == [] then 0 else NodeBytes(ts[0]) + KidsBytes(ts[1..])
  }

  /** The two counts, the properties, and the children. */
  predicate NodeAt(b: seq<Byte>, o: nat, t: Tree)
    decreases t, 1
  {
    && WordAt(b, o, |t.props|) && WordAt(b, o + 4, |t.kids|)
    && PropsAt(b, o + 8, t.props) && KidsAt(b, o + 8 + PropsBytes(t.props), t.kids)
  }

  predicate KidsAt(b: seq<Byte>, o: nat, ts: seq<Tree>)
    decreases ts, 0
  {
    ts == [] || (NodeAt(b, o, ts[0]) && KidsAt(b, o + NodeBytes(ts[0]), ts[1..]))
  }

  lemma WordLies(b: seq<Byte>, o: nat, n: nat)
    requires n < LIMIT && LiesAt(b, o, Word32(n))
    ensures WordAt(b, o, n)
  {
    var w := b[o..o + 4];
    assert w[0] == b[o] && w[1] == b[o + 1] && w[2] == b[o + 2] && w[3] == b[o + 3];
  }

  lemma PaddedLies(b: seq<Byte>, q: nat, t: seq<Byte>, n: nat)
    requires LiesAt(b, q, t + Zeros(n))
    ensures forall i | 0 <= i < |t| + n :: b[q + i] == if i < |t| then t[i] else 0
  {
    var z := t + Zeros(n);
    forall i | 0 <= i < |z|
      ensures b[q + i] == z[i]
    {
      assert b[q..q + |z|][i] == b[q + i];
    }
  }

  lemma PropLies(b: seq<Byte>, q: nat, p: Prop)
    requires ValidProp(p) && LiesAt(b, q, FlatProp(p))
    ensures PropAt(b, q, p) && |FlatProp(p)| == PropBytes(p)
  {
    var n, name, w := |p.value|, p.name + Zeros(32 - |p.name|), Word32(|p.value|);
    var value := p.value + Zeros(RoundToLong(n) - n);
    assert FlatProp(p) == name + (w + value);
    hide FlatProp;
    LiesParts(b, q, name, w + value);
    LiesParts(b, q + 32, w, value);
    WordLies(b, q + 32, n);
    PaddedLies(b, q, p.name, 32 - |p.name|);
    PaddedLies(b, q + 36, p.value, RoundToLong(n) - n);
  }

  lemma {:induction false} PropsLie(b: seq<Byte>, q: nat, ps: seq<Prop>)
    requires (forall p | p in ps :: ValidProp(p)) && LiesAt(b, q, FlatProps(ps))
    ensures PropsAt(b, q, ps) && |FlatProps(ps)| == PropsBytes(ps)
    decreases |ps|
  {
    hide PropAt, PropBytes, ValidProp, LiesAt, FlatProp;
    if ps != [] {
      LiesParts(b, q, FlatProp(ps[0]), FlatProps(ps[1..]));
      PropLies(b, q, ps[0]);
      PropsLie(b, q + PropBytes(ps[0]), ps[1..]);
    }
  }

  /** The flat form of a tree puts every byte where the layout says. */
  lemma {:induction false} NodeLies(b: seq<Byte>, o: nat, t: Tree)
    requires ValidTree(t) && LiesAt(b, o, Flat(t))
    ensures NodeAt(b, o, t) && |Flat(t)| == NodeBytes(t)
    decreases t, 1
  {
    var np, nk, ps, ks := Word32(|t.props|), Word32(|t.kids|), FlatProps(t.props), FlatKids(t.kids);
    assert Flat(t) == np + (nk + (ps + ks));
    hide LiesAt, Word32, WordAt, PropsAt, FlatProps, FlatKids, PropsBytes, ValidProp;
    LiesParts(b, o, np, nk + (ps + ks));
    LiesParts(b, o + 4, nk, ps + ks);
    LiesParts(b, o + 8, ps, ks);
    WordLies(b, o, |t.props|);
    WordLies(b, o + 4, |t.kids|);
    PropsLie(b, o + 8, t.props);
    KidsLie(b, o + 8 + PropsBytes(t.props), t.kids);
  }

  lemma {:induction false} KidsLie(b: seq<Byte>, o: nat, ts: seq<Tree>)
    requires (forall t | t in ts :: ValidTree(t)) && LiesAt(b, o, FlatKids(ts))
    ensures KidsAt(b, o, ts) && |FlatKids(ts)| == KidsBytes(ts)
    decreases ts, 0
  {
    hide NodeAt, NodeBytes, ValidTree, LiesAt, Flat;
    if ts != [] {
      LiesParts(b, o, Flat(ts[0]), FlatKids(ts[1..]));
      NodeLies(b, o, ts[0]);
      KidsLie(b, o + NodeBytes(ts[0]), ts[1..]);
    }
  }
}
