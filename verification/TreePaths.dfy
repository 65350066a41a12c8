/** Looking nodes up by path in the tree of device_tree.c. */
module TreePaths {
  import opened Bytes
  import opened FlatTree
  import opened NodePools

  const SLASH: Byte := 47
  const NAME := Ascii("name")
  const NO_NAME := Ascii("(null)")
  const MAX_PART := 30 // the loop at device_tree.c:333-335 stops before its 31st character

  /** DT__GetName: the C string in the first property called "name". */
  function NameIn(ps: seq<Prop>): seq<Byte> {
    if ps == [] then NO_NAME
    else if ps[0].name == NAME then ReadName(ps[0].value)
    else NameIn(ps[1..])
  }

  /** Without a property called "name" a node is called "(null)". */
  lemma {:induction false} NoneNamedIn(ps: seq<Prop>)
    requires forall i | 0 <= i < |ps| :: ps[i].name != Ascii("name")
    ensures NameIn(ps) == Ascii("(null)")
  {
    if ps != [] {
      NoneNamedIn(ps[1..]);
    }
  }

  /** Otherwise the first one is its name, up to the NUL. */
  lemma {:induction false} FirstNamed(ps: seq<Prop>, i: nat, t: seq<Byte>, rest: seq<Byte>)
    requires i < |ps| && ps[i] == Prop(Ascii("name"), t + [0] + rest) && 0 !in t
    requires forall j | 0 <= j < i :: ps[j].name != Ascii("name")
    ensures NameIn(ps) == t
    decreases i
  {
    if i == 0 {
      assert t + [0] + rest == t + ([0] + rest);
      ReadNameExact(t, [0] + rest);
    } else {
      FirstNamed(ps[1..], i - 1, t, rest);
    }
  }

  ghost function NameOf(f: Forest, n: int): seq<Byte>
    requires Linked(f) && 0 <= n < |f.nodes|
  {
    NameIn(PropsOf(f, n))
  }

  /** The first node of ks with the given name, or NIL. */
  ghost function Named(f: Forest, ks: seq<int>, name: seq<Byte>): (c: int)
    requires Linked(f) && forall k | k in ks :: 0 <= k < |f.nodes|
    ensures c != NIL ==> c in ks && NameOf(f, c) == name
    ensures c == NIL ==> forall k | k in ks :: NameOf(f, k) != name
  {
    if ks == [] then NIL
    else
      assert ks[0] in ks && forall k | k in ks[1..] :: k in ks;
      if NameOf(f, ks[0]) == name then ks[0] else Named(f, ks[1..], name)
  }

  function SkipSlashes(path: seq<Byte>): (r: seq<Byte>)
    ensures |r| <= |path| && (r == [] || r[0] != SLASH)
  {
    if path != [] && path[0] == SLASH then SkipSlashes(path[1..]) else path
  }

  /** How many of the first k characters come before a slash. */
  function PartLength(path: seq<Byte>, k: nat): (n: nat)
    ensures n <= |path| && n <= k
  {
    if k == 0 || path == [] || path[0] == SLASH then 0 else 1 + PartLength(path[1..], k - 1)
  }

  /** The names a path goes through: cut at slashes and after every 30 characters. */
  function Parts(path: seq<Byte>): (r: seq<seq<Byte>>)
    ensures forall part | part in r :: 0 < |part| <= MAX_PART
    decreases |path|
  {
    var s := SkipSlashes(path);
    var n := PartLength(s, MAX_PART);
    if n == 0 then [] else [s[..n]] + Parts(s[n..])
  }

  /** Names with a slash in front of each. */
  function Joined(names: seq<seq<Byte>>): seq<Byte> {
    if names == [] then [] else [47] + names[0] + Joined(names[1..])
  }

  /** A name in pieces of 30 characters and what is left. */
  function Pieces(name: seq<Byte>): seq<seq<Byte>> {
    if |name| <= 30 then [name] else [name[..30]] + Pieces(name[30..])
  }

  function AllPieces(names: seq<seq<Byte>>): seq<seq<Byte>> {
    if names == [] then [] else Pieces(names[0]) + AllPieces(names[1..])
  }

  predicate IsName(name: seq<Byte>) {
    name != [] && 47 !in name
  }

  lemma {:induction false} LengthOfName(name: seq<Byte>, rest: seq<Byte>, k: nat)
    requires 47 !in name && (rest == [] || rest[0] == 47)
    ensures PartLength(name + rest, k) == if |name| <= k then |name| else k
  {
    if name == [] {
      assert name + rest == rest;
    } else if k > 0 {
      assert (name + rest)[0] == name[0] && (name + rest)[1..] == name[1..] + rest;
      LengthOfName(name[1..], rest, k - 1);
    }
  }

  lemma {:induction false} PartsOfName(name: seq<Byte>, rest: seq<Byte>)
    requires IsName(name) && (rest == [] || rest[0] == 47)
    ensures Parts(name + rest) == Pieces(name) + Parts(rest)
    decreases |name|
  {
    var path := name + rest;
    LengthOfName(name, rest, 30);
    assert path[0] == name[0] && SkipSlashes(path) == path;
    if |name| <= 30 {
      assert path[..|name|] == name && path[|name|..] == rest;
    } else {
      assert path[..30] == name[..30] && path[30..] == name[30..] + rest;
      PartsOfName(name[30..], rest);
    }
  }

  lemma PartsBehindSlash(path: seq<Byte>)
    ensures Parts([47] + path) == Parts(path)
  {
    assert ([47] + path)[1..] == path;
    assert SkipSlashes([47] + path) == SkipSlashes(path);
    hide SkipSlashes, PartLength;
  }

  /** A path names its components, those longer than 30 characters in pieces; the first slash may be left out. */
  lemma {:induction false} PartsOfJoined(names: seq<seq<Byte>>)
    requires forall i | 0 <= i < |names| :: IsName(names[i])
    ensures Parts(Joined(names)) == AllPieces(names)
    ensures names != [] ==> Parts(Joined(names)[1..]) == AllPieces(names)
  {
    if names != [] {
      var rest := Joined(names[1..]);
      JoinedIs(names);
      hide Parts, IsName, Pieces;
      PartsOfJoined(names[1..]);
      PartsOfName(names[0], rest);
      PartsBehindSlash(names[0] + rest);
    } else {
      assert Parts([]) == [];
    }
  }

  lemma JoinedIs(names: seq<seq<Byte>>)
    requires names != []
    ensures var path, rest := names[0] + Joined(names[1..]), Joined(names[1..]);
            Joined(names) == [47] + path && Joined(names)[1..] == path && (rest == [] || rest[0] == 47)
  {
  }

  /** Components of at most 30 characters are the parts themselves. */
  lemma {:induction false} ShortNames(names: seq<seq<Byte>>)
    requires forall i | 0 <= i < |names| :: IsName(names[i]) && |names[i]| <= 30
    ensures Parts(Joined(names)) == names
  {
    PartsOfJoined(names);
    if names != [] {
      ShortNames(names[1..]);
      PartsOfJoined(names[1..]);
    }
  }

  ghost function Follow(f: Forest, n: int, parts: seq<seq<Byte>>): (r: int)
    requires Linked(f) && NIL <= n < |f.nodes|
    ensures NIL <= r < |f.nodes|
    decreases |parts|
  {
    if n == NIL || parts == [] then n
    else Follow(f, Named(f, KidsOf(f, n), parts[0]), parts[1..])
  }

  /** The node a path names, NIL if there is none. */
  ghost function Find(f: Forest, path: seq<Byte>): (r: int)
    requires Linked(f)
    ensures NIL <= r < |f.nodes|
  {
    if f.nodes == [] then NIL else Follow(f, 0, Parts(path))
  }

  lemma {:induction false} FollowSplit(f: Forest, n: int, a: seq<seq<Byte>>, b: seq<seq<Byte>>)
    requires Linked(f) && NIL <= n < |f.nodes|
    ensures Follow(f, n, a + b) == Follow(f, Follow(f, n, a), b)
    decreases |a|
  {
    if a == [] {
      assert a + b == b;
    } else if n != NIL {
      assert (a + b)[1..] == a[1..] + b;
      FollowSplit(f, Named(f, KidsOf(f, n), a[0]), a[1..], b);
    }
  }

  // ----- creating a missing node keeps every path that was there

  /** g is f with a new first child of n holding exactly the properties ps. */
  ghost predicate Grown(f: Forest, g: Forest, n: int, ps: seq<Prop>) {
    && Linked(f) && Linked(g) && NIL <= n < |f.nodes| && |g.nodes| == |f.nodes| + 1
    && (forall m | 0 <= m < |f.nodes| :: KidsOf(g, m) == if m == n then [|f.nodes|] + KidsOf(f, m) else KidsOf(f, m))
    && (forall m | 0 <= m < |f.nodes| :: PropsOf(g, m) == PropsOf(f, m))
    && KidsOf(g, |f.nodes|) == [] && PropsOf(g, |f.nodes|) == ps
  }

  /** Every path that led somewhere in f leads to the same node in g. */
  ghost predicate KeepsPaths(f: Forest, g: Forest) {
    && Linked(f) && Linked(g) && |f.nodes| <= |g.nodes|
    && forall m, parts | 0 <= m < |f.nodes| && Follow(f, m, parts) != NIL :: Follow(g, m, parts) == Follow(f, m, parts)
  }

  lemma {:induction false} SameNamed(f: Forest, g: Forest, n: int, ps: seq<Prop>, ks: seq<int>, name: seq<Byte>)
    requires Grown(f, g, n, ps) && forall k | k in ks :: 0 <= k < |f.nodes|
    ensures Named(g, ks, name) == Named(f, ks, name)
  {
    hide Linked, KidsOf, PropsOf;
    if ks != [] {
      assert ks[0] in ks && forall k | k in ks[1..] :: k in ks;
      SameNamed(f, g, n, ps, ks[1..], name);
    }
  }

  lemma {:induction false} FollowKept(f: Forest, g: Forest, n: int, ps: seq<Prop>, m: int, parts: seq<seq<Byte>>)
    requires Grown(f, g, n, ps) && 0 <= n && Named(f, KidsOf(f, n), NameIn(ps)) == NIL
    requires 0 <= m < |f.nodes| && Follow(f, m, parts) != NIL
    ensures Follow(g, m, parts) == Follow(f, m, parts)
    decreases |parts|
  {
    hide Linked, KidsOf, PropsOf;
    if parts != [] {
      var ks := KidsOf(f, m);
      var c := Named(f, ks, parts[0]);
      SameNamed(f, g, n, ps, ks, parts[0]);
      if m == n {
        assert KidsOf(g, m)[1..] == ks && KidsOf(g, m)[0] == |f.nodes|;
        assert NameOf(g, |f.nodes|) == NameIn(ps);
      }
      FollowKept(f, g, n, ps, c, parts[1..]);
    }
  }

  /** A new child whose name none of its siblings bears hides no older node. */
  lemma GrownKeepsPaths(f: Forest, g: Forest, n: int, ps: seq<Prop>)
    requires Grown(f, g, n, ps) && 0 <= n && Named(f, KidsOf(f, n), NameIn(ps)) == NIL
    ensures KeepsPaths(f, g)
    ensures Named(g, KidsOf(g, n), NameIn(ps)) == |f.nodes|
  {
    hide Linked, KidsOf, PropsOf;
    forall m, parts | 0 <= m < |f.nodes| && Follow(f, m, parts) != NIL
      ensures Follow(g, m, parts) == Follow(f, m, parts)
    {
      FollowKept(f, g, n, ps, m, parts);
    }
    assert KidsOf(g, n)[0] == |f.nodes|;
  }

  // ----- what else creating nodes does

  /** How many of the parts lead nowhere from n on. */
  ghost function Missing(f: Forest, n: int, parts: seq<seq<Byte>>): nat
    requires Linked(f) && 0 <= n < |f.nodes|
    decreases |parts|
  {
    if parts == [] then 0
    else
      var c := Named(f, KidsOf(f, n), parts[0]);
      if c == NIL then |parts| else Missing(f, c, parts[1..])
  }

  /** The nodes of f have kept their properties and their children, save for one new first child of one of them. */
  ghost predicate OneMoreAtMost(f: Forest, g: Forest) {
    && Linked(f) && Linked(g) && |f.nodes| <= |g.nodes|
    && (forall m | 0 <= m < |f.nodes| ::
          PropsOf(g, m) == PropsOf(f, m) && (KidsOf(g, m) == KidsOf(f, m) || KidsOf(g, m) == [|f.nodes|] + KidsOf(f, m)))
    && (forall m, k | 0 <= m < |f.nodes| && 0 <= k < |f.nodes| && KidsOf(g, m) != KidsOf(f, m) && KidsOf(g, k) != KidsOf(f, k) ::
          m == k)
  }

  /** Every node of g that f does not have got its name; without memory for the property it has none. */
  ghost predicate NewNodesNamed(f: Forest, g: Forest)
    requires Linked(g)
  {
    forall m | |f.nodes| <= m < |g.nodes| :: PropsOf(g, m) != []
  }

  lemma NamedStep(f0: Forest, f: Forest, g: Forest, n: int, ps: seq<Prop>)
    requires Grown(f, g, n, ps) && |f0.nodes| <= |f.nodes|
    ensures NewNodesNamed(f0, g) <==> NewNodesNamed(f0, f) && ps != []
  {
    hide NodeLinks, PropLinks, KidsOf, PropsOf;
    assert forall m | |f0.nodes| <= m < |f.nodes| :: PropsOf(g, m) == PropsOf(f, m);
    assert PropsOf(g, |f.nodes|) == ps;
  }

  lemma SameIsKept(f: Forest)
    requires Linked(f)
    ensures OneMoreAtMost(f, f) && NewNodesNamed(f, f)
  {
    hide NodeLinks, PropLinks, KidsOf, PropsOf;
  }

  /** The first node created: one old node gets a new first child. */
  lemma FirstCreated(f: Forest, g: Forest, n: int, ps: seq<Prop>)
    requires Grown(f, g, n, ps) && 0 <= n
    ensures OneMoreAtMost(f, g)
  {
    hide NodeLinks, PropLinks, KidsOf, PropsOf;
  }

  /** Every further node hangs from a new one. */
  lemma NextCreated(f0: Forest, f: Forest, g: Forest, n: int, ps: seq<Prop>)
    requires OneMoreAtMost(f0, f) && Grown(f, g, n, ps) && |f0.nodes| <= n
    ensures OneMoreAtMost(f0, g)
  {
    hide NodeLinks, PropLinks, KidsOf, PropsOf;
  }

  lemma MissingStep(f: Forest, n: int, part: seq<Byte>, rest: seq<seq<Byte>>)
    requires Linked(f) && 0 <= n < |f.nodes|
    ensures Missing(f, n, []) == 0
    ensures var c := Named(f, KidsOf(f, n), part);
            Missing(f, n, [part] + rest) == if c == NIL then 1 + |rest| else Missing(f, c, rest)
  {
    assert ([part] + rest)[1..] == rest;
    hide NodeLinks, PropLinks, KidsOf, PropsOf, Named;
  }
}
