/** The tag records and symbols xml.c allocates, and who holds them. */
module XmlPools {
  import opened Bytes
  import opened XmlText

  const NIL := -1
  const PER_BLOCK := 0x1000 // kTagsPerBlock

  /** A tag record; kind is None for kTagTypeNone, and a string is named by its characters. */
  datatype Record = Record(kind: Option<Kind>, name: Option<seq<Byte>>, tag: int, next: int)

  datatype Symbol = Symbol(name: seq<Byte>, refCount: nat)

  /** A tag with the addresses of the records that hold it. */
  datatype Node = Node(at: int, kind: Kind, name: Option<seq<Byte>>, kids: seq<Node>)

  function TagOf(n: Node): Tag
    decreases n, 1
  {
    Tag(n.kind, n.name, TagsOf(n.kids))
  }

  function TagsOf(ns: seq<Node>): seq<Tag>
    decreases ns, 0
  {
    if ns == [] then [] else [TagOf(ns[0])] + TagsOf(ns[1..])
  }

  ghost function Addresses(ns: seq<Node>): multiset<int>
  {
    if ns == [] then multiset{} else multiset{ns[0].at} + Addresses(ns[0].kids) + Addresses(ns[1..])
  }

  function Sum<T>(a: multiset<T>, b: multiset<T>): multiset<T> {
    a + b
  }

  function One(name: Option<seq<Byte>>): multiset<seq<Byte>> {
    if name.Some? then multiset{name.value} else multiset{}
  }

  ghost function Names(ns: seq<Node>): multiset<seq<Byte>>
  {
    if ns == [] then multiset{} else One(ns[0].name) + Names(ns[0].kids) + Names(ns[1..])
  }

  /** The list of records from p holds exactly ns. */
  ghost predicate Holds(tags: seq<Record>, p: int, ns: seq<Node>)
    decreases ns
  {
    if ns == [] then p == NIL
    else
      && 0 <= p < |tags| && p == ns[0].at
      && tags[p].kind == Some(ns[0].kind) && tags[p].name == ns[0].name
      && Holds(tags, tags[p].tag, ns[0].kids)
      && Holds(tags, tags[p].next, ns[1..])
  }

  /** The free list runs through exactly these addresses. */
  ghost predicate FreeList(tags: seq<Record>, p: int, free: seq<int>)
    decreases |free|
  {
    if free == [] then p == NIL
    else 0 <= p < |tags| && p == free[0] && FreeList(tags, tags[p].next, free[1..])
  }

  function Bag(s: seq<int>): multiset<int> {
    if s == [] then multiset{} else multiset{s[0]} + Bag(s[1..])
  }

  /** The addresses of n records, each once. */
  function All(n: nat): multiset<int> {
    if n == 0 then multiset{} else All(n - 1) + multiset{n - 1}
  }

  /** Every record is in use or free, and only once. */
  ghost predicate Conserved(n: nat, used: multiset<int>, free: seq<int>) {
    used + Bag(free) == All(n)
  }

  /** The first symbol with the name, |symbols| if there is none. */
  function Lookup(symbols: seq<Symbol>, name: seq<Byte>): (i: nat)
    ensures i <= |symbols| && (i < |symbols| ==> symbols[i].name == name)
    ensures forall j | 0 <= j < i :: symbols[j].name != name
  {
    if symbols == [] || symbols[0].name == name then 0 else 1 + Lookup(symbols[1..], name)
  }

  function RefsOf(symbols: seq<Symbol>, name: seq<Byte>): nat {
    var i := Lookup(symbols, name);
    if i < |symbols| then symbols[i].refCount else 0
  }

  ghost predicate Distinct(symbols: seq<Symbol>) {
    forall i, j | 0 <= i < j < |symbols| :: symbols[i].name != symbols[j].name
  }

  /** The symbols are distinct, and each counts the tags that name it, at least one. */
  ghost predicate Counted(symbols: seq<Symbol>, names: multiset<seq<Byte>>) {
    && Distinct(symbols)
    && (forall i | 0 <= i < |symbols| :: 0 < symbols[i].refCount)
    && (forall name :: names[name] == RefsOf(symbols, name))
  }

  // ----- frames

  lemma {:induction false} HoldsKept(tags: seq<Record>, tags': seq<Record>, p: int, ns: seq<Node>)
    requires Holds(tags, p, ns) && |tags| <= |tags'|
    requires forall a | a in Addresses(ns) && 0 <= a < |tags| :: tags'[a] == tags[a]
    ensures Holds(tags', p, ns)
    decreases ns
  {
    if ns != [] {
      assert p in Addresses(ns);
      assert forall a | a in Addresses(ns[0].kids) || a in Addresses(ns[1..]) :: a in Addresses(ns);
      HoldsKept(tags, tags', tags[p].tag, ns[0].kids);
      HoldsKept(tags, tags', tags[p].next, ns[1..]);
    }
  }

  lemma {:induction false} FreeKept(tags: seq<Record>, tags': seq<Record>, p: int, free: seq<int>)
    requires FreeList(tags, p, free) && |tags| <= |tags'|
    requires forall a | a in Bag(free) && 0 <= a < |tags| :: tags'[a] == tags[a]
    ensures FreeList(tags', p, free)
    decreases |free|
  {
    if free != [] {
      assert p in Bag(free);
      assert forall a | a in Bag(free[1..]) :: a in Bag(free);
      FreeKept(tags, tags', tags[p].next, free[1..]);
    }
  }

  /** With nobody holding a name there are no symbols. */
  lemma NoNamesNoSymbols(symbols: seq<Symbol>, names: multiset<seq<Byte>>)
    requires Counted(symbols, names) && names == multiset{}
    ensures symbols == []
  {
    if symbols != [] {
      LookupIs(symbols, 0);
      FirstIsNamed(symbols, names);
    }
  }

  /** When every tag has been freed, all records are free and no symbol is left. */
  lemma AllGivenBack(n: nat, used: multiset<int>, free: seq<int>, symbols: seq<Symbol>, names: multiset<seq<Byte>>)
    requires Conserved(n, used, free) && Counted(symbols, names) && used == multiset{} && names == multiset{}
    ensures symbols == [] && Bag(free) == All(n)
  {
    NoNamesNoSymbols(symbols, names);
  }

  lemma FirstIsNamed(symbols: seq<Symbol>, names: multiset<seq<Byte>>)
    requires Counted(symbols, names) && symbols != [] && Lookup(symbols, symbols[0].name) == 0
    ensures symbols[0].name in names
  {
    assert names[symbols[0].name] == symbols[0].refCount > 0;
  }

  lemma LookupIs(symbols: seq<Symbol>, i: nat)
    requires Distinct(symbols) && i < |symbols|
    ensures Lookup(symbols, symbols[i].name) == i
  {
  }

  // ----- taking and giving back a record

  lemma {:induction false} AllOnce(n: nat, a: int)
    ensures All(n)[a] == if 0 <= a < n then 1 else 0
  {
    if n > 0 {
      AllOnce(n - 1, a);
    }
  }

  lemma UsedOnce(n: nat, used: multiset<int>, free: seq<int>, a: int)
    requires Conserved(n, used, free)
    ensures used[a] + Bag(free)[a] == if 0 <= a < n then 1 else 0
  {
    AllOnce(n, a);
    assert (used + Bag(free))[a] == used[a] + Bag(free)[a];
  }

  lemma TakeConserved(n: nat, used: multiset<int>, free: seq<int>)
    requires Conserved(n, used, free) && free != []
    ensures Conserved(n, used + multiset{free[0]}, free[1..])
    ensures 0 <= free[0] < n && free[0] !in used && free[0] !in Bag(free[1..])
  {
    UsedOnce(n, used, free, free[0]);
  }

  lemma NoneFree(tags: seq<Record>, free: seq<int>)
    requires FreeList(tags, NIL, free)
    ensures free == []
  {
  }

  /** The record at the head of the free list can be taken. */
  lemma HeadIsFree(tags: seq<Record>, p: int, used: multiset<int>, free: seq<int>)
    requires Conserved(|tags|, used, free) && FreeList(tags, p, free) && p != NIL
    ensures free != [] && 0 <= p < |tags| && p !in used
    ensures FreeList(tags, tags[p].next, free[1..]) && Conserved(|tags|, used + multiset{p}, free[1..])
  {
    TakeConserved(|tags|, used, free);
  }

  lemma GiveConserved(n: nat, used: multiset<int>, free: seq<int>, a: int)
    requires Conserved(n, used, free) && a in used
    ensures Conserved(n, used - multiset{a}, [a] + free)
    ensures a !in Bag(free) && 0 <= a < n && a !in used - multiset{a}
  {
    UsedOnce(n, used, free, a);
    assert ([a] + free)[1..] == free;
  }

  function Fresh(base: nat, k: nat): (r: seq<int>)
    ensures |r| == k && forall i | 0 <= i < k :: r[i] == base + i
  {
    seq(k, i => base + i)
  }

  lemma {:induction false} FreshAll(base: nat, k: nat)
    ensures All(base) + Bag(Fresh(base, k)) == All(base + k)
    decreases k
  {
    hide All, Bag, Fresh;
    if k == 0 {
      NoneFresh(base);
    } else {
      var more := Bag(Fresh(base + 1, k - 1));
      FreshAll(base + 1, k - 1);
      FreshFront(base, k);
      BagFront(base, Fresh(base + 1, k - 1));
      NextAll(base);
      calc {
        All(base) + Bag(Fresh(base, k));
        All(base) + (multiset{base} + more);
        { Regroup(All(base), multiset{base}, more); }
        All(base) + multiset{base} + more;
        All(base + 1) + more;
        All(base + k);
      }
    }
  }

  lemma NoneFresh(base: nat)
    ensures All(base) + Bag(Fresh(base, 0)) == All(base)
  {
    assert Fresh(base, 0) == [];
  }

  lemma FreshFront(base: nat, k: nat)
    requires k > 0
    ensures Fresh(base, k) == [base] + Fresh(base + 1, k - 1)
  {
  }

  lemma Regroup(a: multiset<int>, b: multiset<int>, c: multiset<int>)
    ensures a + (b + c) == a + b + c
  {
  }

  lemma BagFront(a: int, s: seq<int>)
    ensures Bag([a] + s) == multiset{a} + Bag(s)
  {
    assert ([a] + s)[1..] == s;
  }

  lemma NextAll(n: nat)
    ensures All(n + 1) == All(n) + multiset{n}
  {
  }

  lemma RefillConserved(n: nat, used: multiset<int>, k: nat)
    requires Conserved(n, used, [])
    ensures Conserved(n + k, used, Fresh(n, k))
  {
    FreshAll(n, k);
  }

  lemma {:induction false} FreshList(tags: seq<Record>, base: nat, k: nat)
    requires base + k <= |tags|
    requires forall j | base <= j < base + k :: tags[j].next == if j + 1 < base + k then j + 1 else NIL
    ensures FreeList(tags, if k == 0 then NIL else base, Fresh(base, k))
    decreases k
  {
    if k == 0 {
      assert Fresh(base, 0) == [];
    } else {
      assert Fresh(base, k)[1..] == Fresh(base + 1, k - 1);
      FreshList(tags, base + 1, k - 1);
    }
  }

  // ----- symbols

  /** The symbols after NewSymbol. */
  function Referenced(symbols: seq<Symbol>, name: seq<Byte>): seq<Symbol> {
    var i := Lookup(symbols, name);
    if i == |symbols| then [Symbol(name, 1)] + symbols
    else symbols[i := Symbol(name, symbols[i].refCount + 1)]
  }

  /** The symbols after FreeSymbol. */
  function Released(symbols: seq<Symbol>, name: seq<Byte>): seq<Symbol> {
    var i := Lookup(symbols, name);
    if i == |symbols| then symbols
    else if symbols[i].refCount > 1 then symbols[i := Symbol(name, symbols[i].refCount - 1)]
    else symbols[..i] + symbols[i + 1..]
  }

  /** i is where the name is, |symbols| if it is not there. */
  ghost predicate IsAt(symbols: seq<Symbol>, name: seq<Byte>, i: nat) {
    && i <= |symbols| && (i < |symbols| ==> symbols[i].name == name)
    && forall j | 0 <= j < |symbols| && j != i :: symbols[j].name != name
  }

  lemma FoundAt(symbols: seq<Symbol>, name: seq<Byte>)
    requires Distinct(symbols)
    ensures IsAt(symbols, name, Lookup(symbols, name))
  {
  }

  lemma OnlyAt(symbols: seq<Symbol>, name: seq<Byte>, i: nat)
    requires IsAt(symbols, name, i)
    ensures Lookup(symbols, name) == i
  {
  }

  lemma ReferencedRefs(symbols: seq<Symbol>, name: seq<Byte>, other: seq<Byte>)
    requires Distinct(symbols)
    ensures RefsOf(Referenced(symbols, name), other) == RefsOf(symbols, other) + if other == name then 1 else 0
  {
    var r, i, k := Referenced(symbols, name), Lookup(symbols, name), Lookup(symbols, other);
    FoundAt(symbols, name);
    FoundAt(symbols, other);
    var at := if i < |symbols| then k else if other == name then 0 else k + 1;
    assert IsAt(r, other, at);
    OnlyAt(r, other, at);
  }

  lemma ReferencedCounted(symbols: seq<Symbol>, names: multiset<seq<Byte>>, name: seq<Byte>)
    requires Counted(symbols, names)
    ensures Counted(Referenced(symbols, name), names + multiset{name})
  {
    var r := Referenced(symbols, name);
    forall other ensures (names + multiset{name})[other] == RefsOf(r, other) {
      ReferencedRefs(symbols, name, other);
      assert names[other] == RefsOf(symbols, other);
    }
  }

  lemma ReleasedRefs(symbols: seq<Symbol>, name: seq<Byte>, other: seq<Byte>)
    requires Distinct(symbols) && forall i | 0 <= i < |symbols| :: 0 < symbols[i].refCount
    requires RefsOf(symbols, name) > 0
    ensures RefsOf(Released(symbols, name), other) == RefsOf(symbols, other) - if other == name then 1 else 0
  {
    var r, i, k := Released(symbols, name), Lookup(symbols, name), Lookup(symbols, other);
    FoundAt(symbols, name);
    FoundAt(symbols, other);
    var at := if symbols[i].refCount > 1 then k else if other == name then |r| else if k < i then k else k - 1;
    assert IsAt(r, other, at);
    OnlyAt(r, other, at);
  }

  lemma ReleasedDistinct(symbols: seq<Symbol>, name: seq<Byte>)
    requires Distinct(symbols) && forall i | 0 <= i < |symbols| :: 0 < symbols[i].refCount
    ensures var r := Released(symbols, name); Distinct(r) && forall i | 0 <= i < |r| :: 0 < r[i].refCount
  {
  }

  lemma ReleasedCounted(symbols: seq<Symbol>, names: multiset<seq<Byte>>, name: seq<Byte>)
    requires Counted(symbols, names) && name in names
    ensures Lookup(symbols, name) < |symbols| && symbols[Lookup(symbols, name)].refCount > 0
    ensures Counted(Released(symbols, name), names - multiset{name})
  {
    var r := Released(symbols, name);
    assert names[name] == RefsOf(symbols, name) > 0;
    ReleasedDistinct(symbols, name);
    assert Lookup(symbols, name) < |symbols| && symbols[Lookup(symbols, name)].refCount > 0;
    hide Lookup, Released, RefsOf, Distinct;
    forall other ensures (names - multiset{name})[other] == RefsOf(r, other) {
      ReleasedRefs(symbols, name, other);
      assert names[other] == RefsOf(symbols, other);
    }
  }

  // ----- the records of a tree

  /** The records of those addresses are as they were. */
  ghost predicate Kept(t0: seq<Record>, t1: seq<Record>, who: multiset<int>) {
    |t0| <= |t1| && forall a | a in who && 0 <= a < |t0| :: t1[a] == t0[a]
  }

  lemma KeptHolds(t0: seq<Record>, t1: seq<Record>, who: multiset<int>, p: int, ns: seq<Node>)
    requires Kept(t0, t1, who) && Addresses(ns) <= who && Holds(t0, p, ns)
    ensures Holds(t1, p, ns)
  {
    assert forall a | a in Addresses(ns) :: a in who;
    HoldsKept(t0, t1, p, ns);
  }

  /** Whoever is in use once is not in the rest. */
  lemma Apart(n: nat, used: multiset<int>, free: seq<int>, a: int, rest: multiset<int>)
    requires Conserved(n, used, free) && multiset{a} + rest <= used
    ensures a !in rest && 0 <= a < n && a !in Bag(free)
  {
    UsedOnce(n, used, free, a);
    assert (multiset{a} + rest)[a] == 1 + rest[a];
  }

  lemma ConsParts(n: Node, ns: seq<Node>)
    ensures Addresses([n] + ns) == multiset{n.at} + Addresses(n.kids) + Addresses(ns)
    ensures Names([n] + ns) == One(n.name) + Names(n.kids) + Names(ns)
    ensures TagsOf([n] + ns) == [TagOf(n)] + TagsOf(ns)
    ensures Addresses([n]) == multiset{n.at} + Addresses(n.kids)
    ensures Names([n]) == One(n.name) + Names(n.kids)
  {
    assert ([n] + ns)[1..] == ns;
  }

  /** A tag linked in front of a list. */
  lemma LinkedInFront(t0: seq<Record>, t1: seq<Record>, p: int, n: Node, q: int, ns: seq<Node>)
    requires Holds(t0, p, [n]) && Holds(t0, q, ns)
    requires 0 <= p < |t0| && t1 == t0[p := t0[p].(next := q)]
    requires p !in Addresses(n.kids) && p !in Addresses(ns)
    ensures Holds(t1, p, [n] + ns)
  {
    hide Holds, Addresses;
    OneHeld(t0, p, n);
    HoldsKept(t0, t1, t0[p].tag, n.kids);
    HoldsKept(t0, t1, q, ns);
    IsHeld(t1, p, n, ns);
  }

  lemma OneHeld(tags: seq<Record>, p: int, n: Node)
    requires Holds(tags, p, [n])
    ensures 0 <= p < |tags| && p == n.at && tags[p].kind == Some(n.kind) && tags[p].name == n.name
    ensures Holds(tags, tags[p].tag, n.kids) && tags[p].next == NIL
  {
  }

  lemma IsHeld(tags: seq<Record>, p: int, n: Node, ns: seq<Node>)
    requires 0 <= p < |tags| && p == n.at && tags[p].kind == Some(n.kind) && tags[p].name == n.name
    requires Holds(tags, tags[p].tag, n.kids) && Holds(tags, tags[p].next, ns)
    ensures Holds(tags, p, [n] + ns)
  {
    assert ([n] + ns)[1..] == ns;
  }

  /** A record filled in as a tag over a list. */
  lemma FilledIn(t0: seq<Record>, t1: seq<Record>, p: int, kind: Kind, name: Option<seq<Byte>>, q: int, ns: seq<Node>)
    requires Holds(t0, q, ns) && 0 <= p < |t0| && t1 == t0[p := Record(Some(kind), name, q, NIL)]
    requires p !in Addresses(ns)
    ensures Holds(t1, p, [Node(p, kind, name, ns)])
  {
    HoldsKept(t0, t1, q, ns);
  }

  lemma HeadParts(tags: seq<Record>, p: int, ns: seq<Node>)
    requires Holds(tags, p, ns) && p != NIL
    ensures ns != [] && 0 <= p < |tags| && tags[p].name == ns[0].name
    ensures Holds(tags, tags[p].tag, ns[0].kids) && Holds(tags, tags[p].next, ns[1..])
    ensures Addresses(ns) == Sum(multiset{p}, Sum(Addresses(ns[0].kids), Addresses(ns[1..])))
    ensures Names(ns) == Sum(One(ns[0].name), Sum(Names(ns[0].kids), Names(ns[1..])))
  {
  }

  lemma NothingHeld(tags: seq<Record>, ns: seq<Node>, a: multiset<int>, s: multiset<seq<Byte>>)
    requires Holds(tags, NIL, ns)
    ensures ns == [] && Sum(Addresses(ns), a) == a && Sum(Names(ns), s) == s
  {
  }

  /** Taking k and then r away from (h + (k + r)) + o. */
  lemma Shuffle<T>(h: multiset<T>, k: multiset<T>, r: multiset<T>, o: multiset<T>)
    ensures Sum(Sum(h, Sum(k, r)), o) == Sum(k, Sum(r, Sum(h, o)))
    ensures Sum(Sum(h, Sum(k, r)), o) == Sum(h, Sum(k, Sum(r, o)))
  {
  }

  lemma GivenBack(tags: seq<Record>, first: int, others: multiset<int>, free: seq<int>, p: int)
    requires Conserved(|tags|, Sum(multiset{p}, others), free) && FreeList(tags, first, free)
    ensures 0 <= p < |tags| && Conserved(|tags|, others, [p] + free) && p !in others
    ensures FreeList(tags[p := Record(None, None, NIL, first)], p, [p] + free)
  {
    var used := Sum(multiset{p}, others);
    GiveConserved(|tags|, used, free, p);
    assert used - multiset{p} == others;
    var t := tags[p := Record(None, None, NIL, first)];
    FreeKept(tags, t, first, free);
    assert ([p] + free)[1..] == free;
  }

  lemma KeptUnder(t0: seq<Record>, t1: seq<Record>, a: multiset<int>, b: multiset<int>)
    requires Kept(t0, t1, Sum(a, b))
    ensures Kept(t0, t1, b)
  {
    assert forall x | x in b :: x in Sum(a, b);
  }

  lemma KeptAcross(t0: seq<Record>, t1: seq<Record>, t2: seq<Record>, who: multiset<int>)
    requires Kept(t0, t1, who) && Kept(t1, t2, who)
    ensures Kept(t0, t2, who)
  {
  }

  lemma KeptBut(t0: seq<Record>, t1: seq<Record>, who: multiset<int>, p: int, r: Record)
    requires Kept(t0, t1, who) && p !in who && 0 <= p < |t1|
    ensures Kept(t0, t1[p := r], who)
  {
  }

  lemma KeptPart(t0: seq<Record>, t1: seq<Record>, p: int, ns: seq<Node>, others: multiset<int>)
    requires Kept(t0, t1, Sum(Addresses(ns), others)) && Holds(t0, p, ns)
    ensures Holds(t1, p, ns)
  {
    KeptHolds(t0, t1, Sum(Addresses(ns), others), p, ns);
  }

  /** What a parse hands to its caller. */
  ghost predicate Outcome(r: Parsed, end: int, tag: int, stale: int, ns: seq<Node>, tags: seq<Record>) {
    match r
    case Fail => false
    case Undefined => false
    case Plist(e) => end == e && tag == stale && ns == []
    case Got(None, e) => end == e && tag == NIL && ns == []
    case Got(Some(t), e) => end == e && tag != NIL && |ns| == 1 && TagOf(ns[0]) == t && Holds(tags, tag, ns)
  }

  /** How far the text has been read, and what that has done to the buffer. */
  ghost predicate ReadTo(s: seq<Byte>, b0: seq<Byte>, b1: seq<Byte>, pos: nat, end: int) {
    Cut(b0, b1, pos) && (end >= 0 ==> pos <= end <= |s| && Unread(s, b1, end) && Ends(s, end))
  }

  /** The new record is nobody else's. */
  lemma NewIsApart(n: nat, a: int, kids: multiset<int>, others: multiset<int>, free: seq<int>)
    requires Conserved(n, Sum(multiset{a}, Sum(kids, others)), free)
    ensures a !in kids && a !in others && a !in Bag(free) && 0 <= a < n
  {
    UsedOnce(n, Sum(multiset{a}, Sum(kids, others)), free, a);
    assert Sum(multiset{a}, Sum(kids, others))[a] == 1 + kids[a] + others[a];
  }

  lemma FillParts(n: Node, others: multiset<int>, otherNames: multiset<seq<Byte>>)
    ensures Sum(multiset{n.at}, Sum(Addresses(n.kids), others)) == Sum(Addresses([n]), others)
    ensures Sum(Sum(Names(n.kids), otherNames), One(n.name)) == Sum(Names([n]), otherNames)
  {
    ConsParts(n, []);
  }

  lemma FreeListBut(tags: seq<Record>, p: int, free: seq<int>, a: int, r: Record)
    requires FreeList(tags, p, free) && 0 <= a < |tags| && a !in Bag(free)
    ensures FreeList(tags[a := r], p, free)
  {
    FreeKept(tags, tags[a := r], p, free);
  }

  lemma EmptyParts(others: multiset<int>, otherNames: multiset<seq<Byte>>)
    ensures Sum(Addresses([]), others) == others && Sum(Names([]), otherNames) == otherNames
  {
  }

  lemma CutBoth(s: seq<Byte>, b0: seq<Byte>, b1: seq<Byte>, b2: seq<Byte>, pos: nat, e: nat, end: int)
    requires Cut(b0, b1, pos) && ReadTo(s, b1, b2, e, end) && pos <= e
    ensures ReadTo(s, b0, b2, pos, end)
  {
    CutTwice(b0, b1, b2, pos, e);
  }

  /** The value of a key: one tag or none. */
  lemma ValueHeld(r: Parsed, end: int, tag: int, ns: seq<Node>, tags: seq<Record>)
    requires Outcome(r, end, tag, NIL, ns, tags) && r.Got?
    ensures Holds(tags, tag, ns) && end == r.end
    ensures TagsOf(ns) == if r.tag.None? then [] else [r.tag.value]
  {
    if ns != [] {
      assert ns == [ns[0]] + [];
      ConsParts(ns[0], []);
    }
  }

  lemma EmptyHeld(tags: seq<Record>)
    ensures Holds(tags, NIL, []) && TagsOf([]) == []
  {
  }

  lemma ReadFurther(s: seq<Byte>, b0: seq<Byte>, b1: seq<Byte>, b2: seq<Byte>, start: nat, pos: nat, end: int)
    requires ReadTo(s, b0, b1, start, pos) && ReadTo(s, b1, b2, pos, end)
    ensures ReadTo(s, b0, b2, start, end)
  {
    CutTwice(b0, b1, b2, start, pos);
  }

  // ----- the loop of ParseTagList

  /** The tags from start are docs and then those from pos. */
  ghost predicate Continues(s: seq<Byte>, start: nat, pos: nat, docs: seq<Tag>) {
    && start <= pos <= |s|
    && match ParseItems(s, pos)
       case NoList(u) => ParseItems(s, start) == NoList(u)
       case Items(tags, end) => ParseItems(s, start) == Items(docs + tags, end)
  }

  lemma StartList(s: seq<Byte>, b: seq<Byte>, start: nat)
    requires start <= |s| && Unread(s, b, start) && Ends(s, start)
    ensures ReadTo(s, b, b, start, start) && Continues(s, start, start, []) && TagsOf([]) == Reverse([])
  {
    hide ParseItems, Ends;
  }

  lemma ItemDefined(s: seq<Byte>, start: nat, pos: nat, docs: seq<Tag>, kind: Kind)
    requires Continues(s, start, pos, docs) && ParseList(s, start, kind) != Undefined
    ensures Parse(s, pos) != Undefined && !Parse(s, pos).Plist?
    ensures Parse(s, pos).Fail? ==> ParseList(s, start, kind).Fail?
  {
    hide Parse;
  }

  lemma LastItem(s: seq<Byte>, start: nat, pos: nat, docs: seq<Tag>, kind: Kind)
    requires Continues(s, start, pos, docs) && Parse(s, pos).Got? && Parse(s, pos).tag.None?
    ensures ParseList(s, start, kind) == Got(Some(Tag(kind, None, Reverse(docs))), Parse(s, pos).end)
  {
    hide Parse, Reverse;
    assert docs + [] == docs;
  }

  lemma NextItem(s: seq<Byte>, start: nat, pos: nat, docs: seq<Tag>, t: Tag)
    requires Continues(s, start, pos, docs) && Parse(s, pos).Got? && Parse(s, pos).tag == Some(t)
    ensures Continues(s, start, Parse(s, pos).end, docs + [t])
  {
    hide Parse;
    match ParseItems(s, Parse(s, pos).end)
    case NoList(u) =>
    case Items(tags, end) => assert docs + ([t] + tags) == docs + [t] + tags;
  }

  lemma {:induction false} ReverseAppend<T>(s: seq<T>, t: T)
    ensures Reverse(s + [t]) == [t] + Reverse(s)
  {
    if s == [] {
      assert s + [t] == [t] && Reverse([t]) == Reverse([t][1..]) + [t];
    } else {
      assert (s + [t])[1..] == s[1..] + [t];
      ReverseAppend(s[1..], t);
    }
  }

  lemma InFront(n: Node, list: seq<Node>, docs: seq<Tag>)
    requires TagsOf(list) == Reverse(docs)
    ensures TagsOf([n] + list) == Reverse(docs + [TagOf(n)])
  {
    ConsParts(n, list);
    ReverseAppend(docs, TagOf(n));
  }

  lemma LinkApart(tags: seq<Record>, p: int, one: seq<Node>, list: multiset<int>, others: multiset<int>, free: seq<int>)
    requires |one| == 1 && Holds(tags, p, one)
    requires Conserved(|tags|, Sum(Addresses(one), Sum(list, others)), free)
    ensures one == [one[0]] && p == one[0].at && 0 <= p < |tags|
    ensures p !in Addresses(one[0].kids) && p !in list && p !in others && p !in Bag(free)
  {
    assert one == [one[0]] + [];
    ConsParts(one[0], []);
    var used := Sum(Addresses(one), Sum(list, others));
    UsedOnce(|tags|, used, free, p);
    assert used[p] == 1 + Addresses(one[0].kids)[p] + list[p] + others[p];
  }

  lemma LinkedParts(n: Node, list: seq<Node>, others: multiset<int>, otherNames: multiset<seq<Byte>>)
    ensures Sum(Addresses([n]), Sum(Addresses(list), others)) == Sum(Addresses([n] + list), others)
    ensures Sum(Names([n]), Sum(Names(list), otherNames)) == Sum(Names([n] + list), otherNames)
  {
    ConsParts(n, list);
  }

  // ----- XMLParseNextTag

  lemma CutTag(s: seq<Byte>, b: seq<Byte>, start: nat, t: (nat, nat))
    requires Unread(s, b, start) && start <= t.0 < t.1 < |s|
    ensures Unread(s, b[t.1 := NUL], t.1 + 1) && Cut(b, b[t.1 := NUL], start) && NameAt(s, t) == b[t.0 + 1..t.1]
  {
  }

  lemma SameReadTo(s: seq<Byte>, b: seq<Byte>, pos: nat)
    requires pos <= |s| && Unread(s, b, pos) && Ends(s, pos)
    ensures ReadTo(s, b, b, pos, pos) && ReadTo(s, b, b, pos, -1)
  {
    hide Ends;
  }

  lemma AnyStale(r: Parsed, end: int, tag: int, stale: int, ns: seq<Node>, tags: seq<Record>)
    requires Outcome(r, end, tag, if r.Plist? then stale else NIL, ns, tags)
    ensures Outcome(r, end, tag, stale, ns, tags)
  {
    hide Holds;
  }

  lemma NoTag(pos: nat, stale: int, tags: seq<Record>)
    ensures Outcome(Got(None, pos), pos, NIL, NIL, [], tags) && Outcome(Plist(pos), pos, stale, stale, [], tags)
  {
  }
}
