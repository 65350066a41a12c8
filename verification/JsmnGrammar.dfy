/** The language jsmn_parse accepts, as document trees: a parse succeeds exactly on the texts that spell a document,
    and its tokens are that document in preorder. */
module JsmnGrammar {
  import opened JsmnSpec
  import opened JsmnLexemes

  /** A list of members, each with its span in the text. */
  datatype Doc =
    | Nil
    | Leaf(kind: Kind, start: nat, end: nat, rest: Doc)
    | Node(kind: Kind, start: nat, end: nat, kids: Doc, rest: Doc)
  {
    function Len(): nat {
      match this
      case Nil => 0
      case Leaf(_, _, _, rest) => 1 + rest.Len()
      case Node(_, _, _, _, rest) => 1 + rest.Len()
    }

    function Preorder(): seq<Token> {
      match this
      case Nil => []
      case Leaf(kind, start, end, rest) => [Token(kind, start, end, 0)] + rest.Preorder()
      case Node(kind, start, end, kids, rest) => [Token(kind, start, end, kids.Len())] + kids.Preorder() + rest.Preorder()
    }
  }

  function OpenChar(kind: Kind): char {
    if kind == Object then '{' else '['
  }

  function CloseChar(kind: Kind): char {
    if kind == Object then '}' else ']'
  }

  predicate Skips(js: string, p: nat, q: nat) {
    p <= q <= |js| && forall i | p <= i < q :: IsSeparator(js[i])
  }

  /** The text from p to q spells the members of doc. */
  ghost predicate Spells(js: string, p: nat, doc: Doc, q: nat)
    decreases doc
  {
    match doc
    case Nil => Skips(js, p, q)
    case Leaf(String, start, end, rest) =>
      && start > 0 && Skips(js, p, start - 1) && At(js, start - 1) == '\"'
      && IsString(js, start, end) && Spells(js, end + 1, rest, q)
    case Leaf(Primitive, start, end, rest) =>
      Skips(js, p, start) && IsValue(js, start, end) && Spells(js, end, rest, q)
    case Leaf(_, _, _, _) => false
    case Node(kind, start, end, kids, rest) =>
      && (kind == Object || kind == Array)
      && Skips(js, p, start) && At(js, start) == OpenChar(kind)
      && start + 2 <= end && Spells(js, start + 1, kids, end - 1) && At(js, end - 1) == CloseChar(kind)
      && Spells(js, end, rest, q)
  }

  // ----- the machine reads a document in one sweep

  /** n more direct members for the innermost open container. */
  function Bumped(toks: seq<Token>, stack: seq<nat>, n: nat): seq<Token>
    requires forall k | 0 <= k < |stack| :: stack[k] < |toks|
  {
    if stack == [] then toks
    else
      var t := stack[|stack| - 1];
      toks[t := toks[t].(size := toks[t].size + n)]
  }

  function After(s: State, doc: Doc, q: nat): (r: State)
    requires s.StackInRange()
    ensures r.StackInRange()
  {
    State(q, Bumped(s.toks, s.stack, doc.Len()) + doc.Preorder(), s.stack)
  }

  lemma {:induction false} RunSkips(js: string, s: State, cap: nat, q: nat)
    requires s.StackInRange() && Skips(js, s.pos, q)
    ensures Run(js, s, cap) == Run(js, s.(pos := q), cap)
    decreases q - s.pos
  {
    if s.pos < q {
      assert Step(js, s, cap) == Go(s.(pos := s.pos + 1));
      RunSkips(js, s.(pos := s.pos + 1), cap, q);
    }
  }

  /** The state after an opening bracket and the members behind it. */
  function Inside(s: State, kind: Kind, kids: Doc, r: nat): (g: State)
    requires s.StackInRange()
    ensures g.StackInRange() && g.stack != [] && g.toks[g.stack[|g.stack| - 1]].kind == kind && g.pos == r
  {
    State(r, s.Counted() + [Token(kind, s.pos, -1, kids.Len())] + kids.Preorder(), s.stack + [|s.toks|])
  }

  /** The state after the closing bracket. */
  function Outside(s: State, kind: Kind, kids: Doc, r: nat): (g: State)
    requires s.StackInRange()
    ensures g.StackInRange() && g.stack == s.stack && g.pos == r + 1 && |g.toks| == |s.toks| + 1 + |kids.Preorder()|
    ensures g.stack != [] ==> g.toks[g.stack[|g.stack| - 1]].kind == s.toks[s.stack[|s.stack| - 1]].kind
  {
    State(r + 1, s.Counted() + [Token(kind, s.pos, r + 1, kids.Len())] + kids.Preorder(), s.stack)
  }

  lemma AfterOpen(s: State, kind: Kind, kids: Doc, r: nat)
    requires s.StackInRange()
    ensures After(s.Open(kind), kids, r) == Inside(s, kind, kids, r)
  {
  }

  lemma AfterClose(s: State, kind: Kind, kids: Doc, r: nat)
    requires s.StackInRange()
    ensures Inside(s, kind, kids, r).Close() == Outside(s, kind, kids, r)
  {
    var g, n := Inside(s, kind, kids, r), |s.toks|;
    var T, K := s.Counted(), kids.Preorder();
    assert g.stack[..|g.stack| - 1] == s.stack;
    assert (T + [Token(kind, s.pos, -1, kids.Len())] + K)[n := Token(kind, s.pos, r + 1, kids.Len())]
        == T + [Token(kind, s.pos, r + 1, kids.Len())] + K;
  }

  lemma BumpedMore(s: State, t: Token, K: seq<Token>, m: nat)
    requires s.StackInRange()
    ensures Bumped(s.Counted() + [t] + K, s.stack, m) == Bumped(s.toks, s.stack, m + 1) + [t] + K
  {
  }

  lemma Regroup(B: seq<Token>, t: Token, K: seq<Token>, R: seq<Token>)
    ensures (B + [t] + K) + R == B + ([t] + K + R)
  {
  }

  /** Opening, reading the members, and closing leave one more member with its final token. */
  lemma AfterNode(s: State, kind: Kind, kids: Doc, r: nat, rest: Doc, q: nat)
    requires s.StackInRange()
    ensures After(Outside(s, kind, kids, r), rest, q) == After(s, Node(kind, s.pos, r + 1, kids, rest), q)
  {
    var t, K := Token(kind, s.pos, r + 1, kids.Len()), kids.Preorder();
    BumpedMore(s, t, K, rest.Len());
    hide Bumped;
    Regroup(Bumped(s.toks, s.stack, rest.Len() + 1), t, K, rest.Preorder());
  }

  lemma RegroupLeaf(B: seq<Token>, t: Token, R: seq<Token>)
    ensures (B + [t]) + R == B + ([t] + R)
  {
  }

  lemma BumpedOne(s: State, t: Token, m: nat)
    requires s.StackInRange()
    ensures Bumped(s.Counted() + [t], s.stack, m) == Bumped(s.toks, s.stack, m + 1) + [t]
  {
  }

  lemma AfterLeaf(s: State, kind: Kind, start: nat, end: nat, next: nat, rest: Doc, q: nat)
    requires s.StackInRange()
    ensures After(s.Leaf(kind, start, end, next), rest, q) == After(s, Leaf(kind, start, end, rest), q)
  {
    var t, n := Token(kind, start, end, 0), rest.Len();
    BumpedOne(s, t, n);
    hide Bumped;
    RegroupLeaf(Bumped(s.toks, s.stack, n + 1), t, rest.Preorder());
  }

  // one lexeme each

  lemma RunString(js: string, s: State, cap: nat, start: nat, end: nat)
    requires s.StackInRange() && start > 0 && Skips(js, s.pos, start - 1) && At(js, start - 1) == '\"'
    requires IsString(js, start, end) && |s.toks| < cap
    ensures Run(js, s, cap) == Run(js, s.Leaf(String, start, end, end + 1), cap)
  {
    StringExact(js, start);
    hide IsString, ScanString;
    RunSkips(js, s, cap, start - 1);
    assert Step(js, s.(pos := start - 1), cap) == Go(s.Leaf(String, start, end, end + 1));
  }

  lemma RunPrimitive(js: string, s: State, cap: nat, start: nat, end: nat)
    requires s.StackInRange() && Skips(js, s.pos, start) && IsValue(js, start, end) && |s.toks| < cap
    ensures Run(js, s, cap) == Run(js, s.Leaf(Primitive, start, end, end), cap)
  {
    ValueExact(js, start);
    hide IsBadValue, ScanPrimitive, PlainTo;
    RunSkips(js, s, cap, start);
    assert Step(js, s.(pos := start), cap) == Go(s.Leaf(Primitive, start, end, end));
  }

  lemma RunOpen(js: string, s: State, cap: nat, kind: Kind, start: nat)
    requires s.StackInRange() && Skips(js, s.pos, start) && At(js, start) == OpenChar(kind) && |s.toks| < cap
    requires kind == Object || kind == Array
    ensures Run(js, s, cap) == Run(js, s.(pos := start).Open(kind), cap)
  {
    RunSkips(js, s, cap, start);
    assert Step(js, s.(pos := start), cap) == Go(s.(pos := start).Open(kind));
  }

  lemma RunClose(js: string, s: State, cap: nat, kind: Kind)
    requires s.StackInRange() && s.stack != [] && s.toks[s.stack[|s.stack| - 1]].kind == kind
    requires (kind == Object || kind == Array) && At(js, s.pos) == CloseChar(kind)
    ensures Run(js, s, cap) == Run(js, s.Close(), cap)
  {
    assert Step(js, s, cap) == Go(s.Close());
  }

  lemma {:induction false} RunSpells(js: string, s: State, cap: nat, doc: Doc, q: nat)
    requires s.StackInRange() && Spells(js, s.pos, doc, q) && |s.toks| + |doc.Preorder()| <= cap
    ensures Run(js, s, cap) == Run(js, After(s, doc, q), cap)
    decreases doc, 1
  {
    hide Run, Step, State.Open, State.Close, ScanString, ScanPrimitive, Bumped;
    match doc
    case Nil =>
      RunSkips(js, s, cap, q);
      AfterNil(s, q);
    case Leaf(String, start, end, rest) =>
      RunString(js, s, cap, start, end);
      RunSpells(js, s.Leaf(String, start, end, end + 1), cap, rest, q);
      AfterLeaf(s, String, start, end, end + 1, rest, q);
    case Leaf(Object, _, _, _) =>
    case Leaf(Array, _, _, _) =>
    case Leaf(Primitive, start, end, rest) =>
      RunPrimitive(js, s, cap, start, end);
      RunSpells(js, s.Leaf(Primitive, start, end, end), cap, rest, q);
      AfterLeaf(s, Primitive, start, end, end, rest, q);
    case Node(kind, start, end, kids, rest) =>
      RunNode(js, s.(pos := start), cap, doc, q);
      RunOpen(js, s, cap, kind, start);
  }

  lemma AfterNil(s: State, q: nat)
    requires s.StackInRange()
    ensures After(s, Nil, q) == s.(pos := q)
  {
  }

  lemma OpenState(s: State, kind: Kind)
    requires s.StackInRange()
    ensures s.Open(kind).pos == s.pos + 1 && |s.Open(kind).toks| == |s.toks| + 1
    ensures var g := s.Open(kind); g.stack != [] && g.toks[g.stack[|g.stack| - 1]].kind == kind
  {
  }

  lemma NodeSpells(js: string, doc: Doc, q: nat)
    requires doc.Node? && Spells(js, doc.start, doc, q)
    ensures (doc.kind == Object || doc.kind == Array) && doc.start + 2 <= doc.end
    ensures Spells(js, doc.start + 1, doc.kids, doc.end - 1) && At(js, doc.end - 1) == CloseChar(doc.kind)
    ensures Spells(js, doc.end, doc.rest, q)
    ensures |doc.Preorder()| == 1 + |doc.kids.Preorder()| + |doc.rest.Preorder()|
  {
  }

  lemma {:induction false} RunNode(js: string, s: State, cap: nat, doc: Doc, q: nat)
    requires s.StackInRange() && doc.Node? && s.pos == doc.start && Spells(js, s.pos, doc, q)
    requires |s.toks| + |doc.Preorder()| <= cap
    ensures Run(js, s.Open(doc.kind), cap) == Run(js, After(s, doc, q), cap)
    decreases doc, 0
  {
    var kind, r, kids, rest := doc.kind, doc.end - 1, doc.kids, doc.rest;
    NodeSpells(js, doc, q);
    AfterNode(s, kind, kids, r, rest, q);
    assert doc == Node(kind, s.pos, r + 1, kids, rest);
    hide Run, Step, State.Open, State.Close, Bumped, Inside, Outside, After, Spells, Doc.Preorder, At;
    RunMembers(js, s, cap, kind, kids, r);
    RunSpells(js, Outside(s, kind, kids, r), cap, rest, q);
  }

  /** From the opening bracket to behind the closing one. */
  lemma {:induction false} RunMembers(js: string, s: State, cap: nat, kind: Kind, kids: Doc, r: nat)
    requires s.StackInRange() && (kind == Object || kind == Array)
    requires Spells(js, s.pos + 1, kids, r) && At(js, r) == CloseChar(kind) && |s.toks| + 1 + |kids.Preorder()| <= cap
    ensures Run(js, s.Open(kind), cap) == Run(js, Outside(s, kind, kids, r), cap)
    decreases kids, 2
  {
    OpenState(s, kind);
    AfterOpen(s, kind, kids, r);
    AfterClose(s, kind, kids, r);
    hide Run, Step, State.Open, State.Close, Bumped, Inside, Outside, After, Spells, Doc.Preorder, At;
    RunSpells(js, s.Open(kind), cap, kids, r);
    RunClose(js, Inside(s, kind, kids, r), cap, kind);
  }

  // ----- a successful run has read a document

  lemma SpellsFrom(js: string, p: nat, doc: Doc, q: nat)
    requires Spells(js, p + 1, doc, q) && p < |js| && IsSkipped(js[p])
    ensures Spells(js, p, doc, q)
  {
  }

  lemma StringSpells(js: string, p: nat, rest: Doc, q: nat)
    requires At(js, p) == '\"' && ScanString(js, p + 1).Found? && Spells(js, ScanString(js, p + 1).end + 1, rest, q) && p <= |js|
    ensures var doc := Leaf(String, p + 1, ScanString(js, p + 1).end, rest);
      Spells(js, p, doc, q) && |doc.Preorder()| == 1 + |rest.Preorder()|
  {
    StringExact(js, p + 1);
    hide ScanString, IsString;
  }

  lemma PrimitiveSpells(js: string, p: nat, rest: Doc, q: nat)
    requires StartsValue(At(js, p)) && ScanPrimitive(js, p).Found? && Spells(js, ScanPrimitive(js, p).end, rest, q) && p <= |js|
    ensures var doc := Leaf(Primitive, p, ScanPrimitive(js, p).end, rest);
      Spells(js, p, doc, q) && |doc.Preorder()| == 1 + |rest.Preorder()|
  {
    ValueExact(js, p);
    hide ScanPrimitive, IsValue;
  }

  /** What ends the members at the present depth. */
  predicate EndsLevel(js: string, s: State, q: nat)
    requires s.StackInRange()
  {
    if s.stack == [] then At(js, q) == '\0'
    else At(js, q) != '\0' && At(js, q) == CloseChar(s.toks[s.stack[|s.stack| - 1]].kind)
  }

  ghost predicate Reads(js: string, s: State, cap: nat, doc: Doc, q: nat)
    requires s.StackInRange()
  {
    Spells(js, s.pos, doc, q) && |s.toks| + |doc.Preorder()| <= cap && EndsLevel(js, s, q) && q <= |js|
  }

  lemma {:induction false} SuccessReads(js: string, s: State, cap: nat) returns (doc: Doc, q: nat)
    requires s.StackInRange() && s.pos <= |js| && |s.toks| <= cap && Run(js, s, cap).code == Success
    ensures Reads(js, s, cap, doc, q)
    decreases |js| - s.pos, 2
  {
    var c := At(js, s.pos);
    if c == '\0' || c == '}' || c == ']' {
      doc, q := Nil, s.pos;
    } else if c == '{' || c == '[' {
      doc, q := OpenReads(js, s, cap);
    } else {
      doc, q := OtherReads(js, s, cap);
    }
  }

  /** The same container is innermost. */
  predicate EndsSame(s: State, t: State)
    requires s.StackInRange() && t.StackInRange()
  {
    && t.stack == s.stack
    && (s.stack != [] ==> t.toks[t.stack[|t.stack| - 1]].kind == s.toks[s.stack[|s.stack| - 1]].kind)
  }

  lemma RunGoes(js: string, s: State, cap: nat)
    requires s.StackInRange() && At(js, s.pos) !in {'\0', '{', '[', '}', ']'} && Run(js, s, cap).code == Success
    ensures Step(js, s, cap).Go? && Run(js, Step(js, s, cap).next, cap).code == Success
  {
  }

  /** What a step over a skipped character, a string or a primitive leads to. */
  lemma OtherStep(js: string, s: State, cap: nat)
    requires s.StackInRange() && |s.toks| <= cap && At(js, s.pos) !in {'\0', '{', '[', '}', ']'}
    requires Step(js, s, cap).Go?
    ensures var c, next := At(js, s.pos), Step(js, s, cap).next;
      && EndsSame(s, next) && s.pos < next.pos <= |js| && |next.toks| <= cap
      && (IsSkipped(c) ==> next == s.(pos := s.pos + 1))
      && (c == '\"' ==> var e := ScanString(js, s.pos + 1);
        e.Found? && next.pos == e.end + 1 && |next.toks| == |s.toks| + 1)
      && (!IsSkipped(c) && c != '\"' ==> var e := ScanPrimitive(js, s.pos);
        e.Found? && next.pos == e.end && |next.toks| == |s.toks| + 1)
  {
  }

  lemma ReadsFrom(js: string, s: State, next: State, cap: nat, rest: Doc, doc: Doc, q: nat)
    requires s.StackInRange() && next.StackInRange() && EndsSame(s, next) && Reads(js, next, cap, rest, q)
    requires Spells(js, s.pos, doc, q) && |s.toks| + |doc.Preorder()| <= |next.toks| + |rest.Preorder()|
    ensures Reads(js, s, cap, doc, q)
  {
    hide Spells, Doc.Preorder;
  }

  lemma {:induction false} OtherReads(js: string, s: State, cap: nat) returns (doc: Doc, q: nat)
    requires s.StackInRange() && s.pos <= |js| && |s.toks| <= cap && Run(js, s, cap).code == Success
    requires At(js, s.pos) !in {'\0', '{', '[', '}', ']'}
    ensures Reads(js, s, cap, doc, q)
    decreases |js| - s.pos, 0
  {
    var c := At(js, s.pos);
    RunGoes(js, s, cap);
    OtherStep(js, s, cap);
    hide Run, Step, ScanString, ScanPrimitive, Spells, Doc.Preorder, EndsSame, EndsLevel;
    var next, rest := Step(js, s, cap).next, Nil;
    rest, q := SuccessReads(js, next, cap);
    if IsSkipped(c) {
      SpellsFrom(js, s.pos, rest, q);
      doc := rest;
    } else if c == '\"' {
      StringSpells(js, s.pos, rest, q);
      doc := Leaf(String, s.pos + 1, ScanString(js, s.pos + 1).end, rest);
    } else {
      PrimitiveSpells(js, s.pos, rest, q);
      doc := Leaf(Primitive, s.pos, ScanPrimitive(js, s.pos).end, rest);
    }
    ReadsFrom(js, s, next, cap, rest, doc, q);
  }

  lemma {:induction false} SpellsForward(js: string, p: nat, doc: Doc, q: nat)
    requires Spells(js, p, doc, q)
    ensures p <= q
    decreases doc
  {
    match doc
    case Nil =>
    case Leaf(String, start, end, rest) => SpellsForward(js, end + 1, rest, q);
    case Leaf(Object, _, _, _) =>
    case Leaf(Array, _, _, _) =>
    case Leaf(Primitive, start, end, rest) => SpellsForward(js, end, rest, q);
    case Node(_, start, end, kids, rest) => SpellsForward(js, end, rest, q);
  }

  lemma NodeReads(js: string, s: State, cap: nat, kind: Kind, kids: Doc, r: nat, rest: Doc, q: nat)
    requires s.StackInRange() && (kind == Object || kind == Array) && At(js, s.pos) == OpenChar(kind) && s.pos < r < |js|
    requires Spells(js, s.pos + 1, kids, r) && At(js, r) == CloseChar(kind) && Spells(js, r + 1, rest, q)
    requires |s.toks| + 1 + |kids.Preorder()| + |rest.Preorder()| <= cap && EndsLevel(js, s, q) && q <= |js|
    ensures Reads(js, s, cap, Node(kind, s.pos, r + 1, kids, rest), q)
  {
  }

  lemma OpenRuns(js: string, s: State, cap: nat, kind: Kind)
    requires s.StackInRange() && s.pos < |js| && |s.toks| <= cap && Run(js, s, cap).code == Success
    requires (kind == Object || kind == Array) && At(js, s.pos) == OpenChar(kind)
    ensures |s.toks| < cap && Run(js, s, cap) == Run(js, s.Open(kind), cap)
  {
  }

  lemma {:induction false} OpenReads(js: string, s: State, cap: nat) returns (doc: Doc, q: nat)
    requires s.StackInRange() && s.pos < |js| && |s.toks| <= cap && Run(js, s, cap).code == Success
    requires At(js, s.pos) == '{' || At(js, s.pos) == '['
    ensures Reads(js, s, cap, doc, q)
    decreases |js| - s.pos, 1
  {
    var kind := if At(js, s.pos) == '{' then Object else Array;
    OpenRuns(js, s, cap, kind);
    OpenState(s, kind);
    hide Run, Step, Spells, State.Open;
    var kids, r := SuccessReads(js, s.Open(kind), cap);
    SpellsForward(js, s.pos + 1, kids, r);
    var rest;
    rest, q := CloseReads(js, s, cap, kind, kids, r);
    NodeReads(js, s, cap, kind, kids, r, rest, q);
    doc := Node(kind, s.pos, r + 1, kids, rest);
  }

  /** Behind the members of the container opened at s, its bracket closes and reading goes on. */
  lemma {:induction false} CloseReads(js: string, s: State, cap: nat, kind: Kind, kids: Doc, r: nat) returns (rest: Doc, q: nat)
    requires s.StackInRange() && s.pos < |js| && (kind == Object || kind == Array)
    requires Reads(js, s.Open(kind), cap, kids, r) && At(js, r) == CloseChar(kind) && s.pos < r < |js|
    requires Run(js, s.Open(kind), cap).code == Success
    ensures Spells(js, r + 1, rest, q) && EndsLevel(js, s, q) && q <= |js|
    ensures |s.toks| + 1 + |kids.Preorder()| + |rest.Preorder()| <= cap
    decreases |js| - s.pos, 0
  {
    hide Run, Step, Bumped, State.Open, State.Close, After, Inside, Outside;
    OpenState(s, kind);
    RunMembers(js, s, cap, kind, kids, r);
    rest, q := SuccessReads(js, Outside(s, kind, kids, r), cap);
  }

  /** The text up to its end spells doc, which has at most cap tokens. */
  ghost predicate IsDocument(js: string, cap: nat, doc: Doc, q: nat) {
    Spells(js, 0, doc, q) && At(js, q) == '\0' && |doc.Preorder()| <= cap
  }

  lemma FreshReads(js: string, cap: nat, doc: Doc, q: nat)
    requires Reads(js, State(0, [], []), cap, doc, q)
    ensures IsDocument(js, cap, doc, q)
  {
    hide Spells, Doc.Preorder;
  }

  /** jsmn_parse succeeds exactly on the texts that spell a document of at most cap tokens, and yields its preorder. */
  lemma ParsesDocuments(js: string, cap: nat)
    ensures Run(js, State(0, [], []), cap).code == Success <==> exists doc, q :: IsDocument(js, cap, doc, q)
    ensures forall doc, q | IsDocument(js, cap, doc, q) ::
      Run(js, State(0, [], []), cap) == Result(Success, State(q, doc.Preorder(), []))
  {
    hide Run, Reads;
    forall doc, q | IsDocument(js, cap, doc, q)
      ensures Run(js, State(0, [], []), cap) == Result(Success, State(q, doc.Preorder(), []))
    {
      DocumentRuns(js, cap, doc, q);
    }
    if Run(js, State(0, [], []), cap).code == Success {
      var doc, q := SuccessReads(js, State(0, [], []), cap);
      FreshReads(js, cap, doc, q);
    }
  }

  lemma DocumentRuns(js: string, cap: nat, doc: Doc, q: nat)
    requires IsDocument(js, cap, doc, q)
    ensures Run(js, State(0, [], []), cap) == Result(Success, State(q, doc.Preorder(), []))
  {
    RunSpells(js, State(0, [], []), cap, doc, q);
  }
}
