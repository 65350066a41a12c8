/** Which texts jsmn_parse calls cut short and which it calls invalid, given a token for each of them. */
module JsmnFailures {
  import opened JsmnSpec
  import opened JsmnLexemes
  import opened JsmnGrammar

  /** The members in front of a bracket that is still open. */
  datatype Level = Level(doc: Doc, kind: Kind, at: nat)

  /** The text up to q spells the levels, each with its bracket, and doc behind the last one. */
  ghost predicate SpellsOpen(js: string, levels: seq<Level>, doc: Doc, q: nat)
    decreases |levels|
  {
    if levels == [] then Spells(js, 0, doc, q)
    else
      var l := levels[|levels| - 1];
      && SpellsOpen(js, levels[..|levels| - 1], l.doc, l.at)
      && (l.kind == Object || l.kind == Array) && At(js, l.at) == OpenChar(l.kind) && Spells(js, l.at + 1, doc, q)
  }

  predicate Innermost(levels: seq<Level>, kind: Kind) {
    levels != [] && levels[|levels| - 1].kind == kind
  }

  /** The text ends within a container or a string. */
  ghost predicate IsCut(js: string, levels: seq<Level>, q: nat) {
    || (At(js, q) == '\0' && levels != [])
    || (At(js, q) == '\"' && Unclosed(js, q + 1))
  }

  /** A bracket that closes nothing, a bad escape in a string, or a bad character in a value. */
  ghost predicate IsWrong(js: string, levels: seq<Level>, q: nat) {
    || (At(js, q) == '}' && !Innermost(levels, Object))
    || (At(js, q) == ']' && !Innermost(levels, Array))
    || (At(js, q) == '\"' && BadEscape(js, q + 1))
    || (StartsValue(At(js, q)) && BadValue(js, q))
  }

  // ----- one member more

  function Append(a: Doc, b: Doc): Doc {
    match a
    case Nil => b
    case Leaf(kind, start, end, rest) => Leaf(kind, start, end, Append(rest, b))
    case Node(kind, start, end, kids, rest) => Node(kind, start, end, kids, Append(rest, b))
  }

  lemma SpellsBehind(js: string, p: nat, m: nat, doc: Doc, q: nat)
    requires Skips(js, p, m) && Spells(js, m, doc, q)
    ensures Spells(js, p, doc, q)
  {
  }

  lemma {:induction false} SpellsAppend(js: string, p: nat, a: Doc, m: nat, b: Doc, q: nat)
    requires Spells(js, p, a, m) && Spells(js, m, b, q)
    ensures Spells(js, p, Append(a, b), q)
    decreases a
  {
    hide IsString, IsValue, At;
    match a
    case Nil => SpellsBehind(js, p, m, b, q);
    case Leaf(String, _, end, rest) => SpellsAppend(js, end + 1, rest, m, b, q);
    case Leaf(Primitive, _, end, rest) => SpellsAppend(js, end, rest, m, b, q);
    case Leaf(_, _, _, _) =>
    case Node(_, _, end, _, rest) => SpellsAppend(js, end, rest, m, b, q);
  }

  lemma OpenAppend(js: string, levels: seq<Level>, a: Doc, m: nat, b: Doc, q: nat)
    requires SpellsOpen(js, levels, a, m) && Spells(js, m, b, q)
    ensures SpellsOpen(js, levels, Append(a, b), q)
  {
    hide Spells;
    var p := if levels == [] then 0 else levels[|levels| - 1].at + 1;
    SpellsAppend(js, p, a, m, b, q);
  }

  // ----- whatever the machine has read is spelled

  /** The machine stands behind the levels and doc, with their brackets open. */
  ghost predicate Has(js: string, s: State, levels: seq<Level>, doc: Doc)
    requires s.StackInRange()
  {
    && SpellsOpen(js, levels, doc, s.pos) && |s.stack| == |levels| && s.pos <= |js|
    && forall i | 0 <= i < |levels| :: s.toks[s.stack[i]].kind == levels[i].kind
  }

  lemma KindsKept(s: State, t: State, levels: seq<Level>)
    requires s.StackInRange() && t.StackInRange() && |s.stack| == |levels| && s.stack == t.stack
    requires |s.toks| <= |t.toks| && forall k | 0 <= k < |s.toks| :: t.toks[k].kind == s.toks[k].kind
    requires forall i | 0 <= i < |levels| :: s.toks[s.stack[i]].kind == levels[i].kind
    ensures forall i | 0 <= i < |levels| :: t.toks[t.stack[i]].kind == levels[i].kind
  {
  }

  lemma SkipHas(js: string, s: State, levels: seq<Level>, doc: Doc)
    requires s.StackInRange() && Has(js, s, levels, doc) && IsSeparator(At(js, s.pos))
    ensures Has(js, s.(pos := s.pos + 1), levels, Append(doc, Nil))
  {
    OpenAppend(js, levels, doc, s.pos, Nil, s.pos + 1);
  }

  lemma LeafHas(js: string, s: State, levels: seq<Level>, doc: Doc, kind: Kind, start: nat, end: nat, next: nat)
    requires s.StackInRange() && Has(js, s, levels, doc) && next <= |js|
    requires Spells(js, s.pos, Leaf(kind, start, end, Nil), next)
    ensures Has(js, s.Leaf(kind, start, end, next), levels, Append(doc, Leaf(kind, start, end, Nil)))
  {
    hide Spells, SpellsOpen;
    OpenAppend(js, levels, doc, s.pos, Leaf(kind, start, end, Nil), next);
    KindsKept(s, s.Leaf(kind, start, end, next), levels);
  }

  lemma OpenHas(js: string, s: State, levels: seq<Level>, doc: Doc, kind: Kind)
    requires s.StackInRange() && Has(js, s, levels, doc) && s.pos < |js|
    requires (kind == Object || kind == Array) && At(js, s.pos) == OpenChar(kind)
    ensures Has(js, s.Open(kind), levels + [Level(doc, kind, s.pos)], Nil)
  {
    var all, t := levels + [Level(doc, kind, s.pos)], s.Open(kind);
    assert all[..|all| - 1] == levels;
    KindsKept(s, State(t.pos, t.toks, s.stack), levels);
  }

  lemma CloseHas(js: string, s: State, levels: seq<Level>, doc: Doc)
    requires s.StackInRange() && Has(js, s, levels, doc) && s.pos < |js|
    requires levels != [] && At(js, s.pos) == CloseChar(levels[|levels| - 1].kind)
    ensures var l := levels[|levels| - 1];
            Has(js, s.Close(), levels[..|levels| - 1], Append(l.doc, Node(l.kind, l.at, s.pos + 1, doc, Nil)))
  {
    var l, front := levels[|levels| - 1], levels[..|levels| - 1];
    SpellsForward(js, l.at + 1, doc, s.pos);
    assert Spells(js, l.at, Node(l.kind, l.at, s.pos + 1, doc, Nil), s.pos + 1);
    hide Spells;
    OpenAppend(js, front, l.doc, l.at, Node(l.kind, l.at, s.pos + 1, doc, Nil), s.pos + 1);
  }

  lemma BracketHas(js: string, s: State, cap: nat, levels: seq<Level>, doc: Doc) returns (levels': seq<Level>, doc': Doc)
    requires s.StackInRange() && At(js, s.pos) in {'{', '[', '}', ']'} && Step(js, s, cap).Go? && Has(js, s, levels, doc)
    ensures Has(js, Step(js, s, cap).next, levels', doc')
  {
    var c := At(js, s.pos);
    if c == '{' || c == '[' {
      var kind := if c == '{' then Object else Array;
      OpenHas(js, s, levels, doc, kind);
      levels', doc' := levels + [Level(doc, kind, s.pos)], Nil;
    } else {
      var l := levels[|levels| - 1];
      CloseHas(js, s, levels, doc);
      levels', doc' := levels[..|levels| - 1], Append(l.doc, Node(l.kind, l.at, s.pos + 1, doc, Nil));
    }
  }

  lemma MemberHas(js: string, s: State, cap: nat, levels: seq<Level>, doc: Doc) returns (doc': Doc)
    requires s.StackInRange() && At(js, s.pos) !in {'\0', '{', '[', '}', ']'} && Step(js, s, cap).Go? && Has(js, s, levels, doc)
    ensures Has(js, Step(js, s, cap).next, levels, doc')
  {
    var c, next := At(js, s.pos), Step(js, s, cap).next;
    if IsSeparator(c) {
      SkipHas(js, s, levels, doc);
      doc' := Append(doc, Nil);
    } else if c == '\"' {
      doc' := StringHas(js, s, cap, levels, doc);
    } else {
      doc' := ValueHas(js, s, cap, levels, doc);
    }
  }

  lemma StringHas(js: string, s: State, cap: nat, levels: seq<Level>, doc: Doc) returns (doc': Doc)
    requires s.StackInRange() && At(js, s.pos) == '\"' && Step(js, s, cap).Go? && Has(js, s, levels, doc)
    ensures Has(js, Step(js, s, cap).next, levels, doc')
  {
    var e := ScanString(js, s.pos + 1).end;
    assert Step(js, s, cap).next == s.Leaf(String, s.pos + 1, e, e + 1);
    hide Has, Step, ScanString;
    EmptyDoc(js, e + 1);
    StringSpells(js, s.pos, Nil, e + 1);
    LeafHas(js, s, levels, doc, String, s.pos + 1, e, e + 1);
    doc' := Append(doc, Leaf(String, s.pos + 1, e, Nil));
  }

  lemma ValueHas(js: string, s: State, cap: nat, levels: seq<Level>, doc: Doc) returns (doc': Doc)
    requires s.StackInRange() && StartsValue(At(js, s.pos)) && Step(js, s, cap).Go? && Has(js, s, levels, doc)
    ensures Has(js, Step(js, s, cap).next, levels, doc')
  {
    var e := ScanPrimitive(js, s.pos).end;
    assert Step(js, s, cap).next == s.Leaf(Primitive, s.pos, e, e);
    hide Has, Step, ScanPrimitive;
    EmptyDoc(js, e);
    PrimitiveSpells(js, s.pos, Nil, e);
    LeafHas(js, s, levels, doc, Primitive, s.pos, e, e);
    doc' := Append(doc, Leaf(Primitive, s.pos, e, Nil));
  }

  lemma EmptyDoc(js: string, p: nat)
    requires p <= |js|
    ensures Spells(js, p, Nil, p)
  {
  }

  lemma StepHas(js: string, s: State, cap: nat, levels: seq<Level>, doc: Doc) returns (levels': seq<Level>, doc': Doc)
    requires s.StackInRange() && At(js, s.pos) != '\0' && Step(js, s, cap).Go? && Has(js, s, levels, doc)
    ensures Has(js, Step(js, s, cap).next, levels', doc')
  {
    hide Has, Step;
    levels' := levels;
    if At(js, s.pos) in {'{', '[', '}', ']'} {
      levels', doc' := BracketHas(js, s, cap, levels, doc);
    } else {
      doc' := MemberHas(js, s, cap, levels, doc);
    }
  }

  lemma {:induction false} RunHas(js: string, s: State, cap: nat, levels: seq<Level>, doc: Doc) returns (levels': seq<Level>, doc': Doc)
    requires s.StackInRange() && Has(js, s, levels, doc)
    ensures var r := Run(js, s, cap); Has(js, r.last, levels', doc') && r == Run(js, r.last, cap) && Stopped(js, r.last, cap)
    decreases |js| - s.pos
  {
    levels', doc' := levels, doc;
    if At(js, s.pos) != '\0' && Step(js, s, cap).Go? {
      levels', doc' := StepHas(js, s, cap, levels, doc);
      levels', doc' := RunHas(js, Step(js, s, cap).next, cap, levels', doc');
    }
  }

  predicate Stopped(js: string, s: State, cap: nat)
    requires s.StackInRange()
  {
    At(js, s.pos) == '\0' || Step(js, s, cap).Stop?
  }

  // ----- whatever is spelled, the machine reads

  /** Every token takes up a character. */
  lemma {:induction false} TokensFit(js: string, p: nat, doc: Doc, q: nat)
    requires Spells(js, p, doc, q)
    ensures p + |doc.Preorder()| <= q <= |js|
    decreases doc
  {
    hide IsString, IsValue;
    match doc
    case Nil =>
    case Leaf(String, start, end, rest) =>
      assert start <= end by {
        LexemeForward(js, start, end);
      }
      TokensFit(js, end + 1, rest, q);
    case Leaf(Primitive, start, end, rest) =>
      assert start < end by {
        LexemeForward(js, start, end);
      }
      TokensFit(js, end, rest, q);
    case Leaf(_, _, _, _) =>
    case Node(_, start, end, kids, rest) =>
      TokensFit(js, start + 1, kids, end - 1);
      TokensFit(js, end, rest, q);
  }

  lemma LexemeForward(js: string, start: nat, end: nat)
    ensures IsString(js, start, end) ==> start <= end
    ensures IsValue(js, start, end) ==> start < end
  {
  }

  lemma AfterHas(js: string, s: State, levels: seq<Level>, a: Doc, doc: Doc, q: nat)
    requires s.StackInRange() && Has(js, s, levels, a) && SpellsOpen(js, levels, doc, q) && q <= |js|
    ensures Has(js, After(s, doc, q), levels, doc)
  {
    hide SpellsOpen;
    KindsKept(s, After(s, doc, q), levels);
  }

  lemma FreshHas(js: string)
    ensures Has(js, State(0, [], []), [], Nil)
  {
  }

  lemma {:induction false} Reaches(js: string, cap: nat, levels: seq<Level>, doc: Doc, q: nat) returns (t: State)
    requires SpellsOpen(js, levels, doc, q) && |js| <= cap
    ensures t.StackInRange() && t.pos == q && Has(js, t, levels, doc) && |t.toks| <= q
    ensures Run(js, State(0, [], []), cap) == Run(js, t, cap)
    decreases |levels|
  {
    var s := State(0, [], []);
    if levels == [] {
      FreshHas(js);
    } else {
      var l := levels[|levels| - 1];
      var t0 := Reaches(js, cap, levels[..|levels| - 1], l.doc, l.at);
      s := OpenReached(js, cap, t0, levels, doc, q);
    }
    TokensFit(js, s.pos, doc, q);
    hide Run, Has, SpellsOpen, Spells;
    RunSpells(js, s, cap, doc, q);
    AfterHas(js, s, levels, Nil, doc, q);
    AfterSize(s, doc, q);
    t := After(s, doc, q);
  }

  lemma AfterSize(s: State, doc: Doc, q: nat)
    requires s.StackInRange()
    ensures |After(s, doc, q).toks| == |s.toks| + |doc.Preorder()| && After(s, doc, q).pos == q
  {
  }

  lemma OpenReached(js: string, cap: nat, t0: State, levels: seq<Level>, doc: Doc, q: nat) returns (s: State)
    requires levels != [] && SpellsOpen(js, levels, doc, q) && |js| <= cap && t0.StackInRange()
    requires var l := levels[|levels| - 1];
      t0.pos == l.at && Has(js, t0, levels[..|levels| - 1], l.doc) && |t0.toks| <= l.at
    ensures s.StackInRange() && Has(js, s, levels, Nil) && s.pos == levels[|levels| - 1].at + 1 && |s.toks| <= s.pos
    ensures Spells(js, s.pos, doc, q) && Run(js, t0, cap) == Run(js, s, cap)
  {
    var l, front := levels[|levels| - 1], levels[..|levels| - 1];
    s := t0.Open(l.kind);
    assert front + [Level(l.doc, l.kind, l.at)] == levels;
    hide Run, Spells;
    RunOpen(js, t0, cap, l.kind, l.at);
    OpenHas(js, t0, front, l.doc, l.kind);
    OpenState(t0, l.kind);
  }

  // ----- the two failures

  lemma FailsAt(js: string, s: State, cap: nat, levels: seq<Level>, doc: Doc)
    requires s.StackInRange() && Has(js, s, levels, doc) && (s.pos < |js| ==> |s.toks| < cap)
    ensures IsCut(js, levels, s.pos) ==> Run(js, s, cap).code == Partial
    ensures IsWrong(js, levels, s.pos) ==> Run(js, s, cap).code == Invalid
  {
    if At(js, s.pos) == '\"' {
      StringExact(js, s.pos + 1);
    } else if StartsValue(At(js, s.pos)) {
      ValueExact(js, s.pos);
    }
    hide ScanString, ScanPrimitive, BadEscape, Unclosed, BadValue, SpellsOpen;
  }

  lemma FailsOnly(js: string, s: State, cap: nat, levels: seq<Level>, doc: Doc)
    requires s.StackInRange() && Has(js, s, levels, doc) && Stopped(js, s, cap)
    ensures Run(js, s, cap).code == Partial ==> IsCut(js, levels, s.pos)
    ensures Run(js, s, cap).code == Invalid ==> IsWrong(js, levels, s.pos)
  {
    if At(js, s.pos) == '\"' {
      StringExact(js, s.pos + 1);
    } else if StartsValue(At(js, s.pos)) {
      ValueExact(js, s.pos);
    }
    hide ScanString, ScanPrimitive, BadEscape, Unclosed, BadValue, SpellsOpen;
  }

  ghost predicate CutOff(js: string) {
    exists levels, doc, q :: SpellsOpen(js, levels, doc, q) && IsCut(js, levels, q)
  }

  ghost predicate Broken(js: string) {
    exists levels, doc, q :: SpellsOpen(js, levels, doc, q) && IsWrong(js, levels, q)
  }

  /** With a token for every character: a text is cut off or broken exactly when it can be spelled up to a place where it
      ends within a container or a string, or where something stands that cannot follow. */
  lemma FailuresExact(js: string, cap: nat)
    requires |js| <= cap
    ensures Run(js, State(0, [], []), cap).code == Partial <==> CutOff(js)
    ensures Run(js, State(0, [], []), cap).code == Invalid <==> Broken(js)
  {
    hide Run, SpellsOpen, IsCut, IsWrong, Has;
    FreshHas(js);
    var levels, doc := RunHas(js, State(0, [], []), cap, [], Nil);
    FailsOnly(js, Run(js, State(0, [], []), cap).last, cap, levels, doc);
    LastSpelled(js, Run(js, State(0, [], []), cap).last, levels, doc);
    forall levels, doc, q | SpellsOpen(js, levels, doc, q)
      ensures IsCut(js, levels, q) ==> Run(js, State(0, [], []), cap).code == Partial
      ensures IsWrong(js, levels, q) ==> Run(js, State(0, [], []), cap).code == Invalid
    {
      var t := Reaches(js, cap, levels, doc, q);
      FailsAt(js, t, cap, levels, doc);
    }
  }

  lemma LastSpelled(js: string, s: State, levels: seq<Level>, doc: Doc)
    requires s.StackInRange() && Has(js, s, levels, doc)
    ensures SpellsOpen(js, levels, doc, s.pos)
  {
  }
}
