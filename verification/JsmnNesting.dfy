/** What holds of the tokens after any call of jsmn_parse, whatever it returned. */
module JsmnNesting {
  import opened JsmnSpec

  /** The span of token k is open or reaches past the start of token j. */
  predicate Encloses(toks: seq<Token>, k: nat, j: nat)
    requires k < |toks| && j < |toks|
  {
    toks[k].end == -1 || toks[k].end > toks[j].start
  }

  /** The last token before j, at or below k, whose span encloses j; -1 if there is none. */
  function ParentBelow(toks: seq<Token>, j: nat, k: int): (p: int)
    requires -1 <= k < j < |toks|
    ensures -1 <= p <= k
    decreases k + 1
  {
    if k == -1 then -1 else if Encloses(toks, k, j) then k else ParentBelow(toks, j, k - 1)
  }

  function Parent(toks: seq<Token>, j: nat): int
    requires j < |toks|
  {
    ParentBelow(toks, j, j - 1)
  }

  /** How many of the first n tokens have parent i. */
  function Members(toks: seq<Token>, i: nat, n: nat): nat
    requires n <= |toks|
  {
    if n == 0 then 0 else Members(toks, i, n - 1) + (if Parent(toks, n - 1) == i then 1 else 0)
  }

  ghost predicate SpanAt(s: State, j: nat)
    requires j < |s.toks|
  {
    var t := s.toks[j];
    && 0 <= t.start < s.pos
    && (t.end == -1 ==> t.IsContainer())
    && (t.end != -1 ==> t.start <= t.end <= s.pos)
    && (j > 0 ==> s.toks[j - 1].start < t.start)
  }

  /** Spans are nested or disjoint: a closed token that encloses a later one ends after it. */
  ghost predicate NestedAt(s: State, k: nat, j: nat)
    requires k < |s.toks| && j < |s.toks|
  {
    k < j && s.toks[k].end != -1 && Encloses(s.toks, k, j) ==> s.toks[j].end != -1 && s.toks[j].end < s.toks[k].end
  }

  ghost predicate SizeAt(s: State, i: nat)
    requires i < |s.toks|
  {
    s.toks[i].size == Members(s.toks, i, |s.toks|)
  }

  ghost predicate StackExact(s: State) {
    && s.StackInRange()
    && (forall a, b | 0 <= a < b < |s.stack| :: s.stack[a] < s.stack[b])
    && (forall j | 0 <= j < |s.toks| :: s.toks[j].end == -1 <==> j in s.stack)
  }

  ghost predicate Nested(s: State) {
    && StackExact(s)
    && (forall j {:trigger SpanAt(s, j)} | 0 <= j < |s.toks| :: SpanAt(s, j))
    && (forall k, j {:trigger NestedAt(s, k, j)} | 0 <= k < |s.toks| && 0 <= j < |s.toks| :: NestedAt(s, k, j))
    && (forall i {:trigger SizeAt(s, i)} | 0 <= i < |s.toks| :: SizeAt(s, i))
  }

  // ----- the parent relation depends on spans only

  /** The enclosing tokens of j, for j below n, are the same in both. */
  ghost predicate SameEnclosure(toks: seq<Token>, toks': seq<Token>, n: nat) {
    && n <= |toks| && n <= |toks'|
    && forall k, j | 0 <= k < j < n :: Encloses(toks', k, j) == Encloses(toks, k, j)
  }

  lemma {:induction false} ParentSame(toks: seq<Token>, toks': seq<Token>, n: nat, j: nat, k: int)
    requires SameEnclosure(toks, toks', n) && -1 <= k < j < n
    ensures ParentBelow(toks', j, k) == ParentBelow(toks, j, k)
    decreases k + 1
  {
    if k >= 0 && !Encloses(toks, k, j) {
      ParentSame(toks, toks', n, j, k - 1);
    }
  }

  lemma {:induction false} MembersSame(toks: seq<Token>, toks': seq<Token>, n: nat, i: nat, m: nat)
    requires SameEnclosure(toks, toks', n) && m <= n
    ensures Members(toks', i, m) == Members(toks, i, m)
  {
    if m > 0 {
      MembersSame(toks, toks', n, i, m - 1);
      ParentSame(toks, toks', n, m - 1, m - 2);
    }
  }

  /** The parent of a new token at the end is the innermost open one. */
  lemma {:induction false} ParentIsTop(toks: seq<Token>, j: nat, k: int, stack: seq<nat>)
    requires -1 <= k < j < |toks|
    requires forall m | 0 <= m < j :: Encloses(toks, m, j) <==> m in stack
    requires forall a, b | 0 <= a < b < |stack| :: stack[a] < stack[b]
    requires forall m | m in stack :: m <= k
    ensures ParentBelow(toks, j, k) == if stack == [] then -1 else stack[|stack| - 1]
    decreases k + 1
  {
    if stack != [] {
      assert stack[|stack| - 1] in stack;
    }
    if k >= 0 && !Encloses(toks, k, j) {
      ParentIsTop(toks, j, k - 1, stack);
    }
  }

  lemma {:induction false} NoMembersYet(toks: seq<Token>, i: nat, n: nat)
    requires n <= |toks| && n <= i + 1
    ensures Members(toks, i, n) == 0
  {
    if n > 0 {
      NoMembersYet(toks, i, n - 1);
    }
  }

  // ----- one more token, open or complete

  ghost predicate Extends(s: State, g: State, t: Token) {
    && s.StackInRange()
    && g.toks == s.Counted() + [t] && t.size == 0 && s.pos <= t.start < g.pos
    && (t.end == -1 ==> t.IsContainer() && g.stack == s.stack + [|s.toks|])
    && (t.end != -1 ==> t.start <= t.end <= g.pos && g.stack == s.stack)
  }

  lemma ExtendsStack(s: State, g: State, t: Token)
    requires Nested(s) && Extends(s, g, t)
    ensures StackExact(g)
  {
    forall j | 0 <= j < |g.toks|
      ensures g.toks[j].end == -1 <==> j in g.stack
    {
      if j < |s.toks| {
        assert s.toks[j].end == -1 <==> j in s.stack;
      }
    }
  }

  lemma ExtendsSpans(s: State, g: State, t: Token, j: nat)
    requires Nested(s) && Extends(s, g, t) && j < |g.toks|
    ensures SpanAt(g, j)
  {
    if j < |s.toks| {
      assert SpanAt(s, j);
    } else if j > 0 {
      assert SpanAt(s, j - 1);
    }
  }

  lemma ExtendsEnclosure(s: State, g: State, t: Token)
    requires Nested(s) && Extends(s, g, t)
    ensures SameEnclosure(s.toks, g.toks, |s.toks|)
    ensures forall m | 0 <= m < |s.toks| :: Encloses(g.toks, m, |s.toks|) <==> m in s.stack
  {
    forall m | 0 <= m < |s.toks|
      ensures Encloses(g.toks, m, |s.toks|) <==> m in s.stack
    {
      assert SpanAt(s, m);
    }
  }

  lemma ExtendsNesting(s: State, g: State, t: Token, k: nat, j: nat)
    requires Nested(s) && Extends(s, g, t) && k < |g.toks| && j < |g.toks|
    ensures NestedAt(g, k, j)
  {
    if k < |s.toks| {
      if j < |s.toks| {
        assert NestedAt(s, k, j);
      } else {
        assert SpanAt(s, k);
      }
    }
  }

  lemma ExtendsSizes(s: State, g: State, t: Token, i: nat)
    requires Nested(s) && Extends(s, g, t) && i < |g.toks|
    requires SameEnclosure(s.toks, g.toks, |s.toks|)
    requires forall m | 0 <= m < |s.toks| :: Encloses(g.toks, m, |s.toks|) <==> m in s.stack
    ensures SizeAt(g, i)
  {
    var n := |s.toks|;
    ParentIsTop(g.toks, n, n - 1, s.stack);
    if i < n {
      assert SizeAt(s, i);
      MembersSame(s.toks, g.toks, n, i, n);
    } else {
      NoMembersYet(g.toks, i, n + 1);
    }
  }

  lemma ExtendsNested(s: State, g: State, t: Token)
    requires Nested(s) && Extends(s, g, t)
    ensures Nested(g)
  {
    ExtendsStack(s, g, t);
    ExtendsEnclosure(s, g, t);
    forall j | 0 <= j < |g.toks|
      ensures SpanAt(g, j) && SizeAt(g, j)
    {
      ExtendsSpans(s, g, t, j);
      ExtendsSizes(s, g, t, j);
    }
    forall k, j | 0 <= k < |g.toks| && 0 <= j < |g.toks|
      ensures NestedAt(g, k, j)
    {
      ExtendsNesting(s, g, t, k, j);
    }
  }

  // ----- a container closes

  lemma CloseNested(s: State)
    requires Nested(s) && s.stack != []
    ensures Nested(s.Close())
  {
    var g, t, n := s.Close(), s.stack[|s.stack| - 1], |s.toks|;
    assert forall m | 0 <= m < n && m !in s.stack :: s.toks[m].end != -1;
    forall j | 0 <= j < n
      ensures SpanAt(g, j)
    {
      assert SpanAt(s, j);
    }
    forall k, j | 0 <= k < n && 0 <= j < n
      ensures NestedAt(g, k, j)
      ensures k < j ==> Encloses(g.toks, k, j) == Encloses(s.toks, k, j)
    {
      assert NestedAt(s, k, j) && SpanAt(s, j) && SpanAt(s, k);
    }
    assert StackExact(g) by {
      CloseStack(s);
    }
    forall i | 0 <= i < n
      ensures SizeAt(g, i)
    {
      assert SizeAt(s, i);
      MembersSame(s.toks, g.toks, n, i, n);
    }
  }

  lemma CloseStack(s: State)
    requires StackExact(s) && s.stack != [] && s.pos >= 0
    ensures StackExact(s.Close())
  {
    var g, t := s.Close(), s.stack[|s.stack| - 1];
    forall j | 0 <= j < |g.toks|
      ensures g.toks[j].end == -1 <==> j in g.stack
    {
      assert j in s.stack <==> j in g.stack || j == t;
    }
  }

  // ----- every call

  lemma StepNested(js: string, s: State, cap: nat)
    requires Nested(s) && At(js, s.pos) != '\0' && Step(js, s, cap).Go?
    ensures Nested(Step(js, s, cap).next)
  {
    var g := Step(js, s, cap).next;
    if |g.toks| > |s.toks| {
      ExtendsNested(s, g, g.toks[|s.toks|]);
    } else if |g.stack| < |s.stack| {
      CloseNested(s);
    } else {
      SkipNested(s, g);
    }
  }

  lemma SkipNested(s: State, g: State)
    requires Nested(s) && g.toks == s.toks && g.stack == s.stack && g.pos >= s.pos
    ensures Nested(g)
  {
    forall j | 0 <= j < |g.toks|
      ensures SpanAt(g, j)
    {
      assert SpanAt(s, j);
    }
    forall k, j | 0 <= k < |g.toks| && 0 <= j < |g.toks|
      ensures NestedAt(g, k, j)
    {
      assert NestedAt(s, k, j);
    }
    forall i | 0 <= i < |g.toks|
      ensures SizeAt(g, i)
    {
      assert SizeAt(s, i);
    }
  }

  lemma {:induction false} RunNested(js: string, s: State, cap: nat)
    requires Nested(s)
    ensures Nested(Run(js, s, cap).last)
    decreases |js| - s.pos
  {
    if At(js, s.pos) != '\0' {
      match Step(js, s, cap)
      case Stop(code) =>
      case Go(next) =>
        StepNested(js, s, cap);
        RunNested(js, next, cap);
    }
  }

  /** From the state jsmn_init leaves, through any number of calls on the same text. */
  lemma FreshNested()
    ensures Nested(State(0, [], []))
  {
  }
}
