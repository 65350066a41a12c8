/** jsmn_parse itself: tokens are written into the caller's array, and the bracket stack exists only as
    "tokens that have a start and no end". */
module JsmnParser {
  import opened JsmnSpec

  /** The open tokens among the first n, by index. */
  function Opens(toks: seq<Token>, n: nat): (r: seq<nat>)
    requires n <= |toks|
    ensures forall k | 0 <= k < |r| :: r[k] < n && toks[r[k]].IsOpen()
  {
    if n == 0 then []
    else Opens(toks, n - 1) + (if toks[n - 1].IsOpen() then [n - 1] else [])
  }

  lemma {:induction false} OpensFrame(toks: seq<Token>, toks': seq<Token>, n: nat)
    requires n <= |toks| && n <= |toks'|
    requires forall k | 0 <= k < n :: toks'[k].IsOpen() == toks[k].IsOpen()
    ensures Opens(toks', n) == Opens(toks, n)
  {
    if n > 0 {
      OpensFrame(toks, toks', n - 1);
    }
  }

  /** Nothing is open from i on. */
  lemma {:induction false} OpensSkip(toks: seq<Token>, i: nat, n: nat)
    requires i <= n <= |toks|
    requires forall k | i <= k < n :: !toks[k].IsOpen()
    ensures Opens(toks, n) == Opens(toks, i)
  {
    if i < n {
      OpensSkip(toks, i, n - 1);
    }
  }

  function Top(stack: seq<nat>): int {
    if stack == [] then -1 else stack[|stack| - 1]
  }

  /** The state of the machine that n tokens of an array stand for. */
  function Machine(pos: nat, T: seq<Token>, n: nat): (s: State)
    requires n <= |T|
    ensures s.StackInRange()
  {
    State(pos, T[..n], Opens(T, n))
  }

  /** Writing token t in the next free place, then counting it in its container. */
  function Added(T: seq<Token>, n: nat, t: Token): seq<Token>
    requires n < |T|
  {
    var super := Top(Opens(T, n));
    if super == -1 then T[n := t] else Grow(T[n := t], super)
  }

  lemma AddedLeaf(pos: nat, T: seq<Token>, n: nat, kind: Kind, start: nat, end: nat, next: nat)
    requires n < |T|
    ensures Machine(next, Added(T, n, Token(kind, start, end, 0)), n + 1) == Machine(pos, T, n).Leaf(kind, start, end, next)
  {
    var T' := Added(T, n, Token(kind, start, end, 0));
    OpensFrame(T, T', n);
    assert T'[..n + 1] == Machine(pos, T, n).Counted() + [Token(kind, start, end, 0)];
  }

  lemma AddedOpen(pos: nat, T: seq<Token>, n: nat, kind: Kind)
    requires n < |T|
    ensures Machine(pos + 1, Added(T, n, Token(kind, pos, -1, 0)), n + 1) == Machine(pos, T, n).Open(kind)
  {
    var T' := Added(T, n, Token(kind, pos, -1, 0));
    OpensFrame(T, T', n);
    assert T'[..n + 1] == Machine(pos, T, n).Counted() + [Token(kind, pos, -1, 0)];
  }

  /** Closing the last open token i. */
  lemma ClosedTop(pos: nat, T: seq<Token>, n: nat, i: nat)
    requires i < n <= |T| && T[i].IsOpen() && forall k | i < k < n :: !T[k].IsOpen()
    ensures var T' := T[i := T[i].(end := pos + 1)];
      && Opens(T, n) == Opens(T, i) + [i]
      && Opens(T', n) == Opens(T, i) == Opens(T', i)
      && Machine(pos + 1, T', n) == Machine(pos, T, n).Close()
  {
    var T' := T[i := T[i].(end := pos + 1)];
    OpensSkip(T, i + 1, n);
    OpensSkip(T', i, n);
    OpensFrame(T, T', i);
    assert T'[..n] == T[..n][i := T[i].(end := pos + 1)];
  }

  /** A call that ran out of tokens, repeated with a larger array that starts with the same tokens, ends as one call
      with the larger array would have. */
  lemma ResumesWithLargerArray(js: string, s0: State, cap: nat, cap': nat, pos: nat, T: seq<Token>, T': seq<Token>, n: nat)
    requires s0.StackInRange() && cap <= cap' && n <= |T| && n <= |T'| && T'[..n] == T[..n]
    requires Run(js, s0, cap) == Result(NoMemory, Machine(pos, T, n))
    ensures Run(js, Machine(pos, T', n), cap') == Run(js, s0, cap')
  {
    assert forall k | 0 <= k < n :: T'[k] == T'[..n][k] == T[k];
    OpensFrame(T, T', n);
    Resumes(js, s0, cap, cap');
  }

  class Parser {
    var pos: nat
    var toknext: nat
    var toksuper: int

    /** jsmn_init */
    constructor ()
      ensures pos == 0 && toknext == 0 && toksuper == -1
    {
      pos := 0;
      toknext := 0;
      toksuper := -1;
    }

    /** toksuper names the innermost open token, or nothing. */
    ghost predicate Valid(tokens: array<Token>)
      reads this, tokens
    {
      toknext <= tokens.Length && toksuper == Top(Opens(tokens[..], toknext))
    }

    ghost function Abs(tokens: array<Token>): (s: State)
      requires toknext <= tokens.Length
      reads this, tokens
      ensures s.StackInRange()
    {
      Machine(pos, tokens[..], toknext)
    }

    /** jsmn_alloc_token, the filling of the token, and the count of the enclosing container. */
    method AddToken(tokens: array<Token>, t: Token)
      requires Valid(tokens) && toknext < tokens.Length
      modifies this`toknext, tokens
      ensures tokens[..] == Added(old(tokens[..]), old(toknext), t) && toknext == old(toknext) + 1
    {
      tokens[toknext] := t;
      toknext := toknext + 1;
      if toksuper != -1 {
        tokens[toksuper] := tokens[toksuper].(size := tokens[toksuper].size + 1);
      }
    }

    /** A token that is complete: a string or a primitive. */
    method AddLeaf(tokens: array<Token>, kind: Kind, start: nat, end: nat, ghost next: nat)
      requires Valid(tokens) && toknext < tokens.Length
      modifies this`toknext, tokens
      ensures Valid(tokens) && toknext == old(toknext) + 1
      ensures Machine(next, tokens[..], toknext) == old(Abs(tokens)).Leaf(kind, start, end, next)
    {
      AddedLeaf(pos, tokens[..], toknext, kind, start, end, next);
      hide Opens, Added;
      AddToken(tokens, Token(kind, start, end, 0));
    }

    /** The end of a scanned token has been found; if there is no room for it, the position goes back to rewind. */
    method EndToken(tokens: array<Token>, kind: Kind, start: nat, rewind: nat, numTokens: nat, ghost next: nat) returns (ok: bool)
      requires Valid(tokens) && toknext <= numTokens <= tokens.Length
      modifies this`pos, this`toknext, tokens
      ensures Valid(tokens) && toknext <= numTokens
      ensures ok <==> old(toknext) < numTokens
      ensures ok ==> pos == old(pos) && Machine(next, tokens[..], toknext) == old(Abs(tokens)).Leaf(kind, start, pos, next)
      ensures !ok ==> Abs(tokens) == old(Abs(tokens)).(pos := rewind)
    {
      hide Opens;
      if toknext >= numTokens {
        pos := rewind;
        return false;
      }
      AddLeaf(tokens, kind, start, pos, next);
      return true;
    }

    /** One character of a string; the second of an escape goes with its backslash. */
    method StringChar(js: string, ghost from: nat) returns (code: Code)
      requires At(js, pos) != '\0' && At(js, pos) != '\"' && ScanString(js, pos) == ScanString(js, from)
      modifies this`pos
      ensures code == Success ==> old(pos) < pos <= old(pos) + 2 && ScanString(js, pos) == ScanString(js, from)
      ensures code == Success ==> pos <= |js|
      ensures code != Success ==> code == Invalid && ScanString(js, from) == Illegal
    {
      if At(js, pos) == '\\' {
        pos := pos + 1;
        if !IsEscape(At(js, pos)) {
          return Invalid;
        }
      }
      pos := pos + 1;
      return Success;
    }

    /** The loop of jsmn_parse_string, up to the closing quote; the position goes back if there is none. */
    method ScanToQuote(js: string) returns (code: Code)
      modifies this`pos
      ensures match ScanString(js, old(pos) + 1)
        case Unterminated => code == Partial && pos == old(pos)
        case Illegal => code == Invalid && pos == old(pos)
        case Found(e) => code == Success && pos == e
    {
      var start := pos;
      pos := pos + 1;
      while At(js, pos) != '\0'
        invariant start < pos && ScanString(js, pos) == ScanString(js, start + 1)
        decreases |js| - pos
      {
        if At(js, pos) == '\"' {
          return Success;
        }
        code := StringChar(js, start + 1);
        if code != Success {
          pos := start;
          return;
        }
      }
      pos := start;
      return Partial;
    }

    /** jsmn_parse_string */
    method ParseString(js: string, tokens: array<Token>, numTokens: nat) returns (code: Code)
      requires Valid(tokens) && toknext <= numTokens <= tokens.Length
      modifies this`pos, this`toknext, tokens
      ensures toksuper == old(toksuper) && Valid(tokens) && toknext <= numTokens
      ensures match ScanString(js, old(pos) + 1)
        case Unterminated => code == Partial
        case Illegal => code == Invalid
        case Found(e) => code == if old(toknext) >= numTokens then NoMemory else Success
      ensures code != Success ==> Abs(tokens) == old(Abs(tokens))
      ensures code == Success ==> ScanString(js, old(pos) + 1) == Found(pos)
      ensures code == Success ==>
        Machine(pos + 1, tokens[..], toknext) == old(Abs(tokens)).Leaf(String, old(pos) + 1, pos, pos + 1)
    {
      hide Opens;
      var start := pos;
      code := ScanToQuote(js);
      if code == Success {
        var ok := EndToken(tokens, String, start + 1, start, numTokens, pos + 1);
        code := if ok then Success else NoMemory;
      }
    }

    /** jsmn_parse_primitive; it leaves the position on the last character of the value. */
    method ParsePrimitive(js: string, tokens: array<Token>, numTokens: nat) returns (code: Code)
      requires Valid(tokens) && toknext <= numTokens <= tokens.Length
      requires At(js, pos) != '\0' && !EndsPrimitive(At(js, pos))
      modifies this`pos, this`toknext, tokens
      ensures toksuper == old(toksuper) && Valid(tokens) && toknext <= numTokens
      ensures match ScanPrimitive(js, old(pos))
        case Found(e) => code == if old(toknext) >= numTokens then NoMemory else Success
        case _ => code == Invalid
      ensures code != Success ==> Abs(tokens) == old(Abs(tokens))
      ensures code == Success ==> ScanPrimitive(js, old(pos)) == Found(pos + 1)
      ensures code == Success ==>
        Machine(pos + 1, tokens[..], toknext) == old(Abs(tokens)).Leaf(Primitive, old(pos), pos + 1, pos + 1)
    {
      hide Opens;
      var start := pos;
      while At(js, pos) != '\0'
        invariant start <= pos && ScanPrimitive(js, pos) == ScanPrimitive(js, start)
        invariant pos == start ==> At(js, pos) != '\0' && !EndsPrimitive(At(js, pos))
        invariant Valid(tokens) && toknext == old(toknext) && toksuper == old(toksuper) && Abs(tokens) == old(Abs(tokens)).(pos := pos)
        decreases |js| - pos
      {
        if EndsPrimitive(At(js, pos)) {
          break;
        }
        if At(js, pos) < 32 as char || At(js, pos) >= 127 as char {
          pos := start;
          return Invalid;
        }
        pos := pos + 1;
      }
      var ok := EndToken(tokens, Primitive, start, start, numTokens, pos);
      if !ok {
        return NoMemory;
      }
      pos := pos - 1;
      return Success;
    }

    /** A backward scan for an open token below n. */
    method LastOpen(tokens: array<Token>, n: nat) returns (i: int)
      requires n <= tokens.Length
      ensures -1 <= i < n && (i >= 0 ==> tokens[..][i].IsOpen())
      ensures forall k | i < k < n :: !tokens[..][k].IsOpen()
      ensures Top(Opens(tokens[..], n)) == i
    {
      i := n - 1;
      while i >= 0 && !tokens[i].IsOpen()
        invariant -1 <= i < n
        invariant forall k | i < k < n :: !tokens[..][k].IsOpen()
      {
        i := i - 1;
      }
      OpensSkip(tokens[..], i + 1, n);
    }

    /** The last open token i gets its end, and the one before it becomes the innermost. */
    method CloseAt(tokens: array<Token>, i: nat)
      requires Valid(tokens) && i < toknext && tokens[..][i].IsOpen() && forall k | i < k < toknext :: !tokens[..][k].IsOpen()
      modifies this`toksuper, tokens
      ensures Valid(tokens) && old(Abs(tokens)).stack != []
      ensures Machine(pos + 1, tokens[..], toknext) == old(Abs(tokens)).Close()
    {
      ghost var T := tokens[..];
      ClosedTop(pos, T, toknext, i);
      hide Opens;
      toksuper := -1;
      tokens[i] := tokens[i].(end := pos + 1);
      assert tokens[..] == T[i := T[i].(end := pos + 1)];
      var j := LastOpen(tokens, i);
      if j >= 0 {
        toksuper := j;
      }
    }

    /** The closing bracket in jsmn_parse. */
    method CloseBracket(tokens: array<Token>, kind: Kind) returns (ok: bool)
      requires Valid(tokens)
      modifies this`toksuper, tokens
      ensures Valid(tokens)
      ensures ok <==> var s := old(Abs(tokens)); s.stack != [] && s.toks[s.stack[|s.stack| - 1]].kind == kind
      ensures !ok ==> Abs(tokens) == old(Abs(tokens))
      ensures ok ==> Machine(pos + 1, tokens[..], toknext) == old(Abs(tokens)).Close()
    {
      hide Opens;
      var i := LastOpen(tokens, toknext);
      if i == -1 || tokens[i].kind != kind {
        return false;
      }
      CloseAt(tokens, i);
      return true;
    }

    /** jsmn_parse: the code and the final state are those of the machine. */
    method Parse(js: string, tokens: array<Token>, numTokens: nat) returns (code: Code)
      requires Valid(tokens) && toknext <= numTokens <= tokens.Length
      modifies this, tokens
      ensures Valid(tokens) && toknext <= numTokens
      ensures Result(code, Abs(tokens)) == Run(js, old(Abs(tokens)), numTokens)
    {
      hide Opens, Step;
      ghost var s0 := Abs(tokens);
      while At(js, pos) != '\0'
        invariant Valid(tokens) && toknext <= numTokens
        invariant Run(js, Abs(tokens), numTokens) == Run(js, s0, numTokens)
        decreases |js| - pos
      {
        ghost var s := Abs(tokens);
        code := ParseOne(js, tokens, numTokens);
        if code != Success {
          return;
        }
        pos := pos + 1;
      }
      var i := LastOpen(tokens, toknext);
      return if i >= 0 then Partial else Success;
    }

    /** The opening bracket in jsmn_parse. */
    method OpenBracket(tokens: array<Token>, kind: Kind, numTokens: nat) returns (ok: bool)
      requires Valid(tokens) && toknext <= numTokens <= tokens.Length
      modifies this`toknext, this`toksuper, tokens
      ensures Valid(tokens) && toknext <= numTokens
      ensures ok <==> old(toknext) < numTokens
      ensures !ok ==> Abs(tokens) == old(Abs(tokens))
      ensures ok ==> Machine(pos + 1, tokens[..], toknext) == old(Abs(tokens)).Open(kind)
    {
      if toknext >= numTokens {
        return false;
      }
      AddedOpen(pos, tokens[..], toknext, kind);
      hide Opens, Added;
      AddToken(tokens, Token(kind, pos, -1, 0));
      toksuper := toknext - 1;
      return true;
    }

    /** One round of the switch in jsmn_parse, without the final increment of the position. */
    method ParseOne(js: string, tokens: array<Token>, numTokens: nat) returns (code: Code)
      requires Valid(tokens) && toknext <= numTokens <= tokens.Length && At(js, pos) != '\0'
      modifies this, tokens
      ensures Valid(tokens) && toknext <= numTokens
      ensures match Step(js, old(Abs(tokens)), numTokens)
        case Stop(c) => code == c && c != Success && Abs(tokens) == old(Abs(tokens))
        case Go(next) => code == Success && Machine(pos + 1, tokens[..], toknext) == next
    {
      hide Opens, ScanString, ScanPrimitive, State.Open, State.Close, State.Leaf;
      var c := At(js, pos);
      if c == '{' || c == '[' {
        var ok := OpenBracket(tokens, if c == '{' then Object else Array, numTokens);
        return if ok then Success else NoMemory;
      } else if c == '}' || c == ']' {
        var ok := CloseBracket(tokens, if c == '}' then Object else Array);
        return if ok then Success else Invalid;
      } else if c == '\"' {
        code := ParseString(js, tokens, numTokens);
      } else if IsSkipped(c) {
        return Success;
      } else {
        code := ParsePrimitive(js, tokens, numTokens);
      }
    }
  }
}
