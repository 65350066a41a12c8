/** The JSON tokenizer of json_parser.c as a pushdown machine over the text: what each call computes. */
module JsmnSpec {

  datatype Kind = Primitive | Object | Array | String

  datatype Token = Token(kind: Kind, start: int, end: int, size: nat) {
    predicate IsOpen() {
      start != -1 && end == -1
    }

    predicate IsContainer() {
      kind == Object || kind == Array
    }
  }

  datatype Code = Success | NoMemory | Invalid | Partial

  /** The text is a C string: it ends at its first NUL, or where the sequence ends. */
  function At(js: string, i: nat): char {
    if i < |js| then js[i] else '\0'
  }

  // ----- lexemes

  datatype Scan = Found(end: nat) | Unterminated | Illegal

  predicate IsEscape(c: char) {
    c in {'\"', '/', '\\', 'b', 'f', 'r', 'n', 't', 'u'}
  }

  /** From just after an opening quote: where the closing quote is. */
  function ScanString(js: string, i: nat): (r: Scan)
    ensures r.Found? ==> i <= r.end < |js|
    decreases |js| - i
  {
    var c := At(js, i);
    if c == '\0' then Unterminated
    else if c == '\"' then Found(i)
    else if c == '\\' then
      if IsEscape(At(js, i + 1)) then ScanString(js, i + 2) else Illegal
    else ScanString(js, i + 1)
  }

  predicate EndsPrimitive(c: char) {
    c in {':', '\t', '\r', '\n', ' ', ',', ']', '}'}
  }

  /** Where an unquoted value ends. */
  function ScanPrimitive(js: string, i: nat): (r: Scan)
    ensures r.Found? ==> i <= r.end
    ensures r.Found? && i < |js| ==> r.end <= |js|
    ensures !r.Unterminated?
    decreases |js| - i
  {
    var c := At(js, i);
    if c == '\0' || EndsPrimitive(c) then Found(i)
    else if c < 32 as char || c >= 127 as char then Illegal
    else ScanPrimitive(js, i + 1)
  }

  predicate IsSkipped(c: char) {
    c in {'\t', '\r', '\n', ':', ',', ' '}
  }

  // ----- the machine: a position, the tokens so far, and the stack of open containers

  datatype State = State(pos: nat, toks: seq<Token>, stack: seq<nat>) {
    ghost predicate StackInRange() {
      forall k | 0 <= k < |stack| :: stack[k] < |toks|
    }

    /** One more direct member for the innermost open container. */
    function Counted(): seq<Token>
      requires StackInRange()
    {
      if stack == [] then toks else Grow(toks, stack[|stack| - 1])
    }

    function Open(kind: Kind): State
      requires StackInRange()
    {
      State(pos + 1, Counted() + [Token(kind, pos, -1, 0)], stack + [|toks|])
    }

    function Close(): State
      requires StackInRange() && stack != []
    {
      var t := stack[|stack| - 1];
      State(pos + 1, toks[t := toks[t].(end := pos + 1)], stack[..|stack| - 1])
    }

    function Leaf(kind: Kind, start: nat, end: nat, next: nat): State
      requires StackInRange()
    {
      State(next, Counted() + [Token(kind, start, end, 0)], stack)
    }
  }

  function Grow(toks: seq<Token>, i: nat): seq<Token>
    requires i < |toks|
  {
    toks[i := toks[i].(size := toks[i].size + 1)]
  }

  datatype Outcome = Go(next: State) | Stop(code: Code)

  /** What the character at the position does, with room for cap tokens. */
  function Step(js: string, s: State, cap: nat): (r: Outcome)
    requires s.StackInRange() && At(js, s.pos) != '\0'
    ensures r.Go? ==> r.next.StackInRange() && s.pos < r.next.pos <= |js|
  {
    var c := At(js, s.pos);
    if c == '{' || c == '[' then
      if |s.toks| >= cap then Stop(NoMemory) else Go(s.Open(if c == '{' then Object else Array))
    else if c == '}' || c == ']' then
      if s.stack == [] || s.toks[s.stack[|s.stack| - 1]].kind != (if c == '}' then Object else Array) then Stop(Invalid)
      else Go(s.Close())
    else if c == '\"' then
      match ScanString(js, s.pos + 1)
      case Unterminated => Stop(Partial)
      case Illegal => Stop(Invalid)
      case Found(e) => if |s.toks| >= cap then Stop(NoMemory) else Go(s.Leaf(String, s.pos + 1, e, e + 1))
    else if IsSkipped(c) then
      Go(s.(pos := s.pos + 1))
    else
      match ScanPrimitive(js, s.pos)
      case Found(e) => if |s.toks| >= cap then Stop(NoMemory) else Go(s.Leaf(Primitive, s.pos, e, e))
      case _ => Stop(Invalid)
  }

  datatype Result = Result(code: Code, last: State)

  /** A call of jsmn_parse from state s: its return code and the state it leaves. */
  function Run(js: string, s: State, cap: nat): (r: Result)
    requires s.StackInRange()
    ensures r.last.StackInRange() && s.pos <= r.last.pos
    decreases |js| - s.pos
  {
    if At(js, s.pos) == '\0' then
      Result(if s.stack == [] then Success else Partial, s)
    else
      match Step(js, s, cap)
      case Stop(code) => Result(code, s)
      case Go(next) => Run(js, next, cap)
  }

  // ----- resuming after NOMEM

  lemma StepMonotone(js: string, s: State, cap: nat, cap': nat)
    requires s.StackInRange() && At(js, s.pos) != '\0' && cap <= cap'
    ensures Step(js, s, cap) != Stop(NoMemory) ==> Step(js, s, cap') == Step(js, s, cap)
  {
  }

  /** A parse that ran out of tokens, called again with more, ends as one call with all of them would have. */
  lemma {:induction false} Resumes(js: string, s: State, cap: nat, cap': nat)
    requires s.StackInRange() && cap <= cap' && Run(js, s, cap).code == NoMemory
    ensures Run(js, Run(js, s, cap).last, cap') == Run(js, s, cap')
    decreases |js| - s.pos
  {
    StepMonotone(js, s, cap, cap');
    match Step(js, s, cap)
    case Stop(code) =>
    case Go(next) => Resumes(js, next, cap, cap');
  }
}
