/** strtol and strtoul of libc_stub.c, and ui2a of printf.c. */
module Numbers {
  import opened Bytes

  const ULONG_MAX := 0xFFFF_FFFF
  const LONG_MAX := 0x7FFF_FFFF
  const TWO32 := 0x1_0000_0000

  predicate IsUpper(c: Byte) {
    65 <= c <= 90
  }

  predicate IsAlpha(c: Byte) {
    65 <= c <= 90 || 97 <= c <= 122
  }

  /** Blank, tab and newline only: '\12' is the newline again. */
  predicate IsSpace(c: Byte) {
    c == 32 || c == 9 || c == 10
  }

  predicate IsDigit(c: Byte) {
    48 <= c <= 57
  }

  // ----- what a numeral means

  /** The value of a digit or letter, 36 for anything else. */
  function DigitOf(c: Byte): (v: nat)
    ensures v <= 36
  {
    if IsDigit(c) then c - 48 else if IsUpper(c) then c - 65 + 10 else if IsAlpha(c) then c - 97 + 10 else 36
  }

  /** Every character is a digit of the base. */
  predicate IsNumeral(s: seq<Byte>, base: nat) {
    forall i | 0 <= i < |s| :: DigitOf(s[i]) < base
  }

  function Value(s: seq<Byte>, base: nat): nat {
    if s == [] then 0 else Value(s[..|s| - 1], base) * base + DigitOf(s[|s| - 1])
  }

  /** Where the digits that begin at i end. */
  function DigitsEnd(s: seq<Byte>, i: nat, base: nat): (j: nat)
    requires i <= |s|
    ensures i <= j <= |s| && IsNumeral(s[i..j], base) && (j < |s| ==> DigitOf(s[j]) >= base)
    decreases |s| - i
  {
    if i == |s| || DigitOf(s[i]) >= base then i
    else
      var j := DigitsEnd(s, i + 1, base);
      assert forall k | 0 <= k < j - i :: s[i..j][k] == if k == 0 then s[i] else s[i + 1..j][k - 1];
      j
  }

  const DIGITS := "0123456789abcdefghijklmnopqrstuvwxyz"
  const CAPITALS := "0123456789ABCDEFGHIJKLMNOPQRSTUVWXYZ"

  /** The digits are these characters, each worth its place, and no others. */
  lemma DigitsExact(c: Byte)
    ensures var d := DigitOf(c);
      if d < 36 then c == DIGITS[d] as int || c == CAPITALS[d] as int
      else forall k | 0 <= k < 36 :: c != DIGITS[k] as int && c != CAPITALS[k] as int
  {
    assert forall k | 0 <= k < 36 :: DIGITS[k] as int == if k < 10 then 48 + k else 87 + k;
    assert forall k | 0 <= k < 36 :: CAPITALS[k] as int == if k < 10 then 48 + k else 55 + k;
  }

  // ----- the overflow test

  /** The comparison with cutoff and cutlim says exactly that another digit would exceed the limit. */
  lemma CutoffExact(acc: nat, c: nat, base: nat, limit: nat)
    requires 2 <= base && c < base
    ensures acc > limit / base || (acc == limit / base && c > limit % base) <==> acc * base + c > limit
  {
    var q, r := limit / base, limit % base;
    assert limit == q * base + r;
    if acc > q {
      MulLe(q + 1, acc, base);
    } else if acc < q {
      MulLe(acc + 1, q, base);
    }
  }

  lemma MulLe(a: nat, b: nat, c: nat)
    requires a <= b
    ensures a * c <= b * c
  {
  }

  /** More digits never make a numeral smaller. */
  lemma {:induction false} ValueGrows(s: seq<Byte>, k: nat, base: nat)
    requires k <= |s| && 1 <= base
    ensures Value(s[..k], base) <= Value(s, base)
  {
    if k == |s| {
      assert s[..k] == s;
    } else {
      var t := s[..|s| - 1];
      assert t[..k] == s[..k];
      ValueGrows(t, k, base);
      MulLe(1, base, Value(t, base));
    }
  }

  /** What the digits from i to j are worth, up to a limit. */
  ghost predicate Accumulated(s: seq<Byte>, i: nat, j: nat, base: nat, limit: nat, acc: nat, any: int) {
    && i <= j <= |s| && -1 <= any <= 1
    && (any == 0 <==> j == i)
    && (any == -1 <==> Value(s[i..j], base) > limit)
    && (any != -1 ==> acc == Value(s[i..j], base))
  }

  lemma OneMoreDigit(s: seq<Byte>, i: nat, j: nat, base: nat)
    requires i <= j < |s|
    ensures Value(s[i..j + 1], base) == Value(s[i..j], base) * base + DigitOf(s[j])
  {
    assert s[i..j + 1][..j - i] == s[i..j];
  }

  /** One turn of the digit loop. */
  lemma DigitStep(s: seq<Byte>, i: nat, j: nat, base: nat, limit: nat, acc: nat, any: int, c: nat)
    requires 2 <= base && j < |s| && c == DigitOf(s[j]) < base && Accumulated(s, i, j, base, limit, acc, any)
    ensures if any < 0 || acc > limit / base || (acc == limit / base && c > limit % base)
            then Accumulated(s, i, j + 1, base, limit, acc, -1)
            else Accumulated(s, i, j + 1, base, limit, acc * base + c, 1)
  {
    OneMoreDigit(s, i, j, base);
    var v := Value(s[i..j], base);
    hide Value, DigitOf;
    if any < 0 {
      Saturates(v, c, base, limit);
    } else {
      assert acc == v by {
        if any == 0 {
          NoDigits(s, i, base);
        }
      }
      CutoffExact(v, c, base, limit);
    }
  }

  lemma NoDigits(s: seq<Byte>, i: nat, base: nat)
    requires i <= |s|
    ensures Value(s[i..i], base) == 0
  {
  }

  /** A text that goes on behind i. */
  ghost predicate GoesOn(s: seq<Byte>, i: nat) {
    i < |s| && 0 in s[i..]
  }

  lemma NextDigit(s: seq<Byte>, j: nat, base: nat)
    requires GoesOn(s, j) && 2 <= base <= 36
    ensures j < |s|
    ensures DigitOf(s[j]) < base ==> GoesOn(s, j + 1) && DigitsEnd(s, j, base) == DigitsEnd(s, j + 1, base)
    ensures DigitOf(s[j]) >= base ==> DigitsEnd(s, j, base) == j
  {
    assert s[j..] == [s[j]] + s[j + 1..];
  }

  lemma StartDigits(s: seq<Byte>, i: nat, base: nat, limit: nat)
    requires i <= |s|
    ensures Accumulated(s, i, i, base, limit, 0, 0)
  {
  }

  /** A digit character's value, as the code computes it. */
  method DigitAt(s: seq<Byte>, j: nat) returns (isDigit: bool, c: int)
    requires j < |s|
    ensures c == if isDigit then DigitOf(s[j]) else s[j]
    ensures !isDigit ==> DigitOf(s[j]) == 36
  {
    c, isDigit := s[j], true;
    if IsDigit(s[j]) {
      c := c - 48;
    } else if IsAlpha(s[j]) {
      c := c - if IsUpper(s[j]) then 65 - 10 else 97 - 10;
    } else {
      isDigit := false;
    }
  }

  function Cutoff(limit: nat, base: nat): nat
    requires base > 0
  {
    limit / base
  }

  function Cutlim(limit: nat, base: nat): nat
    requires base > 0
  {
    limit % base
  }

  /** The test against the limit, and the digit taken in if it passes. */
  method TakeDigit(acc: nat, any: int, c: nat, base: nat, cutoff: nat, cutlim: nat,
                   ghost s: seq<Byte>, ghost i: nat, ghost j: nat, ghost limit: nat)
    returns (acc': nat, any': int)
    requires 2 <= base && cutoff == Cutoff(limit, base) && cutlim == Cutlim(limit, base)
    requires j < |s| && c == DigitOf(s[j]) < base && Accumulated(s, i, j, base, limit, acc, any)
    ensures Accumulated(s, i, j + 1, base, limit, acc', any')
  {
    DigitStep(s, i, j, base, limit, acc, any, c);
    hide Accumulated, DigitOf;
    if any < 0 || acc > cutoff || (acc == cutoff && c > cutlim) {
      acc', any' := acc, -1;
    } else {
      acc', any' := acc * base + c, 1;
    }
  }

  /** The digit loop both functions share; a NUL follows. */
  method Accumulate(s: seq<Byte>, i: nat, base: nat, limit: nat) returns (acc: nat, any: int, j: nat)
    requires 2 <= base <= 36 && GoesOn(s, i)
    ensures j == DigitsEnd(s, i, base) && Accumulated(s, i, j, base, limit, acc, any)
  {
    hide Accumulated, DigitsEnd, Value, DigitOf, GoesOn, Cutoff, Cutlim;
    var cutoff, cutlim := Cutoff(limit, base), Cutlim(limit, base);
    acc, any, j := 0, 0, i;
    NextDigit(s, i, base);
    StartDigits(s, i, base, limit);
    while true
      invariant i <= j < |s| && GoesOn(s, j) && DigitsEnd(s, j, base) == DigitsEnd(s, i, base)
      invariant Accumulated(s, i, j, base, limit, acc, any)
      decreases |s| - j
    {
      NextDigit(s, j, base);
      var isDigit, c := DigitAt(s, j);
      if !isDigit || c >= base {
        break;
      }
      acc, any := TakeDigit(acc, any, c, base, cutoff, cutlim, s, i, j, limit);
      j := j + 1;
      NextDigit(s, j, base);
    }
  }

  lemma Saturates(v: nat, c: nat, base: nat, limit: nat)
    requires v > limit && base >= 1
    ensures v * base + c > limit
  {
    MulLe(1, base, v);
  }

  // ----- sign and base

  /** Where the digits of a text may begin, whether a minus sign was read, and the base to use. */
  datatype Start = Start(neg: bool, base: nat, at: nat)

  function SkipSpaces(s: seq<Byte>, i: nat): (j: nat)
    requires i <= |s|
    ensures i <= j <= |s| && (j < |s| ==> !IsSpace(s[j])) && forall k | i <= k < j :: IsSpace(s[k])
    decreases |s| - i
  {
    if i < |s| && IsSpace(s[i]) then SkipSpaces(s, i + 1) else i
  }

  /** The character at i, NUL past the end. */
  function At(s: seq<Byte>, i: nat): Byte {
    if i < |s| then s[i] else 0
  }

  /** Behind an optional sign. */
  function PastSign(s: seq<Byte>, b: nat): nat {
    if At(s, b) == 45 || At(s, b) == 43 then b + 1 else b
  }

  /** 0x or 0b where the base allows them; base 0 asks the text. */
  function RadixOf(s: seq<Byte>, base: nat, neg: bool, i: nat): Start {
    if HexMark(s, base, i) then Start(neg, 16, i + 2)
    else if BinaryMark(s, base, i) then Start(neg, 2, i + 2)
    else Start(neg, PlainBase(s, base, i), i)
  }

  predicate HexMark(s: seq<Byte>, base: nat, i: nat) {
    (base == 0 || base == 16) && At(s, i) == 48 && (At(s, i + 1) == 120 || At(s, i + 1) == 88)
  }

  predicate BinaryMark(s: seq<Byte>, base: nat, i: nat) {
    (base == 0 || base == 2) && At(s, i) == 48 && (At(s, i + 1) == 98 || At(s, i + 1) == 66)
  }

  function PlainBase(s: seq<Byte>, base: nat, i: nat): nat {
    if base != 0 then base else if At(s, i) == 48 then 8 else 10
  }

  /** Blanks, a sign, and the mark of a base. */
  function StartOf(s: seq<Byte>, base: nat): Start {
    var b := SkipSpaces(s, 0);
    RadixOf(s, base, At(s, b) == 45, PastSign(s, b))
  }

  lemma NotTheEnd(s: seq<Byte>, i: nat)
    requires GoesOn(s, i) && s[i] != 0
    ensures GoesOn(s, i + 1)
  {
    assert s[i..] == [s[i]] + s[i + 1..];
  }

  method PassSpaces(s: seq<Byte>) returns (i: nat)
    requires 0 in s
    ensures i == SkipSpaces(s, 0) && GoesOn(s, i)
  {
    i := 0;
    assert s[0..] == s;
    while IsSpace(s[i])
      invariant GoesOn(s, i) && SkipSpaces(s, i) == SkipSpaces(s, 0)
      decreases |s| - i
    {
      NotTheEnd(s, i);
      i := i + 1;
    }
  }

  method ReadRadix(s: seq<Byte>, base: nat, neg: bool, i: nat) returns (st: Start)
    requires GoesOn(s, i) && (base == 0 || 2 <= base <= 36)
    ensures st == RadixOf(s, base, neg, i) && 2 <= st.base <= 36 && GoesOn(s, st.at)
  {
    hide GoesOn;
    GoesOnInside(s, i);
    if (base == 0 || base == 16) && s[i] == 48 && (s[i + 1] == 120 || s[i + 1] == 88) {
      GoesOnInside(s, i + 1);
      st := Start(neg, 16, i + 2);
    } else if (base == 0 || base == 2) && s[i] == 48 && (s[i + 1] == 98 || s[i + 1] == 66) {
      GoesOnInside(s, i + 1);
      st := Start(neg, 2, i + 2);
    } else {
      st := Start(neg, if base != 0 then base else if s[i] == 48 then 8 else 10, i);
    }
  }

  /** The opening both functions share. */
  method ReadStart(s: seq<Byte>, base: nat) returns (st: Start)
    requires 0 in s && (base == 0 || 2 <= base <= 36)
    ensures st == StartOf(s, base) && 2 <= st.base <= 36 && GoesOn(s, st.at)
  {
    hide GoesOn, SkipSpaces, RadixOf;
    var i := PassSpaces(s);
    GoesOnInside(s, i);
    var neg := s[i] == 45;
    if s[i] == 45 || s[i] == 43 {
      i := i + 1;
    }
    st := ReadRadix(s, base, neg, i);
  }

  lemma GoesOnInside(s: seq<Byte>, i: nat)
    requires GoesOn(s, i)
    ensures i < |s| && (s[i] != 0 ==> i + 1 < |s| && GoesOn(s, i + 1))
  {
    if s[i] != 0 {
      NotTheEnd(s, i);
    }
  }

  // ----- the two functions

  /** The digits of a text and what they are worth. */
  function DigitsOf(s: seq<Byte>, base: nat): seq<Byte> {
    var st := StartOf(s, base);
    if st.at > |s| then [] else s[st.at..DigitsEnd(s, st.at, st.base)]
  }

  function ValueOf(s: seq<Byte>, base: nat): nat {
    Value(DigitsOf(s, base), StartOf(s, base).base)
  }

  function SignedValue(s: seq<Byte>, base: nat): int {
    var v: int := ValueOf(s, base);
    if StartOf(s, base).neg then -v else v
  }

  /** Behind the last digit; the beginning of the text if it has none. */
  function EndOf(s: seq<Byte>, base: nat): nat {
    if DigitsOf(s, base) == [] then 0 else StartOf(s, base).at + |DigitsOf(s, base)|
  }

  /** Behind the digits at i, 0 if there are none. */
  function BehindDigits(s: seq<Byte>, i: nat, base: nat): nat {
    if i > |s| || DigitsEnd(s, i, base) == i then 0 else DigitsEnd(s, i, base)
  }

  /** The end pointer by section 7.20.1.4 of ISO C99, for the blanks this code skips: 0x counts only with a digit behind
      it, and 0b never. */
  function StandardEnd(s: seq<Byte>, base: nat): nat {
    var i := PastSign(s, SkipSpaces(s, 0));
    if HexMark(s, base, i) && DigitOf(At(s, i + 2)) < 16 then BehindDigits(s, i + 2, 16)
    else BehindDigits(s, i, PlainBase(s, base, i))
  }

  /** The code parts from the standard just when 0x has no digit behind it, or 0b is read at all. */
  lemma EndsByStandard(s: seq<Byte>, base: nat)
    requires base == 0 || 2 <= base <= 36
    ensures var i := PastSign(s, SkipSpaces(s, 0));
      EndOf(s, base) == StandardEnd(s, base) <==> (HexMark(s, base, i) ==> DigitOf(At(s, i + 2)) < 16) && !BinaryMark(s, base, i)
  {
    hide EndOf, BehindDigits, SkipSpaces;
    EndIsBehind(s, base);
    var i := PastSign(s, SkipSpaces(s, 0));
    BehindBounds(s, i + 2, 16);
    BehindBounds(s, i + 2, 2);
    if HexMark(s, base, i) || BinaryMark(s, base, i) {
      MarkIsNoDigit(s, i, PlainBase(s, base, i));
    }
  }

  /** For "0xg" the standard puts the end pointer behind the 0, the code at the beginning. */
  lemma MarkWithoutDigit()
    ensures var s := Ascii("0xg") + [0]; EndOf(s, 16) == 0 && StandardEnd(s, 16) == 1
  {
    var s := Ascii("0xg") + [0];
    assert s == [48, 120, 103, 0];
    hide EndOf, BehindDigits;
    EndIsBehind(s, 16);
    BehindBounds(s, 2, 16);
    MarkIsNoDigit(s, 0, 16);
  }

  lemma EndIsBehind(s: seq<Byte>, base: nat)
    ensures EndOf(s, base) == BehindDigits(s, StartOf(s, base).at, StartOf(s, base).base)
  {
    hide StartOf;
  }

  lemma BehindBounds(s: seq<Byte>, i: nat, base: nat)
    requires base <= 36
    ensures if DigitOf(At(s, i)) < base then BehindDigits(s, i, base) > i else BehindDigits(s, i, base) == 0
  {
  }

  lemma MarkIsNoDigit(s: seq<Byte>, i: nat, base: nat)
    requires base >= 1 && At(s, i) == 48 && i + 1 < |s| && DigitOf(s[i + 1]) >= base
    ensures BehindDigits(s, i, base) == i + 1
  {
    assert DigitsEnd(s, i + 1, base) == i + 1 == DigitsEnd(s, i, base);
  }

  /** The nearest value a long can hold. */
  function Clamped(v: int): int {
    if v < -LONG_MAX - 1 then -LONG_MAX - 1 else if v > LONG_MAX then LONG_MAX else v
  }

  /** ULONG_MAX beyond it; a minus sign negates modulo 2^32. */
  function Unsigned(s: seq<Byte>, base: nat): nat {
    var v := ValueOf(s, base);
    if v > ULONG_MAX then ULONG_MAX else if StartOf(s, base).neg then (TWO32 - v) % TWO32 else v
  }

  /** Two's complement: the bits of an unsigned long read as a long. */
  function AsLong(acc: nat): int {
    if acc > LONG_MAX then acc - TWO32 else acc
  }

  function Negated(acc: nat): (r: nat)
    requires acc < TWO32
    ensures r < TWO32
  {
    (TWO32 - acc) % TWO32
  }

  /** strtol: the exact value where a long holds it, otherwise the nearest limit; end is the endptr. */
  method Strtol(s: seq<Byte>, base: nat) returns (r: int, end: nat)
    requires 0 in s && (base == 0 || 2 <= base <= 36)
    ensures r == Clamped(SignedValue(s, base))
    ensures end == EndOf(s, base)
  {
    hide StartOf, DigitsEnd, Value;
    var st := ReadStart(s, base);
    var limit := if st.neg then LONG_MAX + 1 else LONG_MAX;
    var acc, any, j := Accumulate(s, st.at, st.base, limit);
    if any < 0 {
      acc := if st.neg then LONG_MAX + 1 else LONG_MAX;
    } else if st.neg {
      acc := Negated(acc);
    }
    r, end := AsLong(acc), if any != 0 then j else 0;
  }

  /** strtoul: the same for an unsigned long; a minus sign negates modulo 2^32. */
  method Strtoul(s: seq<Byte>, base: nat) returns (r: nat, end: nat)
    requires 0 in s && (base == 0 || 2 <= base <= 36)
    ensures r == Unsigned(s, base)
    ensures end == EndOf(s, base)
  {
    hide StartOf, DigitsEnd, Value;
    var st := ReadStart(s, base);
    var acc, any, j := Accumulate(s, st.at, st.base, ULONG_MAX);
    if any < 0 {
      acc := ULONG_MAX;
    } else if st.neg {
      acc := Negated(acc);
    }
    r, end := acc, if any != 0 then j else 0;
  }

  // ----- what a text is worth, piece by piece

  const PLUS: seq<Byte> := [43]
  const MINUS: seq<Byte> := [45]

  predicate IsHexMark(p: seq<Byte>) {
    p == [48, 120] || p == [48, 88] // 0x, 0X
  }

  predicate IsBinaryMark(p: seq<Byte>) {
    p == [48, 98] || p == [48, 66] // 0b, 0B
  }

  /** p is how a text that goes on with u marks the base it is read in; with base 0 a leading 0 does so too. */
  predicate Marks(base: nat, p: seq<Byte>, radix: nat, u: seq<Byte>) {
    if IsHexMark(p) then (base == 0 || base == 16) && radix == 16
    else if IsBinaryMark(p) then (base == 0 || base == 2) && radix == 2
    else
      && p == []
      && !(|u| >= 2 && (base == 0 || base == 16) && IsHexMark(u[..2]))
      && !(|u| >= 2 && (base == 0 || base == 2) && IsBinaryMark(u[..2]))
      && radix == if base != 0 then base else if u != [] && u[0] == 48 then 8 else 10
  }

  predicate AreBlanks(b: seq<Byte>) {
    forall i | 0 <= i < |b| :: b[i] == 32 || b[i] == 9 || b[i] == 10
  }

  /** Blanks, at most one sign, the mark of a base, digits of that base, and a rest that goes on with no further one. */
  datatype Pieces = Pieces(blanks: seq<Byte>, sign: seq<Byte>, mark: seq<Byte>, radix: nat, digits: seq<Byte>, rest: seq<Byte>) {
    function Text(): seq<Byte> {
      blanks + sign + mark + digits + rest
    }

    predicate Fits(base: nat) {
      && AreBlanks(blanks) && (sign == [] || sign == PLUS || sign == MINUS)
      && Marks(base, mark, radix, digits + rest)
      && IsNumeral(digits, radix) && (rest != [] ==> DigitOf(rest[0]) >= radix)
      && (sign == [] && mark == [] && digits == [] && rest != [] ==> !AreBlanks(rest[..1]) && rest[..1] != PLUS && rest[..1] != MINUS)
    }

    /** Behind the digits, or the beginning if there are none. */
    function End(): nat {
      if digits == [] then 0 else |blanks| + |sign| + |mark| + |digits|
    }

    function Number(): int {
      var v: int := Value(digits, radix);
      if sign == MINUS then -v else v
    }
  }

  lemma SkipsTo(s: seq<Byte>, i: nat, j: nat)
    requires i <= j <= |s| && (forall k | i <= k < j :: IsSpace(s[k])) && (j < |s| ==> !IsSpace(s[j]))
    ensures SkipSpaces(s, i) == j
    decreases j - i
  {
    if i < j {
      SkipsTo(s, i + 1, j);
    }
  }

  lemma DigitsTo(s: seq<Byte>, i: nat, j: nat, base: nat)
    requires i <= j <= |s| && (forall k | i <= k < j :: DigitOf(s[k]) < base) && (j < |s| ==> DigitOf(s[j]) >= base)
    ensures DigitsEnd(s, i, base) == j
    decreases j - i
  {
    if i < j {
      DigitsTo(s, i + 1, j, base);
    }
  }

  /** The characters from i on are those of v. */
  predicate GoesOnAs(s: seq<Byte>, i: nat, v: seq<Byte>) {
    |s| == i + |v| && forall k | 0 <= k < |v| :: s[i + k] == v[k]
  }

  lemma MarkRead(s: seq<Byte>, base: nat, neg: bool, i: nat, p: seq<Byte>, radix: nat, u: seq<Byte>)
    requires GoesOnAs(s, i, p + u) && Marks(base, p, radix, u)
    ensures RadixOf(s, base, neg, i) == Start(neg, radix, i + |p|)
  {
    if p == [] {
      assert p + u == u;
      assert |u| > 0 ==> At(s, i) == s[i + 0] == u[0];
      assert |u| > 1 ==> At(s, i + 1) == u[1] && u[..2] == [u[0], u[1]];
    } else {
      var v := p + u;
      assert v[0] == p[0] && v[1] == p[1];
      assert At(s, i) == s[i + 0] == v[0] && At(s, i + 1) == v[1];
    }
  }

  /** What stands behind the sign is neither a blank nor a sign. */
  lemma FirstIsDigit(p: Pieces, base: nat)
    requires p.Fits(base) && base <= 36
    ensures
      var u := p.mark + (p.digits + p.rest);
      u != [] && p.sign == [] ==> !IsSpace(u[0]) && u[0] != 43 && u[0] != 45
  {
    var u := p.mark + (p.digits + p.rest);
    if p.mark != [] {
      assert u[0] == p.mark[0] == 48;
    } else if p.digits != [] {
      assert u[0] == p.digits[0] && DigitOf(u[0]) < p.radix <= 36;
    } else if p.rest != [] {
      assert u[0] == p.rest[0] && p.rest[..1] == [u[0]];
    }
  }

  lemma TextParts(p: Pieces)
    ensures var s, b := p.Text(), |p.blanks|;
            && (forall k | 0 <= k < b :: s[k] == p.blanks[k])
            && GoesOnAs(s, b, p.sign + (p.mark + (p.digits + p.rest)))
            && GoesOnAs(s, b + |p.sign|, p.mark + (p.digits + p.rest))
            && GoesOnAs(s, b + |p.sign| + |p.mark|, p.digits + p.rest)
  {
    assert p.Text() == p.blanks + (p.sign + (p.mark + (p.digits + p.rest)));
  }

  lemma SignRead(p: Pieces, base: nat)
    requires p.Fits(base) && base <= 36
    ensures var s, b := p.Text(), |p.blanks|;
            SkipSpaces(s, 0) == b && PastSign(s, b) == b + |p.sign| && (At(s, b) == 45 <==> p.sign == MINUS)
  {
    var s, b, u := p.Text(), |p.blanks|, p.mark + (p.digits + p.rest);
    TextParts(p);
    FirstIsDigit(p, base);
    hide Pieces.Text, Marks;
    var v := p.sign + u;
    if p.sign == [] {
      assert v == u;
    }
    assert |v| > 0 ==> At(s, b) == s[b + 0] == v[0];
    SkipsTo(s, 0, b);
  }

  lemma PiecesStart(p: Pieces, base: nat)
    requires p.Fits(base) && base <= 36
    ensures StartOf(p.Text(), base) == Start(p.sign == MINUS, p.radix, |p.blanks| + |p.sign| + |p.mark|)
    ensures DigitsOf(p.Text(), base) == p.digits
  {
    hide Pieces.Text, Marks, SkipSpaces, PastSign, RadixOf, GoesOnAs, IsNumeral, AreBlanks, DigitOf;
    var s, n, u := p.Text(), |p.blanks| + |p.sign| + |p.mark|, p.digits + p.rest;
    TextParts(p);
    SignRead(p, base);
    MarkRead(s, base, At(s, |p.blanks|) == 45, |p.blanks| + |p.sign|, p.mark, p.radix, u);
    DigitsRead(s, n, p.digits, p.rest, p.radix);
  }

  lemma DigitsRead(s: seq<Byte>, n: nat, t: seq<Byte>, r: seq<Byte>, base: nat)
    requires GoesOnAs(s, n, t + r) && IsNumeral(t, base) && (r != [] ==> DigitOf(r[0]) >= base)
    ensures n <= |s| && s[n..DigitsEnd(s, n, base)] == t
  {
    var v := t + r;
    forall k | n <= k < n + |t|
      ensures s[k] == t[k - n]
    {
      assert s[n + (k - n)] == v[k - n];
    }
    assert s[n..n + |t|] == t;
    assert r != [] ==> s[n + |t|] == (t + r)[|t|] == r[0];
    DigitsTo(s, n, n + |t|, base);
  }

  /** strtol on any text: the number its pieces make, held between the least and the greatest long. */
  lemma StrtolReads(p: Pieces, base: nat)
    requires p.Fits(base) && (base == 0 || 2 <= base <= 36)
    ensures EndOf(p.Text(), base) == p.End()
    ensures
      var v := p.Number();
      Clamped(SignedValue(p.Text(), base)) == if v < -0x8000_0000 then -0x8000_0000 else if v > 0x7FFF_FFFF then 0x7FFF_FFFF else v
  {
    hide Pieces.Text, Pieces.Fits, StartOf, DigitsOf, Value;
    PiecesStart(p, base);
  }

  /** strtoul on any text: the same number modulo 2^32, unless its magnitude takes more than 32 bits. */
  lemma StrtoulReads(p: Pieces, base: nat)
    requires p.Fits(base) && (base == 0 || 2 <= base <= 36)
    ensures EndOf(p.Text(), base) == p.End()
    ensures
      var v := p.Number();
      Unsigned(p.Text(), base) == if v > 0xFFFF_FFFF || -v > 0xFFFF_FFFF then 0xFFFF_FFFF else if v < 0 then 0x1_0000_0000 + v else v
  {
    hide Pieces.Text, Pieces.Fits, StartOf, DigitsOf, Value;
    PiecesStart(p, base);
  }

  lemma MarkSplit(s: seq<Byte>, base: nat, i: nat)
    requires i <= |s|
    ensures var st := RadixOf(s, base, false, i); i <= st.at <= |s| && Marks(base, s[i..st.at], st.base, s[st.at..])
  {
    if i + 1 < |s| {
      assert s[i..][..2] == s[i..i + 2] == [s[i], s[i + 1]];
    }
  }

  lemma BlanksSplit(s: seq<Byte>)
    ensures SkipSpaces(s, 0) <= PastSign(s, SkipSpaces(s, 0)) <= |s|
    ensures var b := SkipSpaces(s, 0);
            && AreBlanks(s[..b]) && (b < |s| ==> !AreBlanks([s[b]]))
            && var sign := s[b..PastSign(s, b)];
            if sign == [] then b < |s| ==> [s[b]] != PLUS && [s[b]] != MINUS else sign == PLUS || sign == MINUS
  {
    var b := SkipSpaces(s, 0);
    assert b < |s| ==> [s[b]][0] == s[b];
  }

  /** Every text has such pieces. */
  lemma EveryTextHasPieces(s: seq<Byte>, base: nat) returns (p: Pieces)
    ensures p.Text() == s && p.Fits(base)
  {
    hide RadixOf, Marks, SkipSpaces, PastSign, DigitOf, AreBlanks, Pieces.Text, Pieces.Fits, IsNumeral, DigitsEnd;
    var b := SkipSpaces(s, 0);
    var i := PastSign(s, b);
    BlanksSplit(s);
    MarkSplit(s, base, i);
    var st := RadixOf(s, base, false, i);
    var j := DigitsEnd(s, st.at, st.base);
    p := Pieces(s[..b], s[b..i], s[i..st.at], st.base, s[st.at..j], s[j..]);
    Rejoin(s, b, i, st.at, j);
    TextIs(p);
    PiecesFit(p, base, if j < |s| then s[j] else 0);
  }

  lemma PiecesFit(p: Pieces, base: nat, c: Byte)
    requires AreBlanks(p.blanks) && (p.sign == [] || p.sign == PLUS || p.sign == MINUS)
    requires Marks(base, p.mark, p.radix, p.digits + p.rest) && IsNumeral(p.digits, p.radix)
    requires p.rest != [] ==> p.rest[0] == c && DigitOf(c) >= p.radix
    requires p.sign == [] && p.mark == [] && p.digits == [] && p.rest != [] ==> !AreBlanks([c]) && [c] != PLUS && [c] != MINUS
    ensures p.Fits(base)
  {
    assert p.rest != [] ==> p.rest[..1] == [c];
    hide Marks, AreBlanks, IsNumeral;
  }

  lemma TextIs(p: Pieces)
    ensures p.Text() == p.blanks + p.sign + p.mark + p.digits + p.rest
  {
  }

  lemma Rejoin(s: seq<Byte>, b: nat, i: nat, n: nat, j: nat)
    requires b <= i <= n <= j <= |s|
    ensures s[..b] + s[b..i] + s[i..n] + s[n..j] + s[j..] == s && s[n..j] + s[j..] == s[n..]
  {
  }

  // ----- printing

  function Pow(base: nat, k: nat): nat {
    if k == 0 then 1 else Pow(base, k - 1) * base
  }

  /** The character ui2a stores for a digit. */
  function DigitChar(d: nat, upper: bool): (c: Byte)
    requires d < 36
    ensures DigitOf(c) == d && (c == 48 <==> d == 0) && c != 0
  {
    d + if d < 10 then 48 else (if upper then 65 else 97) - 10
  }

  /** Decimal digits, and letters that are all capitals or all small. */
  predicate IsCased(s: seq<Byte>, upper: bool) {
    forall i | 0 <= i < |s| :: 48 <= s[i] <= 57 || if upper then 65 <= s[i] <= 90 else 97 <= s[i] <= 122
  }

  lemma CasedMore(s: seq<Byte>, d: nat, upper: bool)
    requires IsCased(s, upper) && d < 36
    ensures IsCased(s + [DigitChar(d, upper)], upper)
  {
  }

  lemma {:induction false} PowAdd(base: nat, j: nat, k: nat)
    ensures Pow(base, j + k) == Pow(base, j) * Pow(base, k)
  {
    if k > 0 {
      PowAdd(base, j, k - 1);
      assert Pow(base, j) * (Pow(base, k - 1) * base) == Pow(base, j) * Pow(base, k - 1) * base;
    }
  }

  /** Dividing by the highest power of the base: one digit and what is left. */
  lemma TopDigit(num: nat, d: nat, base: nat)
    requires d > 0 && num < d * base
    ensures num / d < base && num % d < d && num == num / d * d + num % d
  {
    var q, r := num / d, num % d;
    assert num == q * d + r;
    if q >= base {
      MulLe(base, q, d);
    }
  }

  lemma PowDivides(base: nat, k: nat)
    requires base >= 2
    ensures Pow(base, k) > 0
    ensures Pow(base, k) / base == if k == 0 then 0 else Pow(base, k - 1)
  {
    PowPositive(base, k);
    if k > 0 {
      DivExact(Pow(base, k - 1), base);
    }
  }

  lemma {:induction false} PowPositive(base: nat, k: nat)
    requires base >= 2
    ensures Pow(base, k) > 0
  {
    if k > 0 {
      PowPositive(base, k - 1);
      MulLe(1, base, Pow(base, k - 1));
    }
  }

  lemma DivIs(x: nat, d: nat, q: nat, r: nat)
    requires d > 0 && x == q * d + r && r < d
    ensures x / d == q && x % d == r
  {
    var p, t := x / d, x % d;
    assert x == p * d + t;
    assert (p - q) * d == r - t;
    if p > q {
      MulLe(1, p - q, d);
    } else if p < q {
      MulLe(1, q - p, d);
    }
  }

  lemma DivExact(a: nat, b: nat)
    requires b > 0
    ensures a * b / b == a
  {
    DivIs(a * b, b, a, 0);
  }

  lemma BelowTop(num: nat, d: nat, base: nat)
    requires d > 0 && num / d < base
    ensures num < d * base
  {
    var q, r := num / d, num % d;
    assert num == q * d + r;
    MulLe(q + 1, base, d);
    assert (q + 1) * d == q * d + d;
  }

  lemma Horner(v: nat, d: nat, base: nat, q: nat, r: nat)
    ensures v * (d * base) + (q * d + r) == (v * base + q) * d + r
  {
    assert v * (d * base) == v * base * d;
  }

  lemma ValueOfNext(s: seq<Byte>, c: Byte, base: nat)
    ensures Value(s + [c], base) == Value(s, base) * base + DigitOf(c)
  {
    assert (s + [c])[..|s|] == s;
  }

  /** k digits are still to be printed: what is printed and what is left make up the number. */
  ghost predicate Printing(n: nat, out: seq<Byte>, num: nat, base: nat, k: nat) {
    && IsNumeral(out, base) && num < Pow(base, k)
    && n == Value(out, base) * Pow(base, k) + num
  }

  lemma PrintOne(n: nat, out: seq<Byte>, num: nat, base: nat, k: nat, c: Byte)
    requires Printing(n, out, num, base, k + 1) && 2 <= base
    requires Pow(base, k) > 0 && DigitOf(c) == num / Pow(base, k)
    ensures num / Pow(base, k) < base && Printing(n, out + [c], num % Pow(base, k), base, k)
  {
    var d, v := Pow(base, k), Value(out, base);
    assert Pow(base, k + 1) == d * base;
    hide Pow, DigitOf;
    TopDigit(num, d, base);
    ValueOfNext(out, c, base);
    Horner(v, d, base, num / d, num % d);
    hide Value;
  }

  lemma NextPower(num: nat, d: nat, base: nat)
    requires d > 0 && base >= 2 && num / d >= base
    ensures d < d * base <= num
  {
    assert num == num / d * d + num % d;
    MulLe(base, num / d, d);
    MulLe(2, base, d);
  }

  /** How many digits a number has. */
  function Digits(num: nat, base: nat): (k: nat)
    requires base >= 2
    ensures k >= 1
  {
    if num < base then 1
    else
      DivShrinks(num, base);
      1 + Digits(num / base, base)
  }

  lemma DivBounds(num: nat, base: nat, lo: nat, hi: nat)
    requires base >= 1 && lo * base <= num < hi * base
    ensures lo <= num / base < hi
  {
    var q := num / base;
    assert num == q * base + num % base;
    if q < lo {
      MulLe(q + 1, lo, base);
    }
    if q >= hi {
      MulLe(hi, q, base);
    }
  }

  /** The highest power of the base counts the digits. */
  lemma {:induction false} DigitsOfPower(num: nat, base: nat, k: nat)
    requires base >= 2 && (k > 0 ==> Pow(base, k) <= num) && num < Pow(base, k + 1)
    ensures Digits(num, base) == k + 1
  {
    if k == 0 {
      assert Pow(base, 1) == Pow(base, 0) * base == base;
    } else {
      PowPositive(base, k - 1);
      DivBounds(num, base, Pow(base, k - 1), Pow(base, k));
      MulLe(1, Pow(base, k - 1), base);
      DigitsOfPower(num / base, base, k - 1);
    }
  }

  lemma {:induction false} FewDigits(num: nat, base: nat, b: nat, m: nat)
    requires 2 <= b <= base && m > 0 && num < Pow(b, m)
    ensures Digits(num, base) <= m
    decreases m
  {
    hide Pow, Digits;
    PowZeroOne(b);
    if num < base {
      OneDigit(num, base);
    } else {
      var q := DropDigit(num, base, b, m);
      FewDigits(q, base, b, m - 1);
    }
  }

  lemma PowZeroOne(b: nat)
    ensures Pow(b, 0) == 1 && Pow(b, 1) == b
  {
    assert Pow(b, 1) == Pow(b, 0) * b;
  }

  lemma OneDigit(num: nat, base: nat)
    requires base >= 2 && num < base
    ensures Digits(num, base) == 1
  {
  }

  lemma DropDigit(num: nat, base: nat, b: nat, m: nat) returns (q: nat)
    requires 2 <= b <= base <= num && m > 1 && num < Pow(b, m)
    ensures q < Pow(b, m - 1) && Digits(num, base) == 1 + Digits(q, base)
  {
    q := num / base;
    assert Pow(b, m) == Pow(b, m - 1) * b;
    hide Pow;
    DivBelow(num, base, b, Pow(b, m - 1));
  }

  lemma DivBelow(num: nat, base: nat, b: nat, p: nat)
    requires 1 <= b <= base && num < p * b
    ensures num / base < p
  {
    MulLe(b, base, p);
    assert 0 * base <= num < p * base;
    DivBounds(num, base, 0, p);
  }

  lemma DivShrinks(num: nat, base: nat)
    requires 2 <= base <= num
    ensures num / base < num
  {
    MulLe(2, base, num);
    assert 0 * base <= num < num * base;
    DivBounds(num, base, 0, num);
  }

  /** A word has at most 32 digits, and at most ten from base 10 on. */
  lemma WordDigits(num: nat, base: nat)
    requires base >= 2 && num < TWO32
    ensures Digits(num, base) <= 32 && (base >= 10 ==> Digits(num, base) <= 10)
  {
    PowerOfTwo();
    PowerOfTen();
    hide Pow, Digits;
    FewDigits(num, base, 2, 32);
    if base >= 10 {
      FewDigits(num, base, 10, 10);
    }
  }

  lemma PowerOfTwo()
    ensures Pow(2, 32) == TWO32
  {
    assert Pow(2, 8) == 256;
    PowAdd(2, 8, 8);
    PowAdd(2, 16, 16);
  }

  lemma PowerOfTen()
    ensures Pow(10, 10) > TWO32
  {
    assert Pow(10, 5) == 100000;
    PowAdd(10, 5, 5);
  }

  lemma StartPrinting(num: nat, base: nat, k: nat)
    requires base >= 2 && Pow(base, k) > 0 && num / Pow(base, k) < base
    ensures Printing(num, [], num, base, k + 1)
  {
    BelowTop(num, Pow(base, k), base);
  }

  lemma QuotientPositive(num: nat, d: nat)
    requires 0 < d <= num
    ensures num / d > 0
  {
    BelowIfZero(num, d);
  }

  lemma BelowIfZero(num: nat, d: nat)
    requires 0 < d
    ensures num / d == 0 ==> num < d
  {
    assert num == num / d * d + num % d;
  }

  /** A non-zero first digit, or the only one. */
  lemma FirstDigit(num: nat, base: nat, k: nat)
    requires base >= 2 && Pow(base, k) > 0 && (k > 0 ==> Pow(base, k) <= num)
    ensures k > 0 ==> num / Pow(base, k) > 0
  {
    if k > 0 {
      QuotientPositive(num, Pow(base, k));
    }
  }

  lemma AllPrinted(n: nat, out: seq<Byte>, num: nat, base: nat)
    requires Printing(n, out, num, base, 0)
    ensures Value(out, base) == n && IsNumeral(out, base)
  {
  }

  /** The first loop of ui2a: the highest power of the base that is not above the number. */
  method HighestPower(num: nat, base: nat) returns (d: nat, ghost k: nat)
    requires num < TWO32 && 2 <= base
    ensures d == Pow(base, k) > 0 && k + 1 == Digits(num, base) && (k > 0 ==> d <= num) && num / d < base
  {
    d, k := 1, 0;
    while num / d >= base
      invariant d == Pow(base, k) && 0 < d && (k > 0 ==> d <= num)
      decreases num - d
    {
      NextPower(num, d, base);
      d := d * base;
      k := k + 1;
    }
    BelowTop(num, d, base);
    DigitsOfPower(num, base, k);
  }

  /**
   * ui2a: the numeral of num and a NUL, stored from `at` on, for any buffer with room for them. It has no leading
   * zero, its letters have the case asked for, and d never exceeds num.
   */
  method Ui2a(num: nat, base: nat, upper: bool, bf: array<Byte>, at: nat) returns (end: nat)
    requires num < TWO32 && 2 <= base <= 36 && at + Digits(num, base) < bf.Length
    modifies bf
    ensures end == at + Digits(num, base) && bf[end] == 0
    ensures IsNumeral(bf[at..end], base) && Value(bf[at..end], base) == num && IsCased(bf[at..end], upper)
    ensures end > at + 1 ==> bf[at] != 48
    ensures bf[..at] == old(bf[..at]) && bf[end + 1..] == old(bf[..])[end + 1..]
  {
    hide Pow, Digits, Printing, IsNumeral, Value, DigitOf, DigitChar;
    var d;
    ghost var k;
    d, k := HighestPower(num, base);
    StartPrinting(num, base, k);
    var left: nat, n := num, 0;
    ghost var todo: nat := k + 1;
    end := at;
    assert bf[at..end] == [];
    hide IsCased;
    while d != 0
      invariant todo <= k + 1 && (if todo == 0 then d == 0 else d == Pow(base, todo - 1) > 0)
      invariant end == at + (k + 1 - todo) && n == end - at
      invariant Printing(num, bf[at..end], left, base, todo) && (todo == k + 1 ==> left == num)
      invariant todo <= k && k > 0 ==> bf[at] != 48
      invariant IsCased(bf[at..end], upper)
      invariant bf[..at] == old(bf[..at]) && forall i | end <= i < bf.Length :: bf[i] == old(bf[i])
      decreases todo
    {
      FirstDigit(num, base, k);
      ghost var before := bf[at..end];
      var dgt;
      dgt, left, d := DivideOff(left, d, base, num, before, todo - 1, upper);
      CasedMore(before, dgt, upper);
      todo := todo - 1;
      if n != 0 || dgt > 0 || d == 0 {
        PutDigit(bf, end, DigitChar(dgt, upper), at);
        end := end + 1;
        n := n + 1;
      }
    }
    AllPrinted(num, bf[at..end], left, base);
    PutDigit(bf, end, 0, at);
  }

  /** The three divisions of one turn: the digit, what is left of the number, and the next lower power. */
  method DivideOff(left: nat, d: nat, base: nat, ghost num: nat, ghost out: seq<Byte>, ghost k: nat, ghost upper: bool)
    returns (dgt: nat, rest: nat, lower: nat)
    requires 2 <= base <= 36 && d == Pow(base, k) > 0 && Printing(num, out, left, base, k + 1)
    ensures dgt == left / d < base && Printing(num, out + [DigitChar(dgt, upper)], rest, base, k)
    ensures if k == 0 then lower == 0 else lower == Pow(base, k - 1) > 0
  {
    hide Pow, Printing;
    PowDivides(base, k);
    DigitFits(num, out, left, base, k);
    PrintOne(num, out, left, base, k, DigitChar(left / d, upper));
    dgt, rest, lower := left / d, left % d, d / base;
    if k > 0 {
      PowPositive(base, k - 1);
    }
  }

  method PutDigit(bf: array<Byte>, end: nat, c: Byte, ghost at: nat)
    requires at <= end < bf.Length
    modifies bf
    ensures bf[end] == c && bf[at..end + 1] == old(bf[at..end]) + [c] && bf[at..end] == old(bf[at..end])
    ensures bf[..end] == old(bf[..end]) && bf[..at] == old(bf[..at])
    ensures forall i | end < i < bf.Length :: bf[i] == old(bf[i])
  {
    bf[end] := c;
  }

  lemma DigitFits(n: nat, out: seq<Byte>, num: nat, base: nat, k: nat)
    requires Printing(n, out, num, base, k + 1) && 2 <= base && Pow(base, k) > 0
    ensures num / Pow(base, k) < base
  {
    TopDigit(num, Pow(base, k), base);
  }

  // ----- strtoul undoes ui2a

  lemma {:induction false} WholeNumeral(t: seq<Byte>, i: nat, base: nat)
    requires i <= |t| && IsNumeral(t, base) && base <= 36
    ensures DigitsEnd(t + [0], i, base) == |t|
    decreases |t| - i
  {
    if i < |t| {
      assert (t + [0])[i] == t[i];
      WholeNumeral(t, i + 1, base);
    } else {
      assert DigitOf((t + [0])[i]) == 36;
    }
  }

  /** What ui2a prints (no leading zero), strtoul reads back in the same base, up to the last digit. */
  lemma ReadsWhatIsPrinted(t: seq<Byte>, base: nat)
    requires 2 <= base <= 36
    requires t != [] && IsNumeral(t, base) && (|t| > 1 ==> t[0] != 48)
    ensures var s := t + [0];
            StartOf(s, base) == Start(false, base, 0) && ValueOf(s, base) == Value(t, base) && EndOf(s, base) == |t|
  {
    var s := t + [0];
    assert s[0] == t[0] && DigitOf(t[0]) < base;
    assert SkipSpaces(s, 0) == 0;
    if |t| == 1 {
      assert At(s, 1) == 0;
    }
    WholeNumeral(t, 0, base);
    assert s[0..|t|] == t;
  }
}
