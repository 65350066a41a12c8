/** What a string, an unquoted value and a separator are in the texts jsmn_parse accepts, character by character. */
module JsmnLexemes {
  import opened JsmnSpec

  /** Between two members. */
  predicate IsSeparator(c: char) {
    c == ' ' || c == '\t' || c == '\r' || c == '\n' || c == ':' || c == ','
  }

  // ----- strings

  /** One plain character, or a backslash with one of nine characters. */
  predicate IsUnit(u: string) {
    if |u| == 2 then
      && u[0] == '\\'
      && (u[1] == '\"' || u[1] == '\\' || u[1] == '/' || u[1] == 'b' || u[1] == 'f'
          || u[1] == 'n' || u[1] == 'r' || u[1] == 't' || u[1] == 'u')
    else
      |u| == 1 && u[0] != '\"' && u[0] != '\\' && u[0] != '\0'
  }

  predicate AreUnits(us: seq<string>) {
    forall i | 0 <= i < |us| :: IsUnit(us[i])
  }

  function Join(us: seq<string>): string {
    if us == [] then "" else us[0] + Join(us[1..])
  }

  /** What may stand between two quotes. */
  ghost predicate IsBody(t: string) {
    exists us :: AreUnits(us) && Join(us) == t
  }

  ghost predicate BodyTo(js: string, i: nat, e: nat) {
    i <= e <= |js| && IsBody(js[i..e])
  }

  ghost predicate IsString(js: string, i: nat, e: nat) {
    BodyTo(js, i, e) && At(js, e) == '\"'
  }

  ghost predicate IsBadEscape(js: string, i: nat, e: nat) {
    BodyTo(js, i, e) && At(js, e) == '\\' && !IsUnit(['\\', At(js, e + 1)])
  }

  ghost predicate IsUnclosed(js: string, i: nat, e: nat) {
    BodyTo(js, i, e) && At(js, e) == '\0'
  }

  ghost predicate BadEscape(js: string, i: nat) {
    exists e :: IsBadEscape(js, i, e)
  }

  ghost predicate Unclosed(js: string, i: nat) {
    exists e :: IsUnclosed(js, i, e)
  }

  lemma {:induction false} UnitsScanned(js: string, i: nat, us: seq<string>)
    requires AreUnits(us) && i + |Join(us)| <= |js| && js[i..i + |Join(us)|] == Join(us)
    ensures ScanString(js, i) == ScanString(js, i + |Join(us)|)
    decreases |us|
  {
    if us != [] {
      var t, u, n := Join(us), us[0], |us[0]|;
      forall k | 0 <= k < |t|
        ensures t[k] == js[i + k]
      {
        assert js[i..i + |t|][k] == js[i + k];
      }
      assert t[..n] == u && t[n..] == Join(us[1..]);
      assert js[i] == t[0] == u[0];
      if n == 2 {
        assert js[i + 1] == t[1] == u[1];
      }
      assert js[i + n..i + |t|] == t[n..];
      UnitsScanned(js, i + n, us[1..]);
    }
  }

  lemma BodyScanned(js: string, i: nat, e: nat)
    requires BodyTo(js, i, e)
    ensures ScanString(js, i) == ScanString(js, e)
  {
    var us :| AreUnits(us) && Join(us) == js[i..e];
    UnitsScanned(js, i, us);
  }

  lemma EmptyBody(js: string, i: nat)
    requires i <= |js|
    ensures BodyTo(js, i, i)
  {
    assert Join([]) == js[i..i];
  }

  lemma LongerBody(js: string, i: nat, n: nat, e: nat)
    requires i <= n && BodyTo(js, n, e) && IsUnit(js[i..n])
    ensures BodyTo(js, i, e)
  {
    var us :| AreUnits(us) && Join(us) == js[n..e];
    var all := [js[i..n]] + us;
    assert all[1..] == us && Join(all) == js[i..n] + js[n..e] == js[i..e];
  }

  /** Where the scan stops. */
  lemma {:induction false} StringStops(js: string, i: nat) returns (e: nat)
    requires i <= |js|
    ensures match ScanString(js, i)
      case Found(x) => e == x && IsString(js, i, e)
      case Illegal => IsBadEscape(js, i, e)
      case Unterminated => IsUnclosed(js, i, e)
    decreases |js| - i
  {
    var c := At(js, i);
    var n := if c == '\\' then i + 2 else i + 1;
    if c == '\0' || c == '\"' || (c == '\\' && !IsEscape(At(js, i + 1))) {
      EmptyBody(js, i);
      e := i;
    } else {
      assert js[i..n] == if c == '\\' then [c, js[i + 1]] else [c];
      e := StringStops(js, n);
      LongerBody(js, i, n, e);
    }
  }

  lemma ScanFinds(js: string, i: nat, e: nat)
    requires IsString(js, i, e)
    ensures ScanString(js, i) == Found(e)
  {
    BodyScanned(js, i, e);
  }

  lemma ScanRejects(js: string, i: nat, e: nat)
    requires IsBadEscape(js, i, e)
    ensures ScanString(js, i) == Illegal
  {
    BodyScanned(js, i, e);
  }

  lemma ScanMisses(js: string, i: nat, e: nat)
    requires IsUnclosed(js, i, e)
    ensures ScanString(js, i) == Unterminated
  {
    BodyScanned(js, i, e);
  }

  /** The scan finds a closing quote, a bad escape or the end of the text behind a run of units, and nothing else. */
  lemma StringExact(js: string, i: nat)
    requires i <= |js|
    ensures forall e: nat :: ScanString(js, i) == Found(e) <==> IsString(js, i, e)
    ensures ScanString(js, i) == Illegal <==> BadEscape(js, i)
    ensures ScanString(js, i) == Unterminated <==> Unclosed(js, i)
  {
    hide ScanString, IsString, IsBadEscape, IsUnclosed;
    var x := StringStops(js, i);
    forall e: nat | IsString(js, i, e)
      ensures ScanString(js, i) == Found(e)
    {
      ScanFinds(js, i, e);
    }
    forall e: nat | IsBadEscape(js, i, e)
      ensures ScanString(js, i) == Illegal
    {
      ScanRejects(js, i, e);
    }
    forall e: nat | IsUnclosed(js, i, e)
      ensures ScanString(js, i) == Unterminated
    {
      ScanMisses(js, i, e);
    }
  }

  /** A character as it is written in a string. */
  function Quoted(c: char): string {
    if c == '\"' || c == '\\' then ['\\', c] else [c]
  }

  function QuotedAll(t: string): seq<string> {
    seq(|t|, i requires 0 <= i < |t| => Quoted(t[i]))
  }

  /** Any text without NUL, its quotes and backslashes escaped, is scanned to its end. */
  lemma QuotedIsScanned(before: string, t: string, after: string)
    requires '\0' !in t
    ensures var q := Join(QuotedAll(t));
            ScanString(before + q + "\"" + after, |before|) == Found(|before| + |q|)
  {
    var us := QuotedAll(t);
    var q, i := Join(us), |before|;
    var js := before + q + "\"" + after;
    assert AreUnits(us);
    assert js[i..i + |q|] == q;
    ScanFinds(js, i, i + |q|);
  }

  // ----- unquoted values

  /** A visible character that ends no value. */
  predicate IsPlain(c: char) {
    ' ' < c <= '~' && c != ':' && c != ',' && c != ']' && c != '}'
  }

  /** What may follow a value. */
  predicate EndsValue(c: char) {
    c == '\0' || IsSeparator(c) || c == ']' || c == '}'
  }

  predicate PlainTo(js: string, i: nat, e: nat) {
    i <= e <= |js| && forall k | i <= k < e :: IsPlain(js[k])
  }

  predicate StartsValue(c: char) {
    c != '\0' && c != '{' && c != '}' && c != '[' && c != ']' && c != '\"' && !IsSeparator(c)
  }

  predicate IsValue(js: string, i: nat, e: nat) {
    StartsValue(At(js, i)) && i < e && PlainTo(js, i, e) && EndsValue(At(js, e))
  }

  predicate IsBadValue(js: string, i: nat, e: nat) {
    PlainTo(js, i, e) && !IsPlain(At(js, e)) && !EndsValue(At(js, e))
  }

  ghost predicate BadValue(js: string, i: nat) {
    exists e :: IsBadValue(js, i, e)
  }

  lemma {:induction false} PlainScanned(js: string, i: nat, e: nat)
    requires PlainTo(js, i, e)
    ensures ScanPrimitive(js, i) == ScanPrimitive(js, e)
    decreases e - i
  {
    if i < e {
      assert IsPlain(js[i]);
      PlainScanned(js, i + 1, e);
    }
  }

  lemma {:induction false} ValueStops(js: string, i: nat) returns (e: nat)
    requires i <= |js|
    ensures PlainTo(js, i, e)
    ensures match ScanPrimitive(js, i)
      case Found(x) => e == x && EndsValue(At(js, e))
      case Illegal => IsBadValue(js, i, e)
      case Unterminated => false
    decreases |js| - i
  {
    e := i;
    if IsPlain(At(js, i)) {
      e := ValueStops(js, i + 1);
    }
  }

  /** An unquoted value extends over the visible characters up to a separator, a closing bracket or the end. */
  lemma ValueExact(js: string, i: nat)
    requires StartsValue(At(js, i))
    ensures forall e: nat :: ScanPrimitive(js, i) == Found(e) <==> IsValue(js, i, e)
    ensures ScanPrimitive(js, i) == Illegal <==> BadValue(js, i)
  {
    var x := ValueStops(js, i);
    forall e: nat | PlainTo(js, i, e)
      ensures ScanPrimitive(js, i) == ScanPrimitive(js, e)
    {
      PlainScanned(js, i, e);
    }
  }

  lemma SeparatorExact(c: char)
    ensures IsSkipped(c) <==> IsSeparator(c)
  {
  }
}
