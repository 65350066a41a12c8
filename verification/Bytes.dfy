/** Bytes, the bytes of a string constant, and optional values. */
module Bytes {

  datatype Option<T> = None | Some(value: T)

  type Byte = b: int | 0 <= b < 256

  function Ascii(s: string): (b: seq<Byte>)
    ensures |b| == |s|
  {
    seq(|s|, i requires 0 <= i < |s| => s[i] as int % 256)
  }

  /** The bytes t begin at pos. */
  predicate LiesAt(s: seq<Byte>, pos: nat, t: seq<Byte>) {
    pos + |t| <= |s| && s[pos..pos + |t|] == t
  }

  lemma LiesParts(s: seq<Byte>, pos: nat, a: seq<Byte>, b: seq<Byte>)
    requires LiesAt(s, pos, a + b)
    ensures LiesAt(s, pos, a) && LiesAt(s, pos + |a|, b)
  {
    var t := s[pos..pos + |a + b|];
    assert t[..|a|] == a && t[|a|..] == b;
    assert s[pos..pos + |a|] == t[..|a|] && s[pos + |a|..pos + |a| + |b|] == t[|a|..];
  }
}
