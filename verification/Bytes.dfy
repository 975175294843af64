/** Bytes, C strings and "this text stands at this offset" reasoning, shared by every other module. */
module Bytes {
  type Byte = b: int | 0 <= b < 256

  datatype Option<+T> = None | Some(value: T)

  const INT_MAX: int := 0x7FFF_FFFF
  const INT_MIN: int := -0x8000_0000

  // The values of a C `int`.
  type CInt = n: int | INT_MIN <= n <= INT_MAX

  // Text `t` stands in `s` at offset `o`.
  predicate At(s: seq<Byte>, o: nat, t: seq<Byte>) {
    o + |t| <= |s| && s[o..o + |t|] == t
  }

  lemma AtIndex(s: seq<Byte>, o: nat, t: seq<Byte>, i: nat)
    requires At(s, o, t) && i < |t|
    ensures o + i < |s| && s[o + i] == t[i]
  {
    assert s[o..o + |t|][i] == t[i];
  }

  lemma AtSplit(s: seq<Byte>, o: nat, a: seq<Byte>, b: seq<Byte>)
    requires At(s, o, a + b)
    ensures At(s, o, a) && At(s, o + |a|, b)
    ensures o + |a| + |b| <= |s|
  {
    var t := a + b;
    assert s[o..o + |a|] == s[o..o + |t|][..|a|] == a;
    assert s[o + |a|..o + |a| + |b|] == s[o..o + |t|][|a|..] == b;
  }

  // What a C string function sees of a byte string: the bytes before the first NUL.
  function CString(t: seq<Byte>): (c: seq<Byte>)
    ensures 0 !in c && c <= t
    ensures 0 !in t ==> c == t
  {
    if t == [] || t[0] == 0 then [] else [t[0]] + CString(t[1..])
  }
}
