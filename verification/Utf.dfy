/**
 * The conversion of a JSON \uXXXX escape (or a pair of them) to UTF-8
 * (routerd/3rdparty/cjson/cJSON.c:661-816), beside reference definitions of
 * UTF-16 (section 2 of RFC 2781) and of well-formed UTF-8 (section 4 of RFC 3629).
 */
module Utf {
  import opened Bytes

  const BACKSLASH: Byte := 92
  const LOWER_U: Byte := 117

  // ---------------------------------------------------------------- hex digits

  predicate IsHex(b: Byte) {
    48 <= b <= 57 || 65 <= b <= 70 || 97 <= b <= 102
  }

  function HexValue(b: Byte): (v: int)
    requires IsHex(b)
    ensures 0 <= v < 16
  {
    if b <= 57 then b - 48 else if b <= 70 then b - 55 else b - 87
  }

  predicate AllHex4(s: seq<Byte>, p: nat)
    requires p + 4 <= |s|
  {
    IsHex(s[p]) && IsHex(s[p + 1]) && IsHex(s[p + 2]) && IsHex(s[p + 3])
  }

  // The four-digit number at p; a bad digit anywhere makes the whole number 0.
  function Hex4(s: seq<Byte>, p: nat): (h: int)
    requires p + 4 <= |s|
    ensures 0 <= h < 0x10000
  {
    if AllHex4(s, p) then
      HexValue(s[p]) * 4096 + HexValue(s[p + 1]) * 256 + HexValue(s[p + 2]) * 16 + HexValue(s[p + 3])
    else 0
  }

  // The digit loop itself: shift-and-add with an early exit on the first bad digit.
  method ParseHex4(s: seq<Byte>, p: nat) returns (h: int)
    requires p + 4 <= |s|
    ensures h == Hex4(s, p)
  {
    h := 0;
    for i := 0 to 4
      invariant forall k :: p <= k < p + i ==> IsHex(s[k])
      invariant i == 0 ==> h == 0
      invariant i == 1 ==> h == HexValue(s[p]) * 16
      invariant i == 2 ==> h == HexValue(s[p]) * 256 + HexValue(s[p + 1]) * 16
      invariant i == 3 ==> h == HexValue(s[p]) * 4096 + HexValue(s[p + 1]) * 256 + HexValue(s[p + 2]) * 16
      invariant i == 4 ==> h == HexValue(s[p]) * 4096 + HexValue(s[p + 1]) * 256 + HexValue(s[p + 2]) * 16 + HexValue(s[p + 3])
    {
      var b := s[p + i];
      if !IsHex(b) {
        return 0;
      }
      h := h + HexValue(b);
      if i < 3 {
        h := h * 16;
      }
    }
  }

  // ---------------------------------------------------------------- UTF-8

  predicate Scalar(cp: int) {
    0 <= cp < 0xD800 || 0xE000 <= cp <= 0x10FFFF
  }

  // The bytes the conversion writes for a code point.
  function Utf8(cp: int): (bytes: seq<Byte>)
    requires 0 <= cp <= 0x10FFFF
    ensures 1 <= |bytes| <= 4
    ensures cp < 0x10000 ==> |bytes| <= 3
  {
    if cp < 0x80 then [cp]
    else if cp < 0x800 then [0xC0 + cp / 64, 0x80 + cp % 64]
    else if cp < 0x10000 then [0xE0 + cp / 4096, 0x80 + cp / 64 % 64, 0x80 + cp % 64]
    else [0xF0 + cp / 262144, 0x80 + cp / 4096 % 64, 0x80 + cp / 64 % 64, 0x80 + cp % 64]
  }

  predicate Tail(b: Byte) {
    0x80 <= b <= 0xBF
  }

  // The ABNF of section 4 of RFC 3629, one disjunct per row.
  predicate WellFormed(b: seq<Byte>) {
    || (|b| == 1 && b[0] <= 0x7F)
    || (|b| == 2 && 0xC2 <= b[0] <= 0xDF && Tail(b[1]))
    || (|b| == 3 && b[0] == 0xE0 && 0xA0 <= b[1] <= 0xBF && Tail(b[2]))
    || (|b| == 3 && 0xE1 <= b[0] <= 0xEC && Tail(b[1]) && Tail(b[2]))
    || (|b| == 3 && b[0] == 0xED && 0x80 <= b[1] <= 0x9F && Tail(b[2]))
    || (|b| == 3 && 0xEE <= b[0] <= 0xEF && Tail(b[1]) && Tail(b[2]))
    || (|b| == 4 && b[0] == 0xF0 && 0x90 <= b[1] <= 0xBF && Tail(b[2]) && Tail(b[3]))
    || (|b| == 4 && 0xF1 <= b[0] <= 0xF3 && Tail(b[1]) && Tail(b[2]) && Tail(b[3]))
    || (|b| == 4 && b[0] == 0xF4 && 0x80 <= b[1] <= 0x8F && Tail(b[2]) && Tail(b[3]))
  }

  // The code point a well-formed sequence stands for.
  function Utf8Decode(b: seq<Byte>): (cp: int)
    requires WellFormed(b)
    ensures Scalar(cp)
  {
    if |b| == 1 then b[0]
    else if |b| == 2 then (b[0] as int - 0xC0) * 64 + (b[1] as int - 0x80)
    else if |b| == 3 then (b[0] as int - 0xE0) * 4096 + (b[1] as int - 0x80) * 64 + (b[2] as int - 0x80)
    else (b[0] as int - 0xF0) * 262144 + (b[1] as int - 0x80) * 4096 + (b[2] as int - 0x80) * 64 + (b[3] as int - 0x80)
  }

  // A code point's bytes are well formed exactly when it is no surrogate, and then decode back to it.
  lemma Utf8RoundTrip(cp: int)
    requires 0 <= cp <= 0x10FFFF
    ensures WellFormed(Utf8(cp)) <==> Scalar(cp)
    ensures Scalar(cp) ==> Utf8Decode(Utf8(cp)) == cp
  {
    Base64Digits(cp);
  }

  lemma Base64Digits(cp: int)
    requires 0 <= cp
    ensures cp / 64 == cp / 4096 * 64 + cp / 64 % 64
    ensures cp / 4096 == cp / 262144 * 64 + cp / 4096 % 64
  {
    assert cp / 64 / 64 == cp / 4096;
    assert cp / 4096 / 64 == cp / 262144;
  }

  lemma Base64Compose(x: int, y: int, z: int, w: int)
    requires 0 <= x && 0 <= y < 64 && 0 <= z < 64 && 0 <= w < 64
    ensures var cp := x * 262144 + y * 4096 + z * 64 + w;
            cp % 64 == w && cp / 64 % 64 == z && cp / 4096 % 64 == y && cp / 262144 == x
            && cp / 64 == x * 4096 + y * 64 + z && cp / 4096 == x * 64 + y
  {
    var cp := x * 262144 + y * 4096 + z * 64 + w;
    assert cp / 64 == x * 4096 + y * 64 + z;
    assert cp / 4096 == x * 64 + y;
  }

  // No other well-formed sequence stands for the same code point.
  lemma Utf8Unique(b: seq<Byte>)
    requires WellFormed(b)
    ensures Utf8(Utf8Decode(b)) == b
  {
    if |b| == 2 {
      Base64Compose(0, 0, b[0] - 0xC0, b[1] - 0x80);
    } else if |b| == 3 {
      Base64Compose(0, b[0] - 0xE0, b[1] - 0x80, b[2] - 0x80);
    } else if |b| == 4 {
      Base64Compose(b[0] - 0xF0, b[1] - 0x80, b[2] - 0x80, b[3] - 0x80);
    }
  }

  // ---------------------------------------------------------------- UTF-16

  predicate HighSurrogate(u: int) { 0xD800 <= u <= 0xDBFF }
  predicate LowSurrogate(u: int) { 0xDC00 <= u <= 0xDFFF }

  // Section 2.1 of RFC 2781.
  function Utf16(cp: int): (units: seq<int>)
    requires Scalar(cp)
  {
    if cp < 0x10000 then [cp]
    else [0xD800 + (cp - 0x10000) / 0x400, 0xDC00 + (cp - 0x10000) % 0x400]
  }

  // ---------------------------------------------------------------- escapes

  datatype Escape = Rejected | Accepted(length: nat, cp: int)

  // The escape starting at p (on its backslash) in a literal that ends before `end`.
  function Utf16Escape(s: seq<Byte>, p: nat, end: nat): (e: Escape)
    requires p <= end <= |s|
    ensures e.Accepted? ==> (e.length == 6 || e.length == 12) && p + e.length <= end && Scalar(e.cp)
    ensures e.Accepted? ==> |Utf8(e.cp)| <= e.length / 2
  {
    if end - p < 6 then Rejected
    else
      var first := Hex4(s, p + 2);
      if LowSurrogate(first) then Rejected
      else if HighSurrogate(first) then
        if end - (p + 6) < 6 then Rejected
        else if s[p + 6] != BACKSLASH || s[p + 7] != LOWER_U then Rejected
        else
          var second := Hex4(s, p + 8);
          if !LowSurrogate(second) then Rejected
          else Accepted(12, 0x10000 + (first % 0x400) * 0x400 + second % 0x400)
      else Accepted(6, first)
  }

  // The code units spelt by an escape: one, or two when a second escape follows a high surrogate.
  function EscapeUnits(s: seq<Byte>, p: nat, length: nat): (units: seq<int>)
    requires length == 6 || length == 12
    requires p + length <= |s|
  {
    if length == 6 then [Hex4(s, p + 2)] else [Hex4(s, p + 2), Hex4(s, p + 8)]
  }

  lemma SurrogatePair(first: int, second: int)
    requires HighSurrogate(first) && LowSurrogate(second)
    ensures var cp := 0x10000 + (first % 0x400) * 0x400 + second % 0x400;
            0x10000 <= cp <= 0x10FFFF && Utf16(cp) == [first, second]
  {
    assert first % 0x400 == first - 0xD800;
    assert second % 0x400 == second - 0xDC00;
  }

  // An accepted escape spells exactly the UTF-16 form of its code point, and what is written for it is
  // the only well-formed UTF-8 of that code point.
  lemma EscapeMeaning(s: seq<Byte>, p: nat, end: nat)
    requires p <= end <= |s|
    requires Utf16Escape(s, p, end).Accepted?
    ensures var e := Utf16Escape(s, p, end);
            && Scalar(e.cp)
            && EscapeUnits(s, p, e.length) == Utf16(e.cp)
            && WellFormed(Utf8(e.cp))
            && Utf8Decode(Utf8(e.cp)) == e.cp
            && forall b :: WellFormed(b) && Utf8Decode(b) == e.cp ==> b == Utf8(e.cp)
  {
    var e := Utf16Escape(s, p, end);
    if e.length == 12 {
      SurrogatePair(Hex4(s, p + 2), Hex4(s, p + 8));
    }
    Utf8RoundTrip(e.cp);
    forall b | WellFormed(b) && Utf8Decode(b) == e.cp ensures b == Utf8(e.cp) {
      Utf8Unique(b);
    }
  }

  // Acceptance, for an escape with room for its digits: the units it spells are some code point's UTF-16.
  // In particular a lone surrogate of either kind is rejected.
  lemma EscapeAcceptance(s: seq<Byte>, p: nat, end: nat)
    requires p + 6 <= end <= |s|
    ensures Utf16Escape(s, p, end).Accepted? <==>
            || (exists cp :: Scalar(cp) && Utf16(cp) == EscapeUnits(s, p, 6))
            || (p + 12 <= end && s[p + 6] == BACKSLASH && s[p + 7] == LOWER_U
                && exists cp :: Scalar(cp) && Utf16(cp) == EscapeUnits(s, p, 12))
  {
    var first := Hex4(s, p + 2);
    if !HighSurrogate(first) && !LowSurrogate(first) {
      assert Scalar(first) && Utf16(first) == EscapeUnits(s, p, 6);
    }
    if Utf16Escape(s, p, end).Accepted? {
      EscapeMeaning(s, p, end);
    }
  }

  // ---------------------------------------------------------------- masks and shifts

  // The number a machine word stands for.
  function Nat(x: bv32): int {
    x as int
  }

  lemma SplitAt11(x: bv32)
    requires x < 0x200000
    ensures Nat(x) == 2048 * Nat(x >> 11) + Nat(x & 0x7FF)
  {
    assert (x >> 11) as int == ((x >> 11) as bv10) as int;
    assert (x & 0x7FF) as int == ((x & 0x7FF) as bv11) as int;
    assert x as int == 2048 * ((x >> 11) as bv10) as int + ((x & 0x7FF) as bv11) as int;
  }

  lemma SplitAt5(x: bv32)
    requires x < 0x8000
    ensures Nat(x) == 32 * Nat(x >> 5) + Nat(x & 0x1F)
  {
    assert (x >> 5) as int == ((x >> 5) as bv10) as int;
    assert (x & 0x1F) as int == ((x & 0x1F) as bv5) as int;
    assert x as int == 32 * ((x >> 5) as bv10) as int + ((x & 0x1F) as bv5) as int;
  }

  lemma SplitLow(x: bv32)
    requires x < 0x800
    ensures Nat(x) == 64 * Nat(x >> 6) + Nat(x & 0x3F)
  {
  }

  lemma ShiftsAgree(x: bv32)
    requires x < 0x200000
    ensures x >> 6 < 0x8000 && x & 0x7FF < 0x800
    ensures (x >> 6) >> 5 == x >> 11 && (x >> 6) & 0x1F == (x & 0x7FF) >> 6 && (x & 0x7FF) & 0x3F == x & 0x3F
  {
  }

  lemma SplitAt6(x: bv32)
    requires x < 0x200000
    ensures Nat(x) == 64 * Nat(x >> 6) + Nat(x & 0x3F)
  {
    hide Nat;
    SplitAt11(x);
    ShiftsAgree(x);
    SplitAt5(x >> 6);
    SplitLow(x & 0x7FF);
  }

  lemma Continuation(x: bv32)
    ensures Nat((x | 0x80) & 0xBF) == 0x80 + Nat(x & 0x3F)
    ensures 0 <= Nat(x & 0x3F) < 64
  {
  }

  lemma FirstByte(x: bv32)
    ensures x < 0x80 ==> Nat(x & 0x7F) == Nat(x)
    ensures x < 0x20 ==> Nat((x | 0xC0) & 0xFF) == 0xC0 + Nat(x)
    ensures x < 0x10 ==> Nat((x | 0xE0) & 0xFF) == 0xE0 + Nat(x)
    ensures x < 0x08 ==> Nat((x | 0xF0) & 0xFF) == 0xF0 + Nat(x)
  {
  }

  // Storing the bytes of a code point with masks and shifts on machine words is the arithmetic on integers
  // used here.
  lemma MasksAreDigits(cp: bv32)
    requires cp <= 0x10FFFF
    ensures Nat((cp | 0x80) & 0xBF) == 0x80 + Nat(cp) % 64
    ensures Nat(cp >> 6) == Nat(cp) / 64
    ensures cp < 0x80 ==> Nat(cp & 0x7F) == Nat(cp)
    ensures cp < 0x20 ==> Nat((cp | 0xC0) & 0xFF) == 0xC0 + Nat(cp)
    ensures cp < 0x10 ==> Nat((cp | 0xE0) & 0xFF) == 0xE0 + Nat(cp)
    ensures cp < 0x08 ==> Nat((cp | 0xF0) & 0xFF) == 0xF0 + Nat(cp)
  {
    hide Nat;
    SplitAt6(cp);
    Continuation(cp);
    FirstByte(cp);
  }

  // And so is putting a surrogate pair together.
  lemma PairsByMasks(first: bv32, second: bv32)
    requires first < 0x10000 && second < 0x10000
    ensures Nat(0x10000 + (((first & 0x3FF) << 10) | (second & 0x3FF)))
            == 0x10000 + Nat(first) % 0x400 * 0x400 + Nat(second) % 0x400
  {
    hide Nat;
    LowTen(first);
    LowTen(second);
    PairOfTens(first & 0x3FF, second & 0x3FF);
  }

  lemma LowTen(x: bv32)
    requires x < 0x10000
    ensures x & 0x3FF < 0x400 && Nat(x & 0x3FF) == Nat(x) % 0x400
  {
    hide Nat;
    SplitAt10(x);
    TenBits(x);
  }

  lemma TenBits(x: bv32)
    ensures x & 0x3FF < 0x400 && 0 <= Nat(x & 0x3FF) < 0x400
  {
  }

  lemma SplitAt10(x: bv32)
    requires x < 0x10000
    ensures Nat(x) == 0x400 * Nat(x >> 10) + Nat(x & 0x3FF)
  {
    assert (x >> 10) as int == ((x >> 10) as bv6) as int;
    assert (x & 0x3FF) as int == ((x & 0x3FF) as bv10) as int;
    assert x as int == 0x400 * ((x >> 10) as bv6) as int + ((x & 0x3FF) as bv10) as int;
  }

  lemma PairOfTens(a: bv32, b: bv32)
    requires a < 0x400 && b < 0x400
    ensures Nat(0x10000 + ((a << 10) | b)) == 0x10000 + 0x400 * Nat(a) + Nat(b)
  {
  }
}
