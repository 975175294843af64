/**
 * What a string literal says (routerd/3rdparty/cjson/cJSON.c:661-946), character by character: which bytes spell a
 * character inside the quotes, and which bytes are stored for it. Every legal literal is read as its characters say,
 * and every literal that is read consists of legal characters as long as the digits behind its `\u` are digits.
 */
module JsonStrings {
  import opened Bytes
  import opened JsonGrammar
  import opened JsonText
  import JsonRoundTrip
  import Utf

  // A byte standing for itself, a two-character escape, or a scalar value spelt as one `\u` escape or two.
  datatype Char = Plain(b: Byte) | Short(letter: Byte) | Code(cp: int, spelling: seq<Byte>)

  // A hex digit of value d, in either case.
  predicate HexSpells(h: Byte, d: int) {
    (0 <= d <= 9 && h == 48 + d) || (10 <= d <= 15 && (h == 55 + d || h == 87 + d))
  }

  // `\u` and the four digits of u at p.
  predicate UnitSpelled(t: seq<Byte>, p: nat, u: int) {
    && p + 6 <= |t| && t[p] == 92 && t[p + 1] == 117
    && HexSpells(t[p + 2], u / 4096) && HexSpells(t[p + 3], u / 256 % 16)
    && HexSpells(t[p + 4], u / 16 % 16) && HexSpells(t[p + 5], u % 16)
  }

  predicate CodeSpelled(t: seq<Byte>, cp: int) {
    if 0 <= cp < 0x10000 then !(0xD800 <= cp <= 0xDFFF) && |t| == 6 && UnitSpelled(t, 0, cp)
    else
      && 0x10000 <= cp <= 0x10FFFF && |t| == 12
      && UnitSpelled(t, 0, 0xD800 + (cp - 0x10000) / 0x400) && UnitSpelled(t, 6, 0xDC00 + (cp - 0x10000) % 0x400)
  }

  // The letter behind a backslash and the byte it stands for.
  predicate ShortMeans(letter: Byte, b: Byte) {
    || (letter == 34 && b == 34) || (letter == 92 && b == 92) || (letter == 47 && b == 47)
    || (letter == 98 && b == 8) || (letter == 102 && b == 12) || (letter == 110 && b == 10)
    || (letter == 114 && b == 13) || (letter == 116 && b == 9)
  }

  predicate Legal(c: Char) {
    match c
    case Plain(b) => b != 34 && b != 92
    case Short(letter) => exists b: Byte :: ShortMeans(letter, b)
    case Code(cp, spelling) => CodeSpelled(spelling, cp)
  }

  function Spelled(c: Char): (t: seq<Byte>) {
    match c
    case Plain(b) => [b]
    case Short(letter) => [92, letter]
    case Code(_, spelling) => spelling
  }

  // What is stored for a character.
  predicate Stored(c: Char, part: seq<Byte>) {
    match c
    case Plain(b) => part == [b]
    case Short(letter) => |part| == 1 && ShortMeans(letter, part[0])
    case Code(cp, _) => Utf.WellFormed(part) && Utf.Utf8Decode(part) == cp
  }

  function Source(chars: seq<Char>): (t: seq<Byte>) {
    if chars == [] then [] else Spelled(chars[0]) + Source(chars[1..])
  }

  function Flat(parts: seq<seq<Byte>>): (t: seq<Byte>) {
    if parts == [] then [] else parts[0] + Flat(parts[1..])
  }

  predicate AllLegal(chars: seq<Char>) {
    forall i :: 0 <= i < |chars| ==> Legal(chars[i])
  }

  predicate AllStored(chars: seq<Char>, parts: seq<seq<Byte>>) {
    |parts| == |chars| && forall i :: 0 <= i < |chars| ==> Stored(chars[i], parts[i])
  }

  // ---------------------------------------------------------------- digits

  lemma HexAgrees(h: Byte, d: int)
    requires HexSpells(h, d)
    ensures Utf.IsHex(h) && Utf.HexValue(h) == d
  {
  }

  lemma HexSpelt(h: Byte)
    requires Utf.IsHex(h)
    ensures HexSpells(h, Utf.HexValue(h))
  {
  }

  lemma FourDigits(u: int)
    requires 0 <= u < 0x10000
    ensures u == u / 4096 * 4096 + u / 256 % 16 * 256 + u / 16 % 16 * 16 + u % 16
  {
    assert u / 16 == u / 256 * 16 + u / 16 % 16;
    assert u / 256 == u / 4096 * 16 + u / 256 % 16;
  }

  lemma DigitsOf(a: int, b: int, c: int, d: int)
    requires 0 <= a < 16 && 0 <= b < 16 && 0 <= c < 16 && 0 <= d < 16
    ensures var u := a * 4096 + b * 256 + c * 16 + d;
            u / 4096 == a && u / 256 % 16 == b && u / 16 % 16 == c && u % 16 == d
  {
    var u := a * 4096 + b * 256 + c * 16 + d;
    assert u / 16 == a * 256 + b * 16 + c;
    assert u / 256 == a * 16 + b;
  }

  lemma UnitHasValue(t: seq<Byte>, p: nat, u: int)
    requires UnitSpelled(t, p, u) && 0 <= u < 0x10000
    ensures t[p] == 92 && t[p + 1] == 117 && Utf.AllHex4(t, p + 2) && Utf.Hex4(t, p + 2) == u
  {
    hide HexSpells, Utf.IsHex, Utf.HexValue;
    HexAgrees(t[p + 2], u / 4096);
    HexAgrees(t[p + 3], u / 256 % 16);
    HexAgrees(t[p + 4], u / 16 % 16);
    HexAgrees(t[p + 5], u % 16);
    FourDigits(u);
  }

  lemma ValueSpellsUnit(t: seq<Byte>, p: nat)
    requires p + 6 <= |t| && t[p] == 92 && t[p + 1] == 117 && Utf.AllHex4(t, p + 2)
    ensures UnitSpelled(t, p, Utf.Hex4(t, p + 2))
  {
    hide HexSpells, Utf.IsHex, Utf.HexValue;
    DigitsOf(Utf.HexValue(t[p + 2]), Utf.HexValue(t[p + 3]), Utf.HexValue(t[p + 4]), Utf.HexValue(t[p + 5]));
    HexSpelt(t[p + 2]);
    HexSpelt(t[p + 3]);
    HexSpelt(t[p + 4]);
    HexSpelt(t[p + 5]);
  }

  lemma UnitElsewhere(t: seq<Byte>, s: seq<Byte>, o: nat, p: nat, u: int)
    requires At(s, o, t) && p + 6 <= |t|
    ensures o + p + 6 <= |s| && (UnitSpelled(t, p, u) <==> UnitSpelled(s, o + p, u))
  {
    hide At, HexSpells;
    AtIndex(s, o, t, p);
    AtIndex(s, o, t, p + 1);
    AtIndex(s, o, t, p + 2);
    AtIndex(s, o, t, p + 3);
    AtIndex(s, o, t, p + 4);
    AtIndex(s, o, t, p + 5);
  }

  // ---------------------------------------------------------------- one character

  lemma CodeRead(cp: int, t: seq<Byte>, s: seq<Byte>, p: nat, end: nat)
    requires CodeSpelled(t, cp) && At(s, p, t) && p + |t| <= end < |s|
    ensures Utf.Utf16Escape(s, p, end) == Utf.Accepted(|t|, cp) && s[p] == 92 && s[p + 1] == 117
  {
    hide At, UnitSpelled, Utf.AllHex4, Utf.Hex4;
    if cp < 0x10000 {
      UnitElsewhere(t, s, p, 0, cp);
      UnitHasValue(s, p, cp);
    } else {
      var first, second := 0xD800 + (cp - 0x10000) / 0x400, 0xDC00 + (cp - 0x10000) % 0x400;
      UnitElsewhere(t, s, p, 0, first);
      UnitElsewhere(t, s, p, 6, second);
      UnitHasValue(s, p, first);
      UnitHasValue(s, p + 6, second);
      Utf.SurrogatePair(first, second);
      PairDigits(cp - 0x10000);
    }
  }

  lemma PairDigits(x: int)
    requires 0 <= x < 0x100000
    ensures (0xD800 + x / 0x400) % 0x400 == x / 0x400 && (0xDC00 + x % 0x400) % 0x400 == x % 0x400
    ensures x == x / 0x400 * 0x400 + x % 0x400
  {
  }

  // What the second pass makes of a legal character.
  lemma CharRead(c: Char, s: seq<Byte>, p: nat, end: nat) returns (part: seq<Byte>)
    requires Legal(c) && At(s, p, Spelled(c)) && p + |Spelled(c)| <= end < |s|
    ensures p < end && NextPiece(s, p, end) == Piece(part, |Spelled(c)|) && Stored(c, part)
  {
    hide At, Utf.Utf16Escape, Utf.Utf8, CodeSpelled, Utf.WellFormed, Utf.Utf8Decode;
    match c
    case Plain(b) =>
      AtIndex(s, p, [b], 0);
      part := [b];
    case Short(letter) =>
      AtIndex(s, p, [92, letter], 0);
      AtIndex(s, p, [92, letter], 1);
      part := [SimpleEscape(letter).value];
    case Code(cp, t) =>
      CodeLength(cp, t);
      CodeRead(cp, t, s, p, end);
      Utf.Utf8RoundTrip(cp);
      part := Utf.Utf8(cp);
  }

  lemma CodeLength(cp: int, t: seq<Byte>)
    requires CodeSpelled(t, cp)
    ensures |t| == 6 || |t| == 12
    ensures Utf.Scalar(cp)
    ensures t[0] == 92 && t[1] == 117
    ensures forall i :: 2 <= i < 6 ==> t[i] != 34 && t[i] != 92
    ensures |t| == 12 ==> t[6] == 92 && t[7] == 117 && forall i :: 8 <= i < 12 ==> t[i] != 34 && t[i] != 92
  {
  }

  // The first pass passes over a legal character.
  lemma CharMeasured(c: Char, s: seq<Byte>, p: nat)
    requires Legal(c) && At(s, p, Spelled(c))
    ensures p + |Spelled(c)| <= |s| && StringEnd(s, p) == StringEnd(s, p + |Spelled(c)|)
  {
    hide At, CodeSpelled;
    var t := Spelled(c);
    match c
    case Plain(b) => AtIndex(s, p, t, 0);
    case Short(letter) =>
      AtIndex(s, p, t, 0);
      AtIndex(s, p, t, 1);
    case Code(cp, _) =>
      CodeLength(cp, t);
      UnitMeasured(t, s, p, 0);
      if |t| == 12 {
        UnitMeasured(t, s, p, 6);
      }
  }

  lemma UnitMeasured(t: seq<Byte>, s: seq<Byte>, p: nat, o: nat)
    requires At(s, p, t) && o + 6 <= |t| && t[o] == 92 && t[o + 1] == 117
    requires forall i :: o + 2 <= i < o + 6 ==> t[i] != 34 && t[i] != 92
    ensures p + o + 6 <= |s| && StringEnd(s, p + o) == StringEnd(s, p + o + 6)
  {
    hide At;
    AtIndex(s, p, t, o);
    AtIndex(s, p, t, o + 1);
    AtIndex(s, p, t, o + 2);
    AtIndex(s, p, t, o + 3);
    AtIndex(s, p, t, o + 4);
    AtIndex(s, p, t, o + 5);
    var q := p + o;
    assert StringEnd(s, q) == StringEnd(s, q + 2);
    assert StringEnd(s, q + 2) == StringEnd(s, q + 3) == StringEnd(s, q + 4) == StringEnd(s, q + 5) == StringEnd(s, q + 6);
  }

  // ---------------------------------------------------------------- all characters

  lemma {:induction false} CharsRead(chars: seq<Char>, s: seq<Byte>, p: nat) returns (parts: seq<seq<Byte>>)
    requires AllLegal(chars) && At(s, p, Source(chars) + [34])
    ensures AllStored(chars, parts)
    ensures var end := p + |Source(chars)|;
            end < |s| && StringEnd(s, p) == Some(end) && Unescape(s, p, end) == Bytes(Flat(parts))
    decreases |chars|
  {
    hide At, Legal, Stored, StringEnd, Unescape, NextPiece, Source, Flat, Spelled;
    var end := p + |Source(chars)|;
    AtSplit(s, p, Source(chars), [34]);
    AtIndex(s, end, [34], 0);
    JsonRoundTrip.LiteralEnds(s, end);
    NoChars();
    parts := [];
    if chars != [] {
      var c, rest := chars[0], Source(chars[1..]);
      FirstChar(chars);
      JsonRoundTrip.Regroup(Spelled(c), rest, [34]);
      AtSplit(s, p, Spelled(c), rest + [34]);
      var others := CharsRead(chars[1..], s, p + |Spelled(c)|);
      CharMeasured(c, s, p);
      var part := CharRead(c, s, p, end);
      PieceRead(s, p, end, part, |Spelled(c)|, Flat(others));
      PutInFront(c, part, chars[1..], others);
      parts := [part] + others;
    }
  }

  lemma FirstChar(chars: seq<Char>)
    requires chars != []
    ensures Source(chars) == Spelled(chars[0]) + Source(chars[1..]) && [chars[0]] + chars[1..] == chars
  {
    hide Spelled;
  }

  lemma PieceRead(s: seq<Byte>, p: nat, end: nat, part: seq<Byte>, n: nat, rest: seq<Byte>)
    requires p < end < |s| && p + n <= end && NextPiece(s, p, end) == Piece(part, n)
    requires Unescape(s, p + n, end) == Bytes(rest)
    ensures Unescape(s, p, end) == Bytes(part + rest)
  {
    hide NextPiece;
  }

  // A literal made of legal characters is read as what is stored for them, one after the other, and reading stops
  // behind its closing quote.
  lemma LegalStringReads(chars: seq<Char>, s: seq<Byte>, o: nat) returns (parts: seq<seq<Byte>>)
    requires AllLegal(chars) && At(s, o, [34] + Source(chars) + [34])
    ensures AllStored(chars, parts)
    ensures o < |s| && ParseString(s, o) == Ok(Flat(parts), o + |Source(chars)| + 2)
  {
    hide At, Legal, Stored, StringEnd, Unescape, Source;
    JsonRoundTrip.Regroup([34], Source(chars), [34]);
    AtSplit(s, o, [34], Source(chars) + [34]);
    AtIndex(s, o, [34], 0);
    parts := CharsRead(chars, s, o + 1);
  }

  // ---------------------------------------------------------------- the other way

  // Every `\u` in the literal is followed by four hex digits.
  predicate CleanDigits(s: seq<Byte>, p: nat, end: nat)
    requires end <= |s|
    decreases if p < end then end - p else 0
  {
    if p >= end then true
    else if s[p] != 92 then CleanDigits(s, p + 1, end)
    else if p + 1 < end && s[p + 1] == 117 then p + 6 <= end && Utf.AllHex4(s, p + 2) && CleanDigits(s, p + 6, end)
    else CleanDigits(s, p + 2, end)
  }

  lemma CleanUnit(s: seq<Byte>, p: nat, end: nat)
    requires p < end < |s| && CleanDigits(s, p, end) && StringEnd(s, p) == Some(end)
    requires s[p] == 92 && s[p + 1] == 117
    ensures p + 6 <= end && Utf.AllHex4(s, p + 2) && CleanDigits(s, p + 6, end) && StringEnd(s, p + 6) == Some(end)
  {
    assert p + 2 <= end;
    assert StringEnd(s, p) == StringEnd(s, p + 2);
    assert StringEnd(s, p + 2) == StringEnd(s, p + 3) == StringEnd(s, p + 4) == StringEnd(s, p + 5) == StringEnd(s, p + 6);
  }

  // A piece of a clean literal is a legal character.
  lemma PieceIsChar(s: seq<Byte>, p: nat, end: nat) returns (c: Char)
    requires p < end < |s| && StringEnd(s, p) == Some(end) && CleanDigits(s, p, end)
    requires NextPiece(s, p, end).Piece?
    ensures var piece := NextPiece(s, p, end);
            && Legal(c) && Stored(c, piece.bytes) && p + piece.length <= end
            && Spelled(c) == s[p..p + piece.length]
            && StringEnd(s, p + piece.length) == Some(end) && CleanDigits(s, p + piece.length, end)
  {
    var piece := NextPiece(s, p, end);
    if s[p] != 92 {
      c := Plain(s[p]);
    } else if s[p + 1] != 117 {
      c := Short(s[p + 1]);
      assert ShortMeans(s[p + 1], SimpleEscape(s[p + 1]).value);
      assert p + 2 <= end;
    } else {
      CleanUnit(s, p, end);
      var e := Utf.Utf16Escape(s, p, end);
      c := Code(e.cp, s[p..p + e.length]);
      CodeIsChar(s, p, end);
    }
  }

  lemma CodeIsChar(s: seq<Byte>, p: nat, end: nat)
    requires p < end < |s| && StringEnd(s, p) == Some(end) && CleanDigits(s, p, end)
    requires s[p] == 92 && s[p + 1] == 117 && Utf.Utf16Escape(s, p, end).Accepted?
    ensures var e := Utf.Utf16Escape(s, p, end);
            && NextPiece(s, p, end) == Piece(Utf.Utf8(e.cp), e.length)
            && CodeSpelled(s[p..p + e.length], e.cp)
            && Utf.WellFormed(Utf.Utf8(e.cp)) && Utf.Utf8Decode(Utf.Utf8(e.cp)) == e.cp
            && StringEnd(s, p + e.length) == Some(end) && CleanDigits(s, p + e.length, end)
  {
    var e := Utf.Utf16Escape(s, p, end);
    CleanUnit(s, p, end);
    hide UnitSpelled, Utf.AllHex4, Utf.Hex4, Utf.Utf8, Utf.WellFormed, Utf.Utf8Decode, StringEnd, CleanDigits;
    Utf.Utf8RoundTrip(e.cp);
    var t := s[p..p + e.length];
    assert At(s, p, t);
    hide At;
    var first := Utf.Hex4(s, p + 2);
    UnitElsewhere(t, s, p, 0, first);
    ValueSpellsUnit(s, p);
    if e.length == 12 {
      CleanUnit(s, p + 6, end);
      var second := Utf.Hex4(s, p + 8);
      UnitElsewhere(t, s, p, 6, second);
      ValueSpellsUnit(s, p + 6);
      Utf.SurrogatePair(first, second);
    }
  }

  lemma {:induction false} ReadSplits(s: seq<Byte>, p: nat, end: nat)
    returns (chars: seq<Char>, parts: seq<seq<Byte>>)
    requires p <= end < |s| && StringEnd(s, p) == Some(end) && CleanDigits(s, p, end) && Unescape(s, p, end).Bytes?
    ensures AllLegal(chars) && AllStored(chars, parts)
    ensures Source(chars) == s[p..end] && Flat(parts) == Unescape(s, p, end).text
    decreases end - p
  {
    hide StringEnd, CleanDigits, NextPiece, Legal, Stored, Spelled, Unescape, Source, Flat, AllLegal, AllStored;
    chars, parts := [], [];
    NoChars();
    if p < end {
      UnescapeSplits(s, p, end);
      var piece := NextPiece(s, p, end);
      var c := PieceIsChar(s, p, end);
      var q := p + piece.length;
      chars, parts := ReadSplits(s, q, end);
      PutInFront(c, piece.bytes, chars, parts);
      assert s[p..end] == s[p..q] + s[q..end];
      chars, parts := [c] + chars, [piece.bytes] + parts;
    } else {
      NothingToRead(s, end);
    }
  }

  lemma NothingToRead(s: seq<Byte>, end: nat)
    requires end < |s|
    ensures Unescape(s, end, end) == Bytes([]) && s[end..end] == []
  {
  }

  lemma NoChars()
    ensures AllLegal([]) && AllStored([], []) && Source([]) == [] && Flat([]) == []
  {
  }

  lemma UnescapeSplits(s: seq<Byte>, p: nat, end: nat)
    requires p < end < |s| && Unescape(s, p, end).Bytes?
    ensures NextPiece(s, p, end).Piece?
    ensures var piece := NextPiece(s, p, end);
            && Unescape(s, p + piece.length, end).Bytes?
            && Unescape(s, p, end).text == piece.bytes + Unescape(s, p + piece.length, end).text
  {
    hide NextPiece;
  }

  lemma PutInFront(c: Char, part: seq<Byte>, chars: seq<Char>, parts: seq<seq<Byte>>)
    requires AllLegal(chars) && AllStored(chars, parts) && Legal(c) && Stored(c, part)
    ensures AllLegal([c] + chars) && AllStored([c] + chars, [part] + parts)
    ensures Source([c] + chars) == Spelled(c) + Source(chars) && Flat([part] + parts) == part + Flat(parts)
  {
    hide Legal, Stored, Spelled;
    assert ([c] + chars)[1..] == chars && ([part] + parts)[1..] == parts;
  }

  // A literal that is read, with digits wherever digits are due, consists of legal characters, and what was read is
  // what is stored for them.
  lemma ReadStringIsLegal(s: seq<Byte>, o: nat) returns (chars: seq<Char>, parts: seq<seq<Byte>>)
    requires o < |s| && ParseString(s, o).Ok? && CleanDigits(s, o + 1, ParseString(s, o).offset - 1)
    ensures var r := ParseString(s, o);
            && AllLegal(chars) && AllStored(chars, parts)
            && s[o..r.offset] == [34] + Source(chars) + [34] && r.value == Flat(parts)
  {
    hide StringEnd, Unescape, CleanDigits, Source, Flat;
    var end := ParseString(s, o).offset - 1;
    chars, parts := ReadSplits(s, o + 1, end);
    assert s[o..end + 1] == [s[o]] + s[o + 1..end] + [s[end]];
  }

  // ---------------------------------------------------------------- bad digits

  predicate HexByte(b: Byte) {
    48 <= b <= 57 || 65 <= b <= 70 || 97 <= b <= 102
  }

  // A `\u` with a byte among the next four that is no hex digit takes all six bytes and stores a NUL.
  lemma BadDigitsStoreNul(s: seq<Byte>, p: nat, end: nat, i: nat)
    requires p + 6 <= end < |s| && s[p] == 92 && s[p + 1] == 117
    requires p + 2 <= i < p + 6 && !HexByte(s[i])
    ensures NextPiece(s, p, end) == Piece([0], 6)
  {
    assert !Utf.IsHex(s[i]);
    assert !Utf.AllHex4(s, p + 2);
    assert Utf.Utf8(0) == [0];
  }
}
