/**
 * The parser as it runs (routerd/3rdparty/cjson/cJSON.c:307-408, 698-946, 1085-1230, 1363-1415, 1492-1587,
 * 1652-1767): a buffer whose offset and depth are updated in place, and string contents written through an
 * index into an array whose size a first pass has computed. Every operation is proved to leave the buffer
 * where the functions of JsonGrammar say, for every input.
 */
module JsonParser {
  import opened Bytes
  import opened JsonText
  import opened JsonGrammar
  import opened SiblingList
  import opened JsonTree
  import Utf

  // ---------------------------------------------------------------- the two passes over a string literal

  // How many escapes the first pass, standing at p, still counts before `end`.
  function EscapesAhead(s: seq<Byte>, p: nat, end: nat): (n: nat)
    requires end <= |s|
    decreases if p < end then end - p else 0
  {
    if p >= end then 0
    else if s[p] == BACKSLASH then 1 + EscapesAhead(s, p + 2, end)
    else EscapesAhead(s, p + 1, end)
  }

  // The second pass stands at p; b is the next place where the first pass started a character or an escape.
  // The passes are in step when b == p; a malformed \u can leave the second pass on the second byte of an
  // escape, or carry it past the closing quote.
  predicate Aligned(s: seq<Byte>, p: nat, b: nat, end: nat)
    requires end < |s|
  {
    b <= end && StringEnd(s, b) == Some(end) && (b == p || b == p + 1 || (p == end + 1 && b == end))
  }

  // Two bytes on, the first pass has counted at most one more escape.
  lemma AdvanceByTwo(s: seq<Byte>, p: nat, b: nat, end: nat) returns (b': nat)
    requires p < end < |s| && Aligned(s, p, b, end)
    ensures Aligned(s, p + 2, b', end)
    ensures EscapesAhead(s, b, end) <= EscapesAhead(s, b', end) + 1
  {
    b' := b;
    if b' < end {
      b' := if s[b'] == BACKSLASH then b' + 2 else b' + 1;
      assert StringEnd(s, b') == Some(end);
    }
    if b' < p + 2 && b' < end {
      b' := if s[b'] == BACKSLASH then b' + 2 else b' + 1;
      assert StringEnd(s, b') == Some(end);
    }
  }

  lemma {:induction false} AdvanceByEven(s: seq<Byte>, p: nat, b: nat, end: nat, n: nat) returns (b': nat)
    requires p <= end < |s| && Aligned(s, p, b, end) && p + 2 * n <= end
    ensures Aligned(s, p + 2 * n, b', end)
    ensures EscapesAhead(s, b, end) <= EscapesAhead(s, b', end) + n
    decreases n
  {
    b' := b;
    if n > 0 {
      hide StringEnd;
      var mid := AdvanceByTwo(s, p, b, end);
      b' := AdvanceByEven(s, p + 2, mid, end, n - 1);
    }
  }

  // An ordinary byte never starts an escape of the first pass.
  lemma AdvanceByOne(s: seq<Byte>, p: nat, b: nat, end: nat) returns (b': nat)
    requires p < end < |s| && Aligned(s, p, b, end) && s[p] != BACKSLASH
    ensures Aligned(s, p + 1, b', end)
    ensures EscapesAhead(s, b, end) <= EscapesAhead(s, b', end)
  {
    b' := p + 1;
  }

  // What is left of a code point after taking six bits off n times.
  function Sixths(cp: nat, n: nat): nat {
    if n == 0 then cp else Sixths(cp, n - 1) / 64
  }

  // The j-th byte from the end, and the first.
  lemma Utf8Position(cp: int)
    requires 0 <= cp <= 0x10FFFF
    ensures var u := Utf.Utf8(cp);
            && |u| == (if cp < 0x80 then 1 else if cp < 0x800 then 2 else if cp < 0x10000 then 3 else 4)
            && (forall j :: 0 < j < |u| ==> u[j] == 0x80 + Sixths(cp, |u| - 1 - j) % 64)
            && u[0] == Sixths(cp, |u| - 1) + (if |u| == 1 then 0 else if |u| == 2 then 0xC0 else if |u| == 3 then 0xE0 else 0xF0)
  {
    assert Sixths(cp, 1) == cp / 64;
    assert Sixths(cp, 2) == cp / 4096;
    assert Sixths(cp, 3) == cp / 262144;
  }

  lemma Placed(all: seq<Byte>, k: nat, bytes: seq<Byte>)
    requires k + |bytes| <= |all| && forall j :: 0 <= j < |bytes| ==> all[k + j] == bytes[j]
    ensures all[..k + |bytes|] == all[..k] + bytes
  {
  }

  // The bytes of one code point, last byte first, as the original stores them.
  method WriteUtf8(output: array<Byte>, k: nat, codepoint: int) returns (length: nat)
    requires 0 <= codepoint <= 0x10FFFF
    requires k + |Utf.Utf8(codepoint)| <= output.Length
    modifies output
    ensures length == |Utf.Utf8(codepoint)|
    ensures output[..k + length] == old(output[..k]) + Utf.Utf8(codepoint)
  {
    var mark: int := 0;
    if codepoint < 0x80 {
      length := 1;
    } else if codepoint < 0x800 {
      length, mark := 2, 0xC0;
    } else if codepoint < 0x10000 {
      length, mark := 3, 0xE0;
    } else {
      length, mark := 4, 0xF0;
    }
    ghost var bytes := Utf.Utf8(codepoint);
    Utf8Position(codepoint);
    hide Utf.Utf8;
    var cp := codepoint;
    var position := length - 1;
    while position > 0
      invariant 0 <= position < length && cp >= 0
      invariant cp == Sixths(codepoint, length - 1 - position)
      invariant output[..k] == old(output[..k])
      invariant forall j :: position < j < length ==> output[k + j] == bytes[j]
    {
      output[k + position] := 0x80 + cp % 64;
      cp := cp / 64;
      position := position - 1;
    }
    output[k] := mark + cp;
    assert output[k] == bytes[0];
    Placed(output[..], k, bytes);
    assert output[..][..k + length] == output[..k + length] && output[..][..k] == output[..k];
  }

  // Whatever the second pass takes from the input, it writes no more than the first pass left room for:
  // bytes written plus escapes passed never exceed bytes taken.
  lemma AdvanceByPiece(s: seq<Byte>, p: nat, b: nat, end: nat) returns (b': nat)
    requires p < end < |s| && Aligned(s, p, b, end) && NextPiece(s, p, end).Piece?
    ensures var n := NextPiece(s, p, end);
            && Aligned(s, p + n.length, b', end)
            && |n.bytes| + EscapesAhead(s, b, end) <= n.length + EscapesAhead(s, b', end)
    ensures 2 * EscapesAhead(s, b', end) <= end - b'
  {
    var n := NextPiece(s, p, end);
    hide NextPiece, EscapesAhead, Aligned;
    if n.length == 1 {
      b' := AdvanceByOne(s, p, b, end);
    } else if n.length == 2 {
      b' := AdvanceByTwo(s, p, b, end);
    } else {
      b' := AdvanceByEven(s, p, b, end, n.length / 2);
    }
    assert b' <= end && StringEnd(s, b') == Some(end) by {
      AlignedEnd(s, p + n.length, b', end);
    }
    EscapesFit(s, b', end);
  }

  lemma AlignedEnd(s: seq<Byte>, p: nat, b: nat, end: nat)
    requires end < |s| && Aligned(s, p, b, end)
    ensures b <= end && StringEnd(s, b) == Some(end) && p <= end + 1 && (p <= b || (p == end + 1 && b == end))
  {
  }

  // Store what the piece at p stands for.
  method WritePiece(s: seq<Byte>, p: nat, end: nat, output: array<Byte>, k: nat) returns (written: nat, length: nat)
    requires p < end < |s|
    requires NextPiece(s, p, end).Piece? ==> k + |NextPiece(s, p, end).bytes| <= output.Length
    modifies output
    ensures NextPiece(s, p, end).Broken? <==> length == 0
    ensures length > 0 ==>
              var n := NextPiece(s, p, end);
              length == n.length && written == |n.bytes| && k + written <= output.Length
              && output[..k + written] == old(output[..k]) + n.bytes
  {
    hide Utf.Utf16Escape, Utf.Utf8;
    written, length := 0, 0;
    if s[p] != BACKSLASH {
      output[k] := s[p];
      assert output[..k + 1] == old(output[..k]) + [s[p]];
      return 1, 1;
    }
    if s[p + 1] == 117 {
      match Utf.Utf16Escape(s, p, end) {
        case Rejected =>
        case Accepted(n, cp) =>
          written := WriteUtf8(output, k, cp);
          length := n;
      }
    } else {
      match SimpleEscape(s[p + 1]) {
        case None =>
        case Some(c) =>
          output[k] := c;
          assert output[..k + 1] == old(output[..k]) + [c];
          return 1, 2;
      }
    }
  }

  // One turn of the second pass: a written piece moves from what is still to be written to what has been.
  lemma NextWritten(done: seq<Byte>, s: seq<Byte>, p: nat, end: nat)
    requires p < end < |s| && NextPiece(s, p, end).Piece?
    ensures var n := NextPiece(s, p, end);
            Prepend(done, Unescape(s, p, end)) == Prepend(done + n.bytes, Unescape(s, p + n.length, end))
  {
    hide NextPiece;
    var n := NextPiece(s, p, end);
    PrependTwice(done, n.bytes, Unescape(s, p + n.length, end));
  }

  // Second pass. The array has exactly the size the original allocates (its own estimate plus one byte for
  // the terminator), so every store below is inside the allocation, whatever the literal holds.
  method FillLiteral(s: seq<Byte>, start: nat, end: nat, skipped: nat) returns (r: Unescaped)
    requires 0 < start <= end < |s| && StringEnd(s, start) == Some(end)
    requires skipped == EscapesAhead(s, start, end)
    ensures r == Unescape(s, start, end)
    ensures r.Bytes? ==> |r.text| + 1 <= (end - (start - 1)) - skipped + 1
  {
    hide NextPiece, EscapesAhead, StringEnd, Prepend, Aligned;
    EscapesFit(s, start, end);
    var allocationLength := (end - (start - 1)) - skipped;
    var output := new Byte[allocationLength + 1];
    var p, k: nat := start, 0;
    ghost var b: nat := start;
    ghost var goal := Unescape(s, start, end);
    StartsAligned(s, start, end);
    assert output[..0] == [];
    PrependNothing(goal);
    while p < end
      invariant start <= p <= end + 1 && Aligned(s, p, b, end)
      invariant 2 * EscapesAhead(s, b, end) <= end - b
      invariant b <= end && (p <= b || (p == end + 1 && b == end))
      invariant k + skipped <= p - start + EscapesAhead(s, b, end)
      invariant k < output.Length
      invariant goal == Prepend(output[..k], Unescape(s, p, end))
      decreases end + 1 - p
    {
      ghost var n, done := NextPiece(s, p, end), output[..k];
      if n.Piece? {
        b := AdvanceByPiece(s, p, b, end);
        AlignedEnd(s, p + n.length, b, end);
        NextWritten(done, s, p, end);
      }
      var written, length := WritePiece(s, p, end, output, k);
      if length == 0 {
        PrependBad(done, s, p, end);
        return Bad(p);
      }
      p, k := p + length, k + written;
    }
    ghost var text := output[..k];
    output[k] := 0;
    assert output[..k] == text;
    NothingLeft(text, s, p, end);
    return Bytes(output[..k]);
  }

  lemma PrependBad(done: seq<Byte>, s: seq<Byte>, p: nat, end: nat)
    requires p < end < |s| && NextPiece(s, p, end).Broken?
    ensures Prepend(done, Unescape(s, p, end)) == Bad(p)
  {
  }

  lemma StartsAligned(s: seq<Byte>, start: nat, end: nat)
    requires start <= end < |s| && StringEnd(s, start) == Some(end)
    ensures Aligned(s, start, start, end)
  {
  }

  lemma NothingLeft(text: seq<Byte>, s: seq<Byte>, p: nat, end: nat)
    requires end < |s| && end <= p <= end + 1
    ensures Prepend(text, Unescape(s, p, end)) == Bytes(text)
  {
    assert text + [] == text;
  }

  lemma PrependNothing(u: Unescaped)
    ensures Prepend([], u) == u
  {
    if u.Bytes? {
      assert [] + u.text == u.text;
    }
  }

  lemma PrependTwice(a: seq<Byte>, b: seq<Byte>, u: Unescaped)
    ensures Prepend(a, Prepend(b, u)) == Prepend(a + b, u)
  {
    if u.Bytes? {
      assert a + (b + u.text) == (a + b) + u.text;
    }
  }

  // Escapes take two bytes each, so the estimate is never negative.
  lemma {:induction false} EscapesFit(s: seq<Byte>, p: nat, end: nat)
    requires p <= end < |s| && StringEnd(s, p) == Some(end)
    ensures 2 * EscapesAhead(s, p, end) <= end - p
    decreases end - p
  {
    if p < end {
      EscapesFit(s, if s[p] == BACKSLASH then p + 2 else p + 1, end);
    }
  }

  // ---------------------------------------------------------------- the buffer

  class ParseBuffer {
    const content: seq<Byte>
    var offset: nat
    var depth: nat

    ghost predicate Valid()
      reads this
    {
      offset <= |content| && depth <= NESTING_LIMIT
    }

    constructor (content: seq<Byte>)
      ensures Valid() && this.content == content && offset == 0 && depth == 0
    {
      this.content := content;
      offset, depth := 0, 0;
    }

    method SkipWhitespace()
      requires Valid()
      modifies this`offset
      ensures Valid() && offset == SkipSpace(content, old(offset))
    {
      if offset >= |content| {
        return;
      }
      while offset < |content| && content[offset] <= 32
        invariant old(offset) <= offset <= |content|
        invariant SpaceEnd(content, offset) == SpaceEnd(content, old(offset))
      {
        offset := offset + 1;
      }
      if offset == |content| {
        offset := offset - 1;
      }
    }

    method SkipByteOrderMark()
      requires Valid() && offset == 0
      modifies this`offset
      ensures Valid() && offset == AfterByteOrderMark(content)
    {
      if 4 < |content| && At(content, offset, BYTE_ORDER_MARK) {
        offset := offset + 3;
      }
    }

    method ReadNumber() returns (ok: bool, value: Json)
      requires Valid()
      modifies this`offset
      ensures Valid()
      ensures var r := ParseNumber(content, old(offset));
              ok == r.Ok? && offset == r.offset && (ok ==> value == r.value)
    {
      value := Null;
      var i := 0;
      while offset + i < |content| && NumberByte(content[offset + i])
        invariant offset + i <= |content|
        invariant NumberSpan(content, offset + i) == NumberSpan(content, offset)
      {
        i := i + 1;
      }
      var text := content[offset..offset + i];
      var length := StrtodLength(text);
      if length == 0 {
        return false, value;
      }
      ok, value := true, NumberValue(text[..length]);
      offset := offset + length;
    }

    // First pass: find the closing quote and count the escapes on the way.
    method MeasureLiteral(start: nat) returns (end: Option<nat>, skipped: nat)
      requires start <= |content|
      ensures end == StringEnd(content, start)
      ensures end.Some? ==> skipped == EscapesAhead(content, start, end.value)
    {
      var e := start;
      skipped := 0;
      while e < |content| && content[e] != QUOTE
        invariant start <= e <= |content|
        invariant StringEnd(content, e) == StringEnd(content, start)
        invariant StringEnd(content, start).Some? ==>
                    var z := StringEnd(content, start).value;
                    e <= z && skipped + EscapesAhead(content, e, z) == EscapesAhead(content, start, z)
      {
        if content[e] == BACKSLASH {
          if e + 1 >= |content| {
            return None, skipped;
          }
          skipped := skipped + 1;
          e := e + 1;
        }
        e := e + 1;
      }
      if e >= |content| {
        return None, skipped;
      }
      return Some(e), skipped;
    }

    method ReadString() returns (ok: bool, text: seq<Byte>)
      requires Valid() && offset < |content|
      modifies this`offset
      ensures Valid()
      ensures var r := ParseString(content, old(offset));
              ok == r.Ok? && offset == r.offset && (ok ==> text == r.value)
    {
      text := [];
      var start := offset + 1;
      if content[offset] != QUOTE {
        offset := start;
        return false, text;
      }
      var end, skipped := MeasureLiteral(start);
      if end.None? {
        offset := start;
        return false, text;
      }
      var r := FillLiteral(content, start, end.value, skipped);
      match r {
        case Bad(at) =>
          offset := at;
          return false, text;
        case Bytes(t) =>
          offset := end.value + 1;
          return true, t;
      }
    }

    // Values are read into nodes. A node that has been filled holds the grammar's value, over nodes that are all
    // new; what lies behind a failure is not looked at again.
    method ReadValue(item: Item) returns (ok: bool)
      requires Valid() && item.child == null && item.below == {}
      modifies this`offset, this`depth, item`data, item`child, item`kids, item`below
      ensures Valid()
      ensures var r := ParseValue(content, old(offset), old(depth));
              && ok == r.Ok? && offset == r.offset
              && (ok ==> Holds(item, r.value) && fresh(item.below) && depth == old(depth))
      decreases |content| - offset, 3
    {
      if At(content, offset, NULL_TEXT) {
        offset := offset + 4;
        item.data := Null;
        return true;
      }
      if At(content, offset, FALSE_TEXT) {
        offset := offset + 5;
        item.data := Bool(false);
        return true;
      }
      if At(content, offset, TRUE_TEXT) {
        offset := offset + 4;
        item.data := Bool(true);
        return true;
      }
      if offset < |content| && content[offset] == QUOTE {
        var text;
        ok, text := ReadString();
        item.data := Str(text);
        return;
      }
      if offset < |content| && (content[offset] == MINUS || IsDigit(content[offset])) {
        var value;
        ok, value := ReadNumber();
        item.data := value;
        return;
      }
      if offset < |content| && content[offset] == OPEN_BRACKET {
        ok := ReadArray(item);
        return;
      }
      if offset < |content| && content[offset] == OPEN_BRACE {
        ok := ReadObject(item);
        return;
      }
      return false;
    }

    method ReadArray(item: Item) returns (ok: bool)
      requires Valid() && offset < |content| && content[offset] == OPEN_BRACKET
      requires item.child == null && item.below == {}
      modifies this`offset, this`depth, item`data, item`child, item`kids, item`below
      ensures Valid()
      ensures var r := ParseArray(content, old(offset), old(depth));
              && ok == r.Ok? && offset == r.offset
              && (ok ==> Holds(item, Arr(r.value)) && fresh(item.below) && depth == old(depth))
      decreases |content| - offset, 2
    {
      hide Holds, SkipSpace, ParseItems, ParseMembers;
      if depth >= NESTING_LIMIT {
        return false;
      }
      depth := depth + 1;
      offset := offset + 1;
      SkipWhitespace();
      if offset < |content| && content[offset] == CLOSE_BRACKET {
        depth := depth - 1;
        item.data := Arr([]);
        item.kids := [];
        EmptyHolds(item);
        offset := offset + 1;
        return true;
      }
      if offset >= |content| {
        offset := offset - 1;
        return false;
      }
      ok := ReadItems(item);
    }

    // The comma-separated loop of an array, entered behind its bracket; on success it has consumed the
    // closing bracket, left the array's depth and hung the items under the array.
    method ReadItems(item: Item) returns (ok: bool)
      requires Valid() && depth > 0
      modifies this`offset, this`depth, item`data, item`child, item`kids, item`below
      ensures Valid()
      ensures var r := ParseItems(content, old(offset), old(depth));
              && ok == r.Ok? && offset == r.offset
              && (ok ==> Holds(item, Arr(r.value)) && fresh(item.below) && depth == old(depth) - 1)
      decreases |content| - offset, 5
    {
      hide ParseValue, SkipSpace, Holds, Growing, Linked, Plus;
      ghost var goal := ParseItems(content, offset, depth);
      assert goal.Ok? ==> [] + goal.value == goal.value;
      ghost var from := offset;
      var head: Item?, current: Item? := null, null;
      ghost var items: seq<Json>, g := [], List([], [], [], {});
      NothingGrown();
      assert Keyless(0) == [];
      var more := true;
      while more
        invariant Valid() && from <= offset && depth == old(depth)
        invariant more ==> goal == ItemsSoFar(items, ParseItems(content, offset, depth))
        invariant !more ==> offset < |content| && content[offset] == CLOSE_BRACKET && goal == Ok(items, offset + 1)
        invariant Growing(head, current, g) && g.values == items && g.keys == Keyless(|items|) && fresh(g.region)
        decreases |content| - offset, more
      {
        ghost var e := offset;
        ok, head, current, g := ReadItem(head, current, g);
        if !ok {
          return;
        }
        ghost var value := ParseValue(content, SkipSpace(content, e), depth).value;
        NextItem(items, value, content, e, offset, depth);
        items := items + [value];
        SkipWhitespace();
        more := offset < |content| && content[offset] == COMMA;
        if more {
          offset := offset + 1;
        } else if offset >= |content| || content[offset] != CLOSE_BRACKET {
          ok := false;
          return;
        }
      }
      depth := depth - 1;
      CloseArray(item, head, current, g, items);
      offset := offset + 1;
      ok := true;
    }

    // One turn of that loop: a new node, linked and then filled.
    method ReadItem(head: Item?, current: Item?, ghost g: List)
      returns (ok: bool, head': Item?, current': Item?, ghost g': List)
      requires Valid() && Growing(head, current, g)
      modifies this`offset, this`depth, g.region`next
      ensures Valid()
      ensures var r := ParseValue(content, SkipSpace(content, old(offset)), old(depth));
              && ok == r.Ok? && offset == r.offset
              && (ok ==> && Growing(head', current', g') && g'.values == g.values + [r.value] && g'.keys == g.keys + [None]
                         && fresh(g'.region - g.region) && depth == old(depth))
      decreases |content| - offset, 4
    {
      hide ParseValue, SkipSpace, Holds, Growing, Linked;
      head', current', g' := head, current, g;
      ghost var e := offset;
      var item := new Item();
      Link(head, current, item, g);
      SkipWhitespace();
      ok := ReadValue(item);
      if ok {
        ghost var value := ParseValue(content, SkipSpace(content, e), old(depth)).value;
        Extend(head, current, g, item, value);
        head', current', g' := if head == null then item else head, item, Plus(g, item, value);
      }
    }

    method ReadObject(item: Item) returns (ok: bool)
      requires Valid() && offset < |content| && content[offset] == OPEN_BRACE
      requires item.child == null && item.below == {}
      modifies this`offset, this`depth, item`data, item`child, item`kids, item`below
      ensures Valid()
      ensures var r := ParseObject(content, old(offset), old(depth));
              && ok == r.Ok? && offset == r.offset
              && (ok ==> Holds(item, Obj(r.value)) && fresh(item.below) && depth == old(depth))
      decreases |content| - offset, 2
    {
      hide Holds, SkipSpace, ParseItems, ParseMembers;
      if depth >= NESTING_LIMIT {
        return false;
      }
      depth := depth + 1;
      offset := offset + 1;
      SkipWhitespace();
      if offset < |content| && content[offset] == CLOSE_BRACE {
        depth := depth - 1;
        item.data := Obj([]);
        item.kids := [];
        EmptyHolds(item);
        offset := offset + 1;
        return true;
      }
      if offset >= |content| {
        offset := offset - 1;
        return false;
      }
      ok := ReadMembers(item);
    }

    // One turn of an object's loop: a new node, linked and then named and filled.
    method ReadMember(head: Item?, current: Item?, ghost g: List)
      returns (ok: bool, head': Item?, current': Item?, ghost g': List)
      requires Valid() && 0 < offset && Growing(head, current, g)
      modifies this`offset, this`depth, g.region`next
      ensures Valid()
      ensures var r := ParseMember(content, old(offset), old(depth));
              && ok == r.Ok? && offset == r.offset
              && (ok ==> && Growing(head', current', g') && g'.values == g.values + [r.value.value]
                         && g'.keys == g.keys + [Some(r.value.key)]
                         && fresh(g'.region - g.region) && depth == old(depth))
      decreases |content| - offset, 5
    {
      hide ParseMember, Holds, Growing, Linked;
      head', current', g' := head, current, g;
      ghost var e := offset;
      var item := new Item();
      Link(head, current, item, g);
      ok := FillMember(item);
      if ok {
        ghost var value := ParseMember(content, e, old(depth)).value.value;
        Extend(head, current, g, item, value);
        head', current', g' := if head == null then item else head, item, Plus(g, item, value);
      }
    }

    method FillMember(item: Item) returns (ok: bool)
      requires Valid() && 0 < offset && item.child == null && item.below == {}
      modifies this`offset, this`depth, item`key, item`data, item`child, item`kids, item`below
      ensures Valid()
      ensures var r := ParseMember(content, old(offset), old(depth));
              && ok == r.Ok? && offset == r.offset
              && (ok ==> item.key == Some(r.value.key) && Holds(item, r.value.value) && fresh(item.below)
                         && depth == old(depth))
      decreases |content| - offset, 4
    {
      hide ParseValue, ParseString, SkipSpace, Holds;
      if offset >= |content| {
        offset := offset - 1;
        return false;
      }
      SkipWhitespace();
      var key;
      ok, key := ReadString();
      if !ok {
        return;
      }
      SkipWhitespace();
      item.key := Some(key);
      if offset >= |content| || content[offset] != COLON {
        ok := false;
        return;
      }
      offset := offset + 1;
      SkipWhitespace();
      ok := ReadValue(item);
    }

    method ReadMembers(item: Item) returns (ok: bool)
      requires Valid() && depth > 0 && 0 < offset
      modifies this`offset, this`depth, item`data, item`child, item`kids, item`below
      ensures Valid()
      ensures var r := ParseMembers(content, old(offset), old(depth));
              && ok == r.Ok? && offset == r.offset
              && (ok ==> Holds(item, Obj(r.value)) && fresh(item.below) && depth == old(depth) - 1)
      decreases |content| - offset, 6
    {
      hide ParseMember, SkipSpace, Holds, Growing, Linked, Plus;
      ghost var goal := ParseMembers(content, offset, depth);
      assert goal.Ok? ==> [] + goal.value == goal.value;
      ghost var from := offset;
      var head: Item?, current: Item? := null, null;
      ghost var members: seq<Member>, g := [], List([], [], [], {});
      NothingGrown();
      assert Keys(members) == [] && Values(members) == [];
      var more := true;
      while more
        invariant Valid() && from <= offset && depth == old(depth)
        invariant more ==> goal == MembersSoFar(members, ParseMembers(content, offset, depth))
        invariant !more ==> offset < |content| && content[offset] == CLOSE_BRACE && goal == Ok(members, offset + 1)
        invariant Growing(head, current, g) && g.values == Values(members) && g.keys == Keys(members) && fresh(g.region)
        decreases |content| - offset, more
      {
        ghost var e := offset;
        ok, head, current, g := ReadMember(head, current, g);
        if !ok {
          return;
        }
        ghost var m := ParseMember(content, e, depth).value;
        NextMember(members, m, content, e, offset, depth);
        OneMore(members, m);
        members := members + [m];
        SkipWhitespace();
        more := offset < |content| && content[offset] == COMMA;
        if more {
          offset := offset + 1;
        } else if offset >= |content| || content[offset] != CLOSE_BRACE {
          ok := false;
          return;
        }
      }
      depth := depth - 1;
      CloseObject(item, head, current, g, members);
      offset := offset + 1;
      ok := true;
    }
  }

  function ItemsSoFar(items: seq<Json>, r: Result<seq<Json>>): Result<seq<Json>> {
    match r
    case Fail(f) => Fail(f)
    case Ok(rest, end) => Ok(items + rest, end)
  }

  // One turn of the array loop: a parsed item moves from what is still to be read to what has been read.
  lemma NextItem(items: seq<Json>, v: Json, s: seq<Byte>, e: nat, q: nat, depth: nat)
    requires e <= |s| && q <= |s| && ParseValue(s, SkipSpace(s, e), depth) == Ok(v, q)
    ensures var z := SkipSpace(s, q);
            ItemsSoFar(items, ParseItems(s, e, depth)) ==
              if z < |s| && s[z] == COMMA then ItemsSoFar(items + [v], ParseItems(s, z + 1, depth))
              else if z < |s| && s[z] == CLOSE_BRACKET then Ok(items + [v], z + 1)
              else Fail(z)
  {
    hide ParseValue, SkipSpace;
    var z := SkipSpace(s, q);
    if z < |s| && s[z] == COMMA {
      var r := ParseItems(s, z + 1, depth);
      if r.Ok? {
        assert items + ([v] + r.value) == (items + [v]) + r.value;
      }
    }
  }

  lemma NextMember(members: seq<Member>, m: Member, s: seq<Byte>, e: nat, q: nat, depth: nat)
    requires 0 < e <= |s| && q <= |s| && ParseMember(s, e, depth) == Ok(m, q)
    ensures var z := SkipSpace(s, q);
            MembersSoFar(members, ParseMembers(s, e, depth)) ==
              if z < |s| && s[z] == COMMA then MembersSoFar(members + [m], ParseMembers(s, z + 1, depth))
              else if z < |s| && s[z] == CLOSE_BRACE then Ok(members + [m], z + 1)
              else Fail(z)
  {
    hide ParseMember, SkipSpace;
    var z := SkipSpace(s, q);
    if z < |s| && s[z] == COMMA {
      var r := ParseMembers(s, z + 1, depth);
      if r.Ok? {
        assert members + ([m] + r.value) == (members + [m]) + r.value;
      }
    }
  }

  function MembersSoFar(members: seq<Member>, r: Result<seq<Member>>): Result<seq<Member>> {
    match r
    case Fail(f) => Fail(f)
    case Ok(rest, end) => Ok(members + rest, end)
  }

  // cJSON_ParseWithLengthOpts: total on every buffer. On success the root holds the document, in nodes that are
  // all new; on failure the error position is inside the buffer.
  method ParseBytes(s: seq<Byte>, requireNul: bool) returns (r: Result<Item>)
    ensures var d := ParseDocument(s, requireNul);
            && r.Ok? == d.Ok?
            && (r.Ok? ==> r.offset == d.offset && fresh(r.value) && fresh(r.value.below) && Holds(r.value, d.value))
            && (r.Fail? && s != [] ==> r.offset < |s| && (d.offset < |s| ==> r.offset == d.offset))
  {
    if |s| == 0 {
      return Fail(0);
    }
    var buffer := new ParseBuffer(s);
    buffer.SkipByteOrderMark();
    buffer.SkipWhitespace();
    var root := new Item();
    var ok := buffer.ReadValue(root);
    if ok && requireNul {
      buffer.SkipWhitespace();
      ok := buffer.offset < |s| && s[buffer.offset] == 0;
    }
    if ok {
      return Ok(root, buffer.offset);
    }
    return Fail(if buffer.offset < |s| then buffer.offset else |s| - 1);
  }
}
