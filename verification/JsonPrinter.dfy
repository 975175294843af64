/**
 * The printer as it runs (routerd/3rdparty/cjson/cJSON.c:473-658, 949-1068, 1234-1359, 1418-1489, 1590-1649,
 * 1770-1881): a byte buffer that grows on demand, an offset into it and a nesting depth. Every operation is
 * proved to leave in the buffer exactly the text that JsonText.Render describes, and the exact condition
 * under which it succeeds is part of its contract.
 */
module JsonPrinter {
  import opened Bytes
  import opened JsonText
  import opened SiblingList
  import opened JsonTree
  import JsonRoundTrip

  lemma EscapeTextStep(t: seq<Byte>, i: nat)
    requires i < |t| && t[i] != 0
    ensures EscapeText(t[i..]) == EscapeByte(t[i]) + EscapeText(t[i + 1..])
  {
    hide EscapeByte;
    assert t[i..][1..] == t[i + 1..];
  }

  lemma EscapeTextEnd(t: seq<Byte>, i: nat)
    requires i <= |t| && (i == |t| || t[i] == 0)
    ensures EscapeText(t[i..]) == []
  {
  }

  // The bytes a character adds when it is escaped.
  function Extra(b: Byte): (n: nat)
    requires b != 0
    ensures |EscapeByte(b)| == 1 + n
    ensures n == 0 ==> EscapeByte(b) == [b]
  {
    if b == QUOTE || b == BACKSLASH || b == 8 || b == 12 || b == NEWLINE || b == 13 || b == TAB then 1
    else if b < 32 then 5
    else 0
  }

  lemma QuotedText(before: seq<Byte>, t: seq<Byte>)
    ensures (before + [QUOTE] + EscapeText(t)) + [QUOTE] == before + StringText(t)
  {
    hide EscapeText;
  }

  class PrintBuffer {
    var buffer: array<Byte>
    var offset: nat
    var depth: nat
    const noalloc: bool
    const format: bool

    ghost predicate Valid()
      reads `buffer, `offset
    {
      buffer.Length <= INT_MAX && (offset < buffer.Length || (offset == 0 && buffer.Length == 0))
    }

    // The longest buffer this print may end up with.
    ghost function Limit(): int
      reads `buffer
    {
      if noalloc then buffer.Length else INT_MAX
    }

    // What has been printed so far.
    ghost function Text(): (t: seq<Byte>)
      requires Valid()
      reads `buffer, `offset, buffer
      ensures |t| == offset
    {
      buffer[..offset]
    }

    // Text t stands behind what was printed before, a NUL behind it, and the offset is somewhere in t: the
    // printers leave it where they last stored something, and update_offset moves it to the end.
    ghost predicate Printed(before: seq<Byte>, t: seq<Byte>)
      reads `buffer, `offset, buffer
    {
      && Valid()
      && |before| + |t| < buffer.Length
      && buffer[..|before| + |t|] == before + t
      && buffer[|before| + |t|] == 0
      && |before| <= offset <= |before| + |t|
    }

    lemma PrintedMore(before: seq<Byte>, a: seq<Byte>, b: seq<Byte>)
      requires Printed(before + a, b)
      ensures Printed(before, a + b)
    {
      assert before + a + b == before + (a + b);
    }

    constructor (size: nat, noalloc: bool, format: bool)
      requires size <= INT_MAX
      ensures Valid() && offset == 0 && depth == 0 && fresh(buffer)
      ensures this.noalloc == noalloc && this.format == format && buffer.Length == size
    {
      buffer := new Byte[size];
      offset, depth := 0, 0;
      this.noalloc, this.format := noalloc, format;
    }

    // ------------------------------------------------------------ room

    // Afterwards `needed` bytes and one more can be stored from the offset on. Growing keeps the text.
    method Ensure(needed: nat) returns (ok: bool)
      requires Valid()
      modifies this`buffer
      ensures Valid() && (buffer == old(buffer) || fresh(buffer)) && (noalloc ==> buffer == old(buffer))
      ensures ok <==> offset + needed + 1 <= old(Limit())
      ensures ok ==> offset + needed < buffer.Length
      ensures Text() == old(Text())
      ensures ok ==> var total := offset + needed + 1;
                     buffer.Length == if total <= old(buffer.Length) then old(buffer.Length)
                                      else if total <= 0x3FFF_FFFF then 2 * total else 0x7FFF_FFFF
    {
      if buffer.Length > 0 && offset >= buffer.Length {
        return false;
      }
      if needed > INT_MAX {
        return false;
      }
      var total := needed + offset + 1;
      if total <= buffer.Length {
        return true;
      }
      if noalloc {
        return false;
      }
      var newSize;
      if total > INT_MAX / 2 {
        if total > INT_MAX {
          return false;
        }
        newSize := INT_MAX;
      } else {
        newSize := total * 2;
      }
      var newBuffer := new Byte[newSize];
      forall i | 0 <= i < buffer.Length {
        newBuffer[i] := buffer[i];
      }
      assert newBuffer[..offset] == buffer[..offset];
      buffer := newBuffer;
      return true;
    }

    // Reserve `needed` bytes, store `bytes` from the offset on, and move the offset by `advance`. The stores
    // stay inside what has been reserved.
    method Put(needed: nat, bytes: seq<Byte>, advance: nat) returns (ok: bool)
      requires Valid() && advance <= |bytes| <= needed
      modifies this`buffer, this`offset, buffer
      ensures Valid() && (buffer == old(buffer) || fresh(buffer)) && (noalloc ==> buffer == old(buffer))
      ensures ok <==> old(offset) + needed + 1 <= old(Limit())
      ensures ok ==> offset == old(offset) + advance && old(offset) + |bytes| < buffer.Length
      ensures ok ==> buffer[..old(offset) + |bytes|] == old(Text()) + bytes
    {
      ok := Ensure(needed);
      if !ok {
        return;
      }
      ghost var before := Text();
      for i := 0 to |bytes|
        invariant Valid() && offset + needed < buffer.Length
        modifies buffer
        invariant buffer[..offset + i] == before + bytes[..i]
      {
        buffer[offset + i] := bytes[i];
        assert bytes[..i + 1] == bytes[..i] + [bytes[i]];
        assert buffer[..offset + i + 1] == buffer[..offset + i] + [bytes[i]];
      }
      assert bytes[..|bytes|] == bytes;
      offset := offset + advance;
    }

    // Reserve, store and move past what was stored.
    method Append(needed: nat, bytes: seq<Byte>) returns (ok: bool)
      requires Valid() && |bytes| <= needed
      modifies this`buffer, this`offset, buffer
      ensures Valid() && (buffer == old(buffer) || fresh(buffer)) && (noalloc ==> buffer == old(buffer))
      ensures ok <==> old(offset) + needed + 1 <= old(Limit())
      ensures ok ==> Text() == old(Text()) + bytes
    {
      ok := Put(needed, bytes, |bytes|);
    }

    // Reserve, store with a terminator, and move in front of the terminator.
    method AppendText(t: seq<Byte>) returns (ok: bool)
      requires Valid()
      modifies this`buffer, this`offset, buffer
      ensures Valid() && (buffer == old(buffer) || fresh(buffer)) && (noalloc ==> buffer == old(buffer))
      ensures ok <==> old(offset) + |t| + 2 <= old(Limit())
      ensures ok ==> Text() == old(Text()) + t
    {
      ok := Put(|t| + 1, t + [0], |t|);
      if ok {
        ghost var end := old(offset) + |t|;
        assert buffer[..end] == buffer[..end + 1][..end];
      }
    }

    // Store a text with its terminator; the offset stays in front of it.
    method PutText(needed: nat, t: seq<Byte>, advance: nat) returns (ok: bool)
      requires Valid() && |t| + 1 <= needed && (advance == 0 || advance == |t|)
      modifies this`buffer, this`offset, buffer
      ensures Valid() && (buffer == old(buffer) || fresh(buffer)) && (noalloc ==> buffer == old(buffer))
      ensures ok <==> old(offset) + needed + 1 <= old(Limit())
      ensures ok ==> Printed(old(Text()), t)
    {
      ghost var before := Text();
      ok := Put(needed, t + [0], advance);
      if ok {
        ghost var end := |before| + |t|;
        assert buffer[..end + 1] == before + t + [0];
        assert buffer[..end] == buffer[..end + 1][..end] == before + t;
        assert buffer[end] == buffer[..end + 1][end];
      }
    }

    // Move the offset to the terminator.
    method UpdateOffset(ghost before: seq<Byte>, ghost t: seq<Byte>)
      requires Printed(before, t) && 0 !in t
      modifies this`offset
      ensures Valid() && Text() == before + t
    {
      ghost var end := |before| + |t|;
      assert forall i :: |before| <= i < end ==> buffer[i] == buffer[..end][i] == t[i - |before|];
      while buffer[offset] != 0
        invariant |before| <= offset <= end < buffer.Length
        invariant buffer[..end] == before + t && buffer[end] == 0
        decreases end - offset
      {
        offset := offset + 1;
      }
    }

    // ------------------------------------------------------------ strings

    // Length of the escaped text and how much of it is escaping.
    method MeasureText(t: seq<Byte>) returns (length: nat, escapes: nat)
      ensures length + escapes == |EscapeText(t)| && length <= |t|
      ensures escapes == 0 ==> EscapeText(t) == t[..length]
    {
      hide EscapeText, EscapeByte, Extra;
      length, escapes := 0, 0;
      assert t[0..] == t;
      assert [] + EscapeText(t) == EscapeText(t);
      while length < |t| && t[length] != 0
        invariant length <= |t|
        invariant length + escapes + |EscapeText(t[length..])| == |EscapeText(t)|
        invariant escapes == 0 ==> EscapeText(t) == t[..length] + EscapeText(t[length..])
      {
        ghost var rest := EscapeText(t[length + 1..]);
        EscapeTextStep(t, length);
        escapes := escapes + Extra(t[length]);
        if escapes == 0 {
          assert t[..length] + ([t[length]] + rest) == t[..length + 1] + rest;
        }
        length := length + 1;
      }
      EscapeTextEnd(t, length);
      assert t[..length] + [] == t[..length];
    }

    // Store one byte's escaped form at k; the \u form is stored with a terminator behind it.
    method StoreEscaped(b: Byte, k: nat)
      requires b != 0 && k + |EscapeByte(b)| < buffer.Length
      modifies buffer
      ensures buffer[..k + |EscapeByte(b)|] == old(buffer[..k]) + EscapeByte(b)
    {
      if b > 31 && b != QUOTE && b != BACKSLASH {
        buffer[k] := b;
      } else {
        buffer[k] := BACKSLASH;
        match b {
          case 92 => buffer[k + 1] := BACKSLASH;
          case 34 => buffer[k + 1] := QUOTE;
          case 8 => buffer[k + 1] := 98;
          case 12 => buffer[k + 1] := 102;
          case 10 => buffer[k + 1] := 110;
          case 13 => buffer[k + 1] := 114;
          case 9 => buffer[k + 1] := 116;
          case _ =>
            buffer[k + 1], buffer[k + 2], buffer[k + 3] := 117, ZERO, ZERO;
            buffer[k + 4], buffer[k + 5], buffer[k + 6] := HexDigit(b / 16), HexDigit(b % 16), 0;
        }
      }
      assert buffer[..k + |EscapeByte(b)|] == buffer[..k] + buffer[k..k + |EscapeByte(b)|];
      assert buffer[k..k + |EscapeByte(b)|] == EscapeByte(b);
    }

    // Store the escaped text of t from k on.
    method StoreText(t: seq<Byte>, start: nat) returns (k: nat)
      requires start + |EscapeText(t)| < buffer.Length
      modifies buffer
      ensures k == start + |EscapeText(t)|
      ensures buffer[..k] == old(buffer[..start]) + EscapeText(t)
    {
      hide EscapeText, EscapeByte;
      ghost var goal := buffer[..start] + EscapeText(t);
      var i := 0;
      k := start;
      assert t[0..] == t;
      while i < |t| && t[i] != 0
        invariant i <= |t| && start <= k
        invariant k + |EscapeText(t[i..])| == start + |EscapeText(t)|
        invariant buffer[..k] + EscapeText(t[i..]) == goal
      {
        ghost var rest := EscapeText(t[i + 1..]);
        EscapeTextStep(t, i);
        ghost var done := buffer[..k];
        StoreEscaped(t[i], k);
        assert done + (EscapeByte(t[i]) + rest) == (done + EscapeByte(t[i])) + rest;
        k := k + |EscapeByte(t[i])|;
        i := i + 1;
      }
      EscapeTextEnd(t, i);
      assert buffer[..k] + [] == buffer[..k];
    }

    // memcpy of a text that needs no escaping.
    method CopyText(t: seq<Byte>, start: nat)
      requires start + |t| < buffer.Length
      modifies buffer
      ensures buffer[..start + |t|] == old(buffer[..start]) + t
    {
      forall i | 0 <= i < |t| {
        buffer[start + i] := t[i];
      }
      assert buffer[start..start + |t|] == t;
      assert buffer[..start + |t|] == buffer[..start] + buffer[start..start + |t|];
    }

    // The closing quote and the terminator.
    method CloseText(k: nat, ghost t: seq<Byte>)
      requires k + 1 < buffer.Length && buffer[..k] == t
      modifies buffer
      ensures buffer[..k + 1] == t + [QUOTE] && buffer[k + 1] == 0
    {
      buffer[k], buffer[k + 1] := QUOTE, 0;
      assert buffer[..k] == t;
    }

    // Store a quoted string in the room reserved for it.
    method StoreString(t: seq<Byte>, length: nat, escapes: nat)
      requires Valid() && offset + |StringText(t)| < buffer.Length
      requires length + escapes == |EscapeText(t)| && length <= |t|
      requires escapes == 0 ==> EscapeText(t) == t[..length]
      modifies buffer
      ensures Printed(old(Text()), StringText(t))
    {
      hide EscapeText;
      ghost var before := Text();
      buffer[offset] := QUOTE;
      assert buffer[..offset + 1] == before + [QUOTE];
      var k := offset + 1 + length + escapes;
      if escapes == 0 {
        CopyText(t[..length], offset + 1);
      } else {
        k := StoreText(t, offset + 1);
      }
      CloseText(k, before + [QUOTE] + EscapeText(t));
      QuotedText(before, t);
    }

    method PrintString(t: seq<Byte>) returns (ok: bool)
      requires Valid()
      modifies this`buffer, this`offset, buffer
      ensures Valid() && (buffer == old(buffer) || fresh(buffer)) && (noalloc ==> buffer == old(buffer))
      ensures ok <==> old(offset) + |StringText(t)| + 2 <= old(Limit())
      ensures ok ==> Printed(old(Text()), StringText(t))
    {
      hide EscapeText;
      var length, escapes := MeasureText(t);
      ok := Ensure(length + escapes + 3);
      if ok {
        StoreString(t, length, escapes);
      }
    }

    // print_string_ptr and update_offset.
    method AppendString(t: seq<Byte>) returns (ok: bool)
      requires Valid()
      modifies this`buffer, this`offset, buffer
      ensures Valid() && (buffer == old(buffer) || fresh(buffer)) && (noalloc ==> buffer == old(buffer))
      ensures ok <==> old(offset) + |StringText(t)| + 2 <= old(Limit())
      ensures ok ==> Text() == old(Text()) + StringText(t)
    {
      ok := PrintString(t);
      if ok {
        JsonRoundTrip.EscapeTextHasNoNul(t);
        UpdateOffset(old(Text()), StringText(t));
      }
    }

    // ------------------------------------------------------------ values

    // print_value and update_offset.
    method AppendValue(item: Item, ghost v: Json) returns (ok: bool)
      requires Valid() && Holds(item, v) && Plain(v)
      modifies this`buffer, this`offset, this`depth, buffer
      ensures Valid() && (buffer == old(buffer) || fresh(buffer)) && (noalloc ==> buffer == old(buffer))
      ensures ok <==> old(offset) + |Render(v, format, old(depth))| + 2 <= old(Limit())
      ensures ok ==> Text() == old(Text()) + Render(v, format, old(depth)) && depth == old(depth)
      decreases v, 4
    {
      hide Render;
      ok := PrintValue(item, v);
      if ok {
        JsonRoundTrip.RenderHasNoNul(v, format, depth);
        UpdateOffset(old(Text()), Render(v, format, depth));
      }
    }

    method PrintValue(item: Item, ghost v: Json) returns (ok: bool)
      requires Valid() && Holds(item, v) && Plain(v)
      modifies this`buffer, this`offset, this`depth, buffer
      ensures Valid() && (buffer == old(buffer) || fresh(buffer)) && (noalloc ==> buffer == old(buffer))
      ensures ok <==> old(offset) + |Render(v, format, old(depth))| + 2 <= old(Limit())
      ensures ok ==> Printed(old(Text()), Render(v, format, old(depth))) && depth == old(depth)
      decreases v, 3
    {
      match item.data
      case Null =>
        ok := PutText(5, NULL_TEXT, 0);
      case Bool(b) =>
        if b {
          ok := PutText(5, TRUE_TEXT, 0);
        } else {
          ok := PutText(6, FALSE_TEXT, 0);
        }
      case Int(n) =>
        var digits := DecimalText(n);
        ok := PutText(|digits| + 1, digits, |digits|);
      case Str(text) =>
        ok := PrintString(text);
      case Arr(_) =>
        ok := PrintArray(item, v.items);
      case Obj(_) =>
        ok := PrintObject(item, v.members);
    }

    method PrintArray(item: Item, ghost items: seq<Json>) returns (ok: bool)
      requires Valid() && Holds(item, Arr(items)) && Plain(Arr(items))
      modifies this`buffer, this`offset, this`depth, buffer
      ensures Valid() && (buffer == old(buffer) || fresh(buffer)) && (noalloc ==> buffer == old(buffer))
      ensures ok <==> old(offset) + |Render(Arr(items), format, old(depth))| + 2 <= old(Limit())
      ensures ok ==> Printed(old(Text()), Render(Arr(items), format, old(depth))) && depth == old(depth)
      decreases items, 2
    {
      hide Render, RenderItems, Text, Printed, Holds;
      ghost var before := Text();
      ghost var body := RenderItems(items, format, depth + 1);
      ArrayText(before, items, format, depth);
      ok := Append(1, [OPEN_BRACKET]);
      if !ok {
        return;
      }
      depth := depth + 1;
      ok := PrintItems(item, items);
      if !ok {
        return;
      }
      ok := PutText(2, [CLOSE_BRACKET], 0);
      if ok {
        PrintedMore(before, [OPEN_BRACKET] + body, [CLOSE_BRACKET]);
      }
      depth := depth - 1;
    }

    // The items with their separators.
    method PrintItems(item: Item, ghost items: seq<Json>) returns (ok: bool)
      requires Valid() && Holds(item, Arr(items)) && Plain(Arr(items))
      modifies this`buffer, this`offset, this`depth, buffer
      ensures Valid() && (buffer == old(buffer) || fresh(buffer)) && (noalloc ==> buffer == old(buffer))
      ensures !ok ==> old(offset) + |RenderItems(items, format, old(depth))| + 2 > old(Limit())
      ensures ok ==> Text() == old(Text()) + RenderItems(items, format, old(depth)) && depth == old(depth)
      decreases items, 1
    {
      hide Render, RenderItems, Text, ItemSeparator, Holds;
      ghost var goal := Text() + RenderItems(items, format, depth);
      ghost var i := 0;
      assert items[0..] == items;
      ok := true;
      FirstChild(item, Arr(items));
      var current := item.child;
      while current != null
        invariant i <= |items| && ok && current == (if i < |items| then item.kids[i] else null)
        invariant Valid() && (buffer == old(buffer) || fresh(buffer)) && (noalloc ==> buffer == old(buffer))
        invariant depth == old(depth)
        invariant goal == Text() + RenderItems(items[i..], format, depth)
        decreases |items| - i
      {
        ItemText(Text(), items, i, format, depth);
        ArrayChild(item, items, i);
        ok := AppendValue(current, items[i]);
        if !ok {
          return;
        }
        if current.next != null {
          ok := AppendText(ItemSeparator(format));
          if !ok {
            return;
          }
        } else {
          assert Text() + [] == Text();
        }
        current := current.next;
        i := i + 1;
      }
      NoItems(items, format, depth);
      assert Text() + [] == Text();
    }

    method PrintObject(item: Item, ghost members: seq<Member>) returns (ok: bool)
      requires Valid() && Holds(item, Obj(members)) && Plain(Obj(members))
      modifies this`buffer, this`offset, this`depth, buffer
      ensures Valid() && (buffer == old(buffer) || fresh(buffer)) && (noalloc ==> buffer == old(buffer))
      ensures ok <==> old(offset) + |Render(Obj(members), format, old(depth))| + 2 <= old(Limit())
      ensures ok ==> Printed(old(Text()), Render(Obj(members), format, old(depth))) && depth == old(depth)
      decreases members, 2
    {
      hide Render, RenderMembers, Tabs, Text, Printed, Holds;
      ghost var before := Text();
      ghost var open, body := [OPEN_BRACE] + LineEnd(format), RenderMembers(members, format, depth + 1);
      ObjectText(before, members, format, depth);
      var length := if format then 2 else 1;
      ok := Append(length + 1, [OPEN_BRACE] + LineEnd(format));
      if !ok {
        return;
      }
      depth := depth + 1;
      ok := PrintMembers(item, members);
      if !ok {
        return;
      }
      var close := Indent(format, depth - 1) + [CLOSE_BRACE];
      ok := PutText(if format then depth + 1 else 2, close, 0);
      if ok {
        PrintedMore(before, open + body, close);
      }
      depth := depth - 1;
    }

    method PrintMembers(item: Item, ghost members: seq<Member>) returns (ok: bool)
      requires Valid() && Holds(item, Obj(members)) && Plain(Obj(members))
      modifies this`buffer, this`offset, this`depth, buffer
      ensures Valid() && (buffer == old(buffer) || fresh(buffer)) && (noalloc ==> buffer == old(buffer))
      ensures !ok ==> old(offset) + |RenderMembers(members, format, old(depth))| + 2 > old(Limit())
      ensures ok ==> Text() == old(Text()) + RenderMembers(members, format, old(depth)) && depth == old(depth)
      decreases members, 1
    {
      hide RenderMember, RenderMembers, Text, Holds;
      ghost var goal := Text() + RenderMembers(members, format, depth);
      ghost var i := 0;
      assert members[0..] == members;
      ok := true;
      FirstChild(item, Obj(members));
      var current := item.child;
      while current != null
        invariant i <= |members| && ok && current == (if i < |members| then item.kids[i] else null)
        invariant Valid() && (buffer == old(buffer) || fresh(buffer)) && (noalloc ==> buffer == old(buffer))
        invariant depth == old(depth)
        invariant goal == Text() + RenderMembers(members[i..], format, depth)
        decreases |members| - i
      {
        MemberText(Text(), members, i, format, depth);
        ObjectChild(item, members, i);
        ok := PrintMember(current, members[i], current.next == null);
        if !ok {
          return;
        }
        current := current.next;
        i := i + 1;
      }
      NoMembers(members, format, depth);
      assert Text() + [] == Text();
    }

    // Indentation, key and colon.
    method PrintKey(key: seq<Byte>) returns (ok: bool)
      requires Valid()
      modifies this`buffer, this`offset, buffer
      ensures Valid() && (buffer == old(buffer) || fresh(buffer)) && (noalloc ==> buffer == old(buffer))
      ensures !ok ==> old(offset) + |KeyText(key, format, depth)| + 2 > old(Limit())
      ensures ok ==> Text() == old(Text()) + KeyText(key, format, depth)
    {
      hide StringText, Tabs, Text;
      ghost var before := Text();
      KeyParts(before, key, format, depth);
      ok := true;
      if format {
        ok := Append(depth, Tabs(depth));
        if !ok {
          return;
        }
      }
      ok := AppendString(key);
      if !ok {
        return;
      }
      ok := Append(if format then 2 else 1, KeySeparator(format));
    }

    // One line of an object: indentation, key, value and what ends it.
    method PrintMember(item: Item, ghost m: Member, last: bool) returns (ok: bool)
      requires Valid() && item.key == Some(m.key) && Holds(item, m.value) && Plain(m.value)
      modifies this`buffer, this`offset, this`depth, buffer
      ensures Valid() && (buffer == old(buffer) || fresh(buffer)) && (noalloc ==> buffer == old(buffer))
      ensures !ok ==> old(offset) + |RenderMember(m, last, format, old(depth))| + 2 > old(Limit())
      ensures ok ==> Text() == old(Text()) + RenderMember(m, last, format, old(depth)) && depth == old(depth)
      decreases m, 4
    {
      hide Render, RenderMember, KeyText, Text, Plain, Holds;
      MemberParts(Text(), m, last, format, depth);
      ok := PrintKey(item.key.value);
      if !ok {
        return;
      }
      ok := AppendValue(item, m.value);
      if !ok {
        return;
      }
      ok := AppendText((if last then [] else [COMMA]) + LineEnd(format));
    }
  }

  function KeyText(key: seq<Byte>, format: bool, depth: nat): seq<Byte> {
    Indent(format, depth) + StringText(key) + KeySeparator(format)
  }

  lemma KeyParts(before: seq<Byte>, key: seq<Byte>, format: bool, depth: nat)
    ensures var indented := if format then before + Tabs(depth) else before;
            && before + KeyText(key, format, depth) == indented + StringText(key) + KeySeparator(format)
            && |KeyText(key, format, depth)| == |indented| - |before| + |StringText(key)| + |KeySeparator(format)|
  {
    hide StringText, Tabs;
  }

  lemma MemberParts(before: seq<Byte>, m: Member, last: bool, format: bool, depth: nat)
    requires Plain(m.value)
    ensures var k, v := KeyText(m.key, format, depth), Render(m.value, format, depth);
            var end := (if last then [] else [COMMA]) + LineEnd(format);
            var t := RenderMember(m, last, format, depth);
            before + t == before + k + v + end && |t| == |k| + |v| + |end|
  {
    hide Render, StringText, Tabs;
  }

  lemma ArrayText(before: seq<Byte>, items: seq<Json>, format: bool, depth: nat)
    requires Plain(Arr(items))
    ensures var body := RenderItems(items, format, depth + 1);
            && Render(Arr(items), format, depth) == [OPEN_BRACKET] + body + [CLOSE_BRACKET]
            && before + [OPEN_BRACKET] + body == before + ([OPEN_BRACKET] + body)
  {
    hide RenderItems;
  }

  lemma ItemText(before: seq<Byte>, items: seq<Json>, i: nat, format: bool, depth: nat)
    requires i < |items| && Plain(Arr(items))
    ensures var t := Render(items[i], format, depth);
            var sep := if i + 1 < |items| then ItemSeparator(format) else [];
            var rest := RenderItems(items[i + 1..], format, depth);
            && before + RenderItems(items[i..], format, depth) == before + t + sep + rest
            && |RenderItems(items[i..], format, depth)| == |t| + |sep| + |rest|
  {
    hide Render;
    assert items[i..][1..] == items[i + 1..];
  }

  lemma NoItems(items: seq<Json>, format: bool, depth: nat)
    ensures RenderItems(items[|items|..], format, depth) == []
  {
  }

  lemma ObjectText(before: seq<Byte>, members: seq<Member>, format: bool, depth: nat)
    requires Plain(Obj(members))
    ensures var body := RenderMembers(members, format, depth + 1);
            var open, close := [OPEN_BRACE] + LineEnd(format), Indent(format, depth) + [CLOSE_BRACE];
            && Render(Obj(members), format, depth) == open + body + close
            && before + open + body == before + (open + body)
  {
    hide RenderMembers, Tabs;
  }

  lemma MemberText(before: seq<Byte>, members: seq<Member>, i: nat, format: bool, depth: nat)
    requires i < |members| && Plain(Obj(members))
    ensures var t := RenderMember(members[i], i + 1 == |members|, format, depth);
            var rest := RenderMembers(members[i + 1..], format, depth);
            && before + RenderMembers(members[i..], format, depth) == before + t + rest
            && |RenderMembers(members[i..], format, depth)| == |t| + |rest|
  {
    hide RenderMember;
    assert members[i..][1..] == members[i + 1..];
  }

  lemma NoMembers(members: seq<Member>, format: bool, depth: nat)
    ensures RenderMembers(members[|members|..], format, depth) == []
  {
  }

  // cJSON_Print and cJSON_PrintUnformatted: the whole text, or nothing when it does not fit an int.
  method Print(item: Item, format: bool, ghost v: Json) returns (r: Option<seq<Byte>>)
    requires Holds(item, v) && Plain(v)
    ensures r == if |Render(v, format, 0)| + 2 <= INT_MAX then Some(Render(v, format, 0)) else None
  {
    hide Render;
    var p := new PrintBuffer(256, false, format);
    var ok := p.PrintValue(item, v);
    if !ok {
      return None;
    }
    JsonRoundTrip.RenderHasNoNul(v, format, 0);
    p.UpdateOffset([], Render(v, format, 0));
    assert [] + Render(v, format, 0) == Render(v, format, 0);
    return Some(p.buffer[..p.offset]);
  }

  // cJSON_PrintPreallocated: two bytes more than the text are enough, and needed.
  method PrintPreallocated(item: Item, size: nat, format: bool, ghost v: Json) returns (ok: bool, buffer: array<Byte>)
    requires Holds(item, v) && Plain(v) && size <= INT_MAX
    ensures ok <==> |Render(v, format, 0)| + 2 <= size
    ensures ok ==> buffer.Length == size && buffer[..|Render(v, format, 0)|] == Render(v, format, 0)
                   && buffer[|Render(v, format, 0)|] == 0
  {
    hide Render;
    var p := new PrintBuffer(size, true, format);
    ok := p.PrintValue(item, v);
    buffer := p.buffer;
    assert [] + Render(v, format, 0) == Render(v, format, 0);
  }
}
