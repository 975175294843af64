/**
 * Printing then parsing (routerd/3rdparty/cjson/cJSON.c:1363-1881): every plain value, formatted or not,
 * comes back as itself and exactly its text is consumed, precisely when its nesting is within the limit.
 */
module JsonRoundTrip {
  import opened Bytes
  import opened JsonText
  import opened JsonGrammar
  import Utf

  // ---------------------------------------------------------------- whitespace

  // A run of n blanks followed by something else is skipped exactly.
  lemma SkipRun(s: seq<Byte>, o: nat, n: nat)
    requires o + n < |s|
    requires forall k :: o <= k < o + n ==> s[k] <= 32
    requires s[o + n] > 32
    ensures SkipSpace(s, o) == o + n
  {
    hide SpaceEnd;
    var r := SpaceEnd(s, o);
    assert !(r < o + n) && !(r > o + n);
  }

  // A text is followed by a byte that cannot continue a number.
  predicate Stops(s: seq<Byte>, e: nat) {
    e < |s| && !NumberByte(s[e])
  }

  // ---------------------------------------------------------------- numbers

  lemma {:induction false} DigitsValueOfDigits(n: nat)
    ensures forall i :: 0 <= i < |Digits(n)| ==> IsDigit(Digits(n)[i])
    ensures DigitsValue(Digits(n)) == n
  {
    var t := Digits(n);
    assert forall i :: 0 <= i < |t| ==> IsDigit(t[i]);
    if n < 10 {
      assert t[..|t| - 1] == [];
    } else {
      DigitsValueOfDigits(n / 10);
      assert t[..|t| - 1] == Digits(n / 10);
    }
  }

  lemma DigitsEndAll(t: seq<Byte>, i: nat)
    requires i <= |t|
    requires forall k :: i <= k < |t| ==> IsDigit(t[k])
    ensures DigitsEnd(t, i) == |t|
  {
    hide DigitsEnd;
    assert !(DigitsEnd(t, i) < |t|);
  }

  // A printed integer is one whole number lexeme with the same value.
  lemma DecimalTextValue(n: CInt)
    ensures var t := DecimalText(n);
            && (t[0] == MINUS || IsDigit(t[0]))
            && (forall k :: 0 <= k < |t| ==> NumberByte(t[k]))
            && StrtodLength(t) == |t| && NumberValue(t) == Int(n)
  {
    hide Digits, DigitsEnd, DigitsValue;
    var t := DecimalText(n);
    var m: nat := if n < 0 then 0 - n else n;
    var start := if n < 0 then 1 else 0;
    var d := Digits(m);
    DigitsValueOfDigits(m);
    assert IsDigit(d[0]);
    assert t[start] == d[0];
    assert SignEnd(t, 0) == start;
    assert t[start..] == d;
    assert forall k :: start <= k < |t| ==> t[k] == d[k - start];
    DigitsEndAll(t, start);
  }

  lemma NumberParses(n: CInt, s: seq<Byte>, o: nat)
    requires At(s, o, DecimalText(n))
    requires Stops(s, o + |DecimalText(n)|)
    ensures ParseNumber(s, o) == Ok(Int(n), o + |DecimalText(n)|)
  {
    hide NumberSpan, DecimalText, StrtodLength, NumberValue;
    var t := DecimalText(n);
    var e := o + |t|;
    DecimalTextValue(n);
    forall k | o <= k < e ensures NumberByte(s[k]) {
      AtIndex(s, o, t, k - o);
    }
    var r := NumberSpan(s, o);
    assert !(r < e) && !(r > e);
    assert t[..|t|] == t;
  }

  // ---------------------------------------------------------------- strings

  // The first pass steps over one escaped byte as a whole.
  lemma EscapedByteMeasured(b: Byte, s: seq<Byte>, p: nat)
    requires b != 0 && At(s, p, EscapeByte(b))
    ensures p + |EscapeByte(b)| <= |s|
    ensures StringEnd(s, p) == StringEnd(s, p + |EscapeByte(b)|)
  {
    hide At;
    var t := EscapeByte(b);
    AtIndex(s, p, t, |t| - 1);
    AtIndex(s, p, t, 0);
    if |t| == 6 {
      AtIndex(s, p, t, 2);
      AtIndex(s, p, t, 3);
      AtIndex(s, p, t, 4);
      assert StringEnd(s, p + 2) == StringEnd(s, p + 3) == StringEnd(s, p + 4) == StringEnd(s, p + 5);
    }
  }

  // The second pass turns it back into the byte.
  lemma EscapedByteRead(b: Byte, s: seq<Byte>, p: nat, end: nat)
    requires b != 0 && At(s, p, EscapeByte(b)) && p + |EscapeByte(b)| <= end < |s|
    ensures NextPiece(s, p, end) == Piece([b], |EscapeByte(b)|)
  {
    hide At;
    var t := EscapeByte(b);
    AtIndex(s, p, t, 0);
    if |t| > 1 {
      AtIndex(s, p, t, 1);
    }
    if |t| == 6 {
      AtIndex(s, p, t, 2);
      AtIndex(s, p, t, 3);
      AtIndex(s, p, t, 4);
      AtIndex(s, p, t, 5);
      assert Utf.Hex4(s, p + 2) == b;
    }
  }

  lemma {:induction false} EscapedTextParses(t: seq<Byte>, s: seq<Byte>, p: nat)
    requires At(s, p, EscapeText(t) + [QUOTE])
    ensures p <= |s|
    ensures var end := p + |EscapeText(t)|;
            end < |s| && StringEnd(s, p) == Some(end) && Unescape(s, p, end) == Bytes(CString(t))
  {
    hide At, EscapeByte, NextPiece, StringEnd, EscapeText, Unescape, CString;
    var end := p + |EscapeText(t)|;
    EscapeStep(t);
    AtSplit(s, p, EscapeText(t), [QUOTE]);
    AtIndex(s, end, [QUOTE], 0);
    LiteralEnds(s, end);
    if t != [] && t[0] != 0 {
      var a, b := EscapeByte(t[0]), EscapeText(t[1..]);
      Regroup(a, b, [QUOTE]);
      AtSplit(s, p, a, b + [QUOTE]);
      EscapedTextParses(t[1..], s, p + |a|);
      EscapedByteMeasured(t[0], s, p);
      EscapedByteRead(t[0], s, p, end);
      UnescapeStep(s, p, end, t[0], |a|, CString(t[1..]));
    }
  }

  lemma EscapeStep(t: seq<Byte>)
    ensures t != [] && t[0] != 0 ==>
              EscapeText(t) == EscapeByte(t[0]) + EscapeText(t[1..]) && CString(t) == [t[0]] + CString(t[1..])
    ensures t == [] || t[0] == 0 ==> EscapeText(t) == [] && CString(t) == []
  {
    hide EscapeByte;
  }

  lemma Regroup(a: seq<Byte>, b: seq<Byte>, c: seq<Byte>)
    ensures (a + b) + c == a + (b + c)
  {
  }

  lemma LiteralEnds(s: seq<Byte>, end: nat)
    requires end < |s| && s[end] == QUOTE
    ensures StringEnd(s, end) == Some(end) && Unescape(s, end, end) == Bytes([])
  {
  }

  lemma UnescapeStep(s: seq<Byte>, p: nat, end: nat, b: Byte, n: nat, rest: seq<Byte>)
    requires p < end < |s| && p + n <= end && NextPiece(s, p, end) == Piece([b], n)
    requires Unescape(s, p + n, end) == Bytes(rest)
    ensures Unescape(s, p, end) == Bytes([b] + rest)
  {
    hide NextPiece;
  }

  lemma StringParses(t: seq<Byte>, s: seq<Byte>, o: nat)
    requires At(s, o, StringText(t))
    ensures o < |s| && s[o] == QUOTE
    ensures ParseString(s, o) == Ok(CString(t), o + |StringText(t)|)
  {
    hide At, EscapeText, StringEnd, Unescape, CString;
    assert StringText(t) == [QUOTE] + (EscapeText(t) + [QUOTE]);
    AtSplit(s, o, [QUOTE], EscapeText(t) + [QUOTE]);
    AtIndex(s, o, [QUOTE], 0);
    EscapedTextParses(t, s, o + 1);
  }

  // ---------------------------------------------------------------- values

  lemma RenderHead(v: Json, format: bool, depth: nat)
    requires Plain(v)
    ensures var b := Render(v, format, depth)[0]; 32 < b < 0x80 && b != CLOSE_BRACKET && b != CLOSE_BRACE
  {
    if v.Int? {
      DecimalTextValue(v.n);
    }
  }

  // What parsing must give for a value of the given nesting met at depth d.
  predicate Expected<T(==)>(r: Result<T>, v: T, end: nat, deepest: nat) {
    if deepest <= NESTING_LIMIT then r == Ok(v, end) else r.Fail?
  }

  // The first byte decides which branch of ParseValue is taken.
  lemma Dispatch(s: seq<Byte>, o: nat, d: nat)
    requires o < |s|
    ensures s[o] == QUOTE ==> ParseValue(s, o, d) == AsString(ParseString(s, o))
    ensures s[o] == MINUS || IsDigit(s[o]) ==> ParseValue(s, o, d) == ParseNumber(s, o)
    ensures s[o] == OPEN_BRACKET ==> ParseValue(s, o, d) == AsArray(ParseArray(s, o, d))
    ensures s[o] == OPEN_BRACE ==> ParseValue(s, o, d) == AsObject(ParseObject(s, o, d))
    ensures At(s, o, NULL_TEXT) ==> ParseValue(s, o, d) == Ok(Null, o + 4)
    ensures At(s, o, FALSE_TEXT) ==> ParseValue(s, o, d) == Ok(Bool(false), o + 5)
    ensures At(s, o, TRUE_TEXT) ==> ParseValue(s, o, d) == Ok(Bool(true), o + 4)
  {
    hide At, ParseString, ParseNumber, ParseArray, ParseObject;
    if At(s, o, NULL_TEXT) {
      AtIndex(s, o, NULL_TEXT, 0);
    }
    if At(s, o, FALSE_TEXT) {
      AtIndex(s, o, FALSE_TEXT, 0);
    }
    if At(s, o, TRUE_TEXT) {
      AtIndex(s, o, TRUE_TEXT, 0);
    }
  }

  lemma {:induction false} ValueParses(v: Json, format: bool, depth: nat, s: seq<Byte>, o: nat, d: nat)
    requires Plain(v) && d <= NESTING_LIMIT
    requires At(s, o, Render(v, format, depth)) && Stops(s, o + |Render(v, format, depth)|)
    ensures o <= |s|
    ensures Expected(ParseValue(s, o, d), Cut(v), o + |Render(v, format, depth)|, d + Nesting(v))
    decreases v, 3
  {
    hide At, ParseValue, ParseString, ParseNumber, ParseArray, ParseObject, StringText, DecimalText, Tabs,
         RenderItems, RenderMembers, CutItems, CutMembers, NestingOfItems, NestingOfMembers, CString;
    var t := Render(v, format, depth);
    AtIndex(s, o, t, 0);
    Dispatch(s, o, d);
    match v
    case Null =>
    case Bool(b) =>
    case Int(n) =>
      DecimalTextValue(n);
      NumberParses(n, s, o);
    case Str(text) =>
      StringParses(text, s, o);
    case Arr(items) =>
      ArrayParses(items, format, depth, s, o, d);
    case Obj(members) =>
      ObjectParses(members, format, depth, s, o, d);
  }

  // ---------------------------------------------------------------- arrays

  lemma {:induction false} ArrayParses(items: seq<Json>, format: bool, depth: nat, s: seq<Byte>, o: nat, d: nat)
    requires Plain(Arr(items)) && d <= NESTING_LIMIT
    requires At(s, o, Render(Arr(items), format, depth))
    ensures o < |s| && s[o] == OPEN_BRACKET
    ensures Expected(ParseArray(s, o, d), CutItems(items), o + |Render(Arr(items), format, depth)|,
                     d + 1 + NestingOfItems(items))
    decreases items, 2
  {
    hide At, SkipSpace, ParseItems, Render, RenderItems, CutItems, NestingOfItems;
    var body := RenderItems(items, format, depth + 1);
    ArrayShape(items, format, depth);
    ItemsHead(items, format, depth + 1);
    AtSplit(s, o, [OPEN_BRACKET], body + [CLOSE_BRACKET]);
    AtIndex(s, o, [OPEN_BRACKET], 0);
    AtIndex(s, o + 1, body + [CLOSE_BRACKET], 0);
    SkipRun(s, o + 1, 0);
    if d < NESTING_LIMIT && items != [] {
      ItemsParse(items, format, depth + 1, s, o + 1, o + 1, d + 1);
    }
  }

  lemma ArrayShape(items: seq<Json>, format: bool, depth: nat)
    requires Plain(Arr(items))
    ensures Render(Arr(items), format, depth) ==
            [OPEN_BRACKET] + (RenderItems(items, format, depth + 1) + [CLOSE_BRACKET])
    ensures items == [] ==> CutItems(items) == [] && NestingOfItems(items) == 0
  {
    hide RenderItems;
  }

  // An item's text opens with a byte that is neither a blank nor a closing bracket.
  lemma ItemsHead(items: seq<Json>, format: bool, depth: nat)
    requires forall i :: 0 <= i < |items| ==> Plain(items[i])
    ensures items == [] ==> RenderItems(items, format, depth) == []
    ensures items != [] ==>
              var t := RenderItems(items, format, depth); |t| > 0 && t[0] > 32 && t[0] != CLOSE_BRACKET
  {
    if items != [] {
      RenderHead(items[0], format, depth);
      hide Render;
      assert RenderItems(items, format, depth)[0] == Render(items[0], format, depth)[0];
    }
  }

  lemma ItemsShape(items: seq<Json>, format: bool, depth: nat)
    requires items != []
    requires forall i :: 0 <= i < |items| ==> Plain(items[i])
    ensures RenderItems(items, format, depth) ==
            Render(items[0], format, depth) + (if |items| > 1 then ItemSeparator(format) else [])
            + RenderItems(items[1..], format, depth)
    ensures CutItems(items) == [Cut(items[0])] + CutItems(items[1..])
    ensures NestingOfItems(items) == Max(Nesting(items[0]), NestingOfItems(items[1..]))
    ensures |items| == 1 ==> CutItems(items) == [Cut(items[0])]
    ensures |items| == 1 ==> items[1..] == [] && CutItems(items[1..]) == [] && NestingOfItems(items[1..]) == 0
  {
    hide Render, Cut, Nesting;
  }

  // What one item and the byte behind it make of ParseItems.
  lemma ItemStep(s: seq<Byte>, e: nat, o: nat, d: nat)
    requires e <= |s| && SkipSpace(s, e) == o && o <= |s|
    ensures ParseValue(s, o, d).Fail? ==> ParseItems(s, e, d).Fail?
    ensures ParseValue(s, o, d).Ok? ==>
              var v, q := ParseValue(s, o, d).value, ParseValue(s, o, d).offset;
              && (q < |s| && s[q] == CLOSE_BRACKET && SkipSpace(s, q) == q ==>
                    ParseItems(s, e, d) == Ok([v], q + 1))
              && (q < |s| && s[q] == COMMA && SkipSpace(s, q) == q ==>
                    ParseItems(s, e, d) == match ParseItems(s, q + 1, d) {
                      case Fail(f) => Fail(f)
                      case Ok(rest, end) => Ok([v] + rest, end)
                    })
  {
    hide ParseValue, SkipSpace;
  }

  lemma {:induction false} ItemsParse(items: seq<Json>, format: bool, depth: nat, s: seq<Byte>, e: nat, o: nat, d: nat)
    requires items != [] && d <= NESTING_LIMIT
    requires forall i :: 0 <= i < |items| ==> Plain(items[i])
    requires e <= |s| && SkipSpace(s, e) == o
    requires At(s, o, RenderItems(items, format, depth) + [CLOSE_BRACKET])
    ensures Expected(ParseItems(s, e, d), CutItems(items), o + |RenderItems(items, format, depth)| + 1,
                     d + NestingOfItems(items))
    decreases items, 1
  {
    hide At, SkipSpace, ParseValue, ParseItems, Render, RenderItems, Cut, CutItems, Nesting, NestingOfItems;
    var q := o + |Render(items[0], format, depth)|;
    ItemsShape(items, format, depth);
    ItemsLayout(items, format, depth, s, o);
    ValueParses(items[0], format, depth, s, o, d);
    ItemStep(s, e, o, d);
    if |items| > 1 {
      ItemsParse(items[1..], format, depth, s, q + 1, q + |ItemSeparator(format)|, d);
    }
  }

  lemma RegroupFour(a: seq<Byte>, b: seq<Byte>, c: seq<Byte>, d: seq<Byte>)
    ensures a + b + c + d == a + (b + (c + d))
  {
  }

  // Where an item, what follows it and the other items stand.
  lemma ItemsLayout(items: seq<Json>, format: bool, depth: nat, s: seq<Byte>, o: nat)
    requires items != []
    requires forall i :: 0 <= i < |items| ==> Plain(items[i])
    requires At(s, o, RenderItems(items, format, depth) + [CLOSE_BRACKET])
    ensures At(s, o, Render(items[0], format, depth))
    ensures var q := o + |Render(items[0], format, depth)|;
            && q < |s| && SkipSpace(s, q) == q
            && s[q] == (if |items| > 1 then COMMA else CLOSE_BRACKET)
            && (|items| > 1 ==>
                  var next := q + |ItemSeparator(format)|;
                  SkipSpace(s, q + 1) == next && At(s, next, RenderItems(items[1..], format, depth) + [CLOSE_BRACKET]))
    ensures |RenderItems(items, format, depth)| ==
            |Render(items[0], format, depth)|
            + (if |items| > 1 then |ItemSeparator(format)| + |RenderItems(items[1..], format, depth)| else 0)
  {
    hide At, SkipSpace, Render, RenderItems, Plain;
    var first := Render(items[0], format, depth);
    var sep := if |items| > 1 then ItemSeparator(format) else [];
    var rest := RenderItems(items[1..], format, depth);
    var q := o + |first|;
    ItemsText(items, format, depth);
    AtSplit(s, o, first, sep + (rest + [CLOSE_BRACKET]));
    AtSplit(s, q, sep, rest + [CLOSE_BRACKET]);
    AtIndex(s, q, sep + (rest + [CLOSE_BRACKET]), 0);
    AtIndex(s, q + |sep|, rest + [CLOSE_BRACKET], 0);
    SkipRun(s, q, 0);
    if |items| > 1 {
      if format {
        AtIndex(s, q, sep, 1);
      }
      SkipRun(s, q + 1, |sep| - 1);
    }
  }

  // The items' text and the closing bracket, regrouped.
  lemma ItemsText(items: seq<Json>, format: bool, depth: nat)
    requires items != []
    requires forall i :: 0 <= i < |items| ==> Plain(items[i])
    ensures var first, rest := Render(items[0], format, depth), RenderItems(items[1..], format, depth);
            var sep := if |items| > 1 then ItemSeparator(format) else [];
            && RenderItems(items, format, depth) + [CLOSE_BRACKET] == first + (sep + (rest + [CLOSE_BRACKET]))
            && |RenderItems(items, format, depth)| == |first| + |sep| + |rest|
            && (if |items| == 1 then rest == [] else |rest| > 0 && rest[0] > 32 && rest[0] != CLOSE_BRACKET)
  {
    hide Render, RenderItems, Cut, CutItems, Nesting, NestingOfItems, ItemSeparator, Plain;
    ItemsShape(items, format, depth);
    ItemsHead(items[1..], format, depth);
    RegroupFour(Render(items[0], format, depth), if |items| > 1 then ItemSeparator(format) else [],
                RenderItems(items[1..], format, depth), [CLOSE_BRACKET]);
  }

  // ---------------------------------------------------------------- objects

  lemma RegroupMember(blanks: seq<Byte>, body: seq<Byte>, comma: seq<Byte>, line: seq<Byte>, others: seq<Byte>,
                      close: seq<Byte>)
    ensures blanks + body + (comma + line) + others + close ==
            blanks + (body + (comma + (line + (others + close))))
  {
  }

  predicate Blank(t: seq<Byte>) {
    forall i :: 0 <= i < |t| ==> t[i] <= 32
  }

  // Blanks and then a byte that is none: skipping goes to that byte.
  lemma SkipBlanks(s: seq<Byte>, o: nat, blanks: seq<Byte>, rest: seq<Byte>)
    requires Blank(blanks) && At(s, o, blanks + rest) && rest != [] && rest[0] > 32
    ensures o + |blanks| < |s| && s[o + |blanks|] == rest[0]
    ensures o <= |s| && SkipSpace(s, o) == o + |blanks|
    ensures At(s, o + |blanks|, rest)
  {
    hide At, SkipSpace;
    AtSplit(s, o, blanks, rest);
    AtIndex(s, o + |blanks|, rest, 0);
    forall k | o <= k < o + |blanks| ensures s[k] <= 32 {
      AtIndex(s, o, blanks, k - o);
    }
    SkipRun(s, o, |blanks|);
  }

  lemma {:induction false} ObjectParses(members: seq<Member>, format: bool, depth: nat, s: seq<Byte>, o: nat, d: nat)
    requires Plain(Obj(members)) && d <= NESTING_LIMIT
    requires At(s, o, Render(Obj(members), format, depth))
    ensures o < |s| && s[o] == OPEN_BRACE
    ensures Expected(ParseObject(s, o, d), CutMembers(members), o + |Render(Obj(members), format, depth)|,
                     d + 1 + NestingOfMembers(members))
    decreases members, 2
  {
    hide At, SkipSpace, ParseObject, ParseMembers, Render, RenderMembers, CutMembers, NestingOfMembers, LineEnd, Indent;
    ObjectLayout(members, format, depth, s, o);
    ObjectStep(s, o, d);
    NoMembers(format, depth + 1);
    if d < NESTING_LIMIT && members != [] {
      var first := o + 1 + |LineEnd(format)|;
      MembersParse(members, format, depth + 1, s, first + |Indent(format, depth + 1)|, first, d + 1);
    }
  }

  // Behind the opening brace: the closing one, or the first member.
  lemma ObjectLayout(members: seq<Member>, format: bool, depth: nat, s: seq<Byte>, o: nat)
    requires Plain(Obj(members))
    requires At(s, o, Render(Obj(members), format, depth))
    ensures o < |s| && s[o] == OPEN_BRACE
    ensures var line, indent := LineEnd(format), Indent(format, depth);
            var body := RenderMembers(members, format, depth + 1);
            && |Render(Obj(members), format, depth)| == 1 + |line| + |body| + |indent| + 1
            && if members == [] then
                 var z := o + 1 + |line| + |indent|;
                 z < |s| && s[z] == CLOSE_BRACE && SkipSpace(s, o + 1) == z
               else
                 var key := o + 1 + |line| + |Indent(format, depth + 1)|;
                 && key < |s| && s[key] == QUOTE && SkipSpace(s, o + 1) == key && SkipSpace(s, key) == key
                 && At(s, o + 1 + |line|, body + (indent + [CLOSE_BRACE]))
  {
    hide At, SkipSpace, Render, RenderMembers, LineEnd, Indent, Blank;
    var line, indent := LineEnd(format), Indent(format, depth);
    var body, close := RenderMembers(members, format, depth + 1), indent + [CLOSE_BRACE];
    ObjectShape(members, format, depth);
    AtSplit(s, o, [OPEN_BRACE], line + (body + close));
    AtIndex(s, o, [OPEN_BRACE], 0);
    if members == [] {
      NoMembers(format, depth + 1);
      RegroupEmpty(line, indent, [CLOSE_BRACE]);
      BlankEnds(format, depth);
      SkipBlanks(s, o + 1, line + indent, [CLOSE_BRACE]);
    } else {
      MembersStart(members, format, depth + 1, s, o + 1, close) by {
        CloseHead(format, depth);
      }
      AtSplit(s, o + 1, line, body + close);
      SkipRun(s, o + 1 + |line| + |Indent(format, depth + 1)|, 0);
    }
  }

  lemma RegroupEmpty(line: seq<Byte>, indent: seq<Byte>, close: seq<Byte>)
    ensures line + ([] + (indent + close)) == (line + indent) + close
  {
  }

  lemma BlankEnds(format: bool, depth: nat)
    ensures Blank(LineEnd(format) + Indent(format, depth))
  {
  }

  lemma CloseHead(format: bool, depth: nat)
    ensures !NumberByte((Indent(format, depth) + [CLOSE_BRACE])[0])
  {
  }

  lemma ObjectShape(members: seq<Member>, format: bool, depth: nat)
    requires Plain(Obj(members))
    ensures Render(Obj(members), format, depth) ==
            [OPEN_BRACE] + (LineEnd(format)
              + (RenderMembers(members, format, depth + 1) + (Indent(format, depth) + [CLOSE_BRACE])))
  {
    var line, body, indent := LineEnd(format), RenderMembers(members, format, depth + 1), Indent(format, depth);
    assert Render(Obj(members), format, depth) == [OPEN_BRACE] + line + body + indent + [CLOSE_BRACE] by {
      hide RenderMembers, LineEnd, Indent;
    }
    hide Render, RenderMembers, LineEnd, Indent, Plain;
    RegroupFive([OPEN_BRACE], line, body, indent, [CLOSE_BRACE]);
  }

  lemma RegroupFive(a: seq<Byte>, b: seq<Byte>, c: seq<Byte>, d: seq<Byte>, e: seq<Byte>)
    ensures a + b + c + d + e == a + (b + (c + (d + e)))
  {
  }

  lemma NoMembers(format: bool, depth: nat)
    ensures RenderMembers([], format, depth) == [] && CutMembers([]) == [] && NestingOfMembers([]) == 0
  {
  }

  // What follows the opening brace decides what ParseObject does.
  lemma ObjectStep(s: seq<Byte>, o: nat, d: nat)
    requires o < |s| && s[o] == OPEN_BRACE
    ensures d >= NESTING_LIMIT ==> ParseObject(s, o, d).Fail?
    ensures var e := SkipSpace(s, o + 1);
            d < NESTING_LIMIT && e < |s| ==>
              ParseObject(s, o, d) == if s[e] == CLOSE_BRACE then Ok([], e + 1) else ParseMembers(s, e, d + 1)
  {
    hide ParseMembers, SkipSpace;
  }

  // A member's text: indentation, then the quoted key, separator and value, then what ends the line.
  lemma MemberShape(m: Member, last: bool, format: bool, depth: nat)
    requires Plain(m.value)
    ensures var t := RenderMember(m, last, format, depth);
            var body := StringText(m.key) + KeySeparator(format) + Render(m.value, format, depth);
            && t == Indent(format, depth) + body + ((if last then [] else [COMMA]) + LineEnd(format))
            && body[0] == QUOTE
            && t[..|Indent(format, depth)|] == Indent(format, depth)
            && t[|Indent(format, depth)|] == QUOTE
  {
    hide Render, EscapeText, Tabs;
  }

  lemma MembersShape(members: seq<Member>, format: bool, depth: nat)
    requires members != []
    requires forall i :: 0 <= i < |members| ==> Plain(members[i].value)
    ensures RenderMembers(members, format, depth) ==
            RenderMember(members[0], |members| == 1, format, depth) + RenderMembers(members[1..], format, depth)
    ensures CutMembers(members) ==
            [Member(CString(members[0].key), Cut(members[0].value))] + CutMembers(members[1..])
    ensures NestingOfMembers(members) == Max(Nesting(members[0].value), NestingOfMembers(members[1..]))
    ensures |members| == 1 ==> CutMembers(members) == [Member(CString(members[0].key), Cut(members[0].value))]
    ensures |members| == 1 ==>
              members[1..] == [] && RenderMembers(members[1..], format, depth) == []
              && CutMembers(members[1..]) == [] && NestingOfMembers(members[1..]) == 0
  {
    hide RenderMember, Cut, CString, Nesting;
  }

  // Where the pieces of the first member stand, and what stands behind it.
  lemma MembersLayout(members: seq<Member>, format: bool, depth: nat, s: seq<Byte>, o: nat, close: seq<Byte>)
    requires members != [] && |close| > 0 && !NumberByte(close[0])
    requires forall i :: 0 <= i < |members| ==> Plain(members[i].value)
    requires At(s, o, RenderMembers(members, format, depth) + close)
    ensures var m := members[0];
            var body := StringText(m.key) + KeySeparator(format) + Render(m.value, format, depth);
            var b := o + |Indent(format, depth)|;
            var q := b + |body|;
            && At(s, o, Indent(format, depth)) && At(s, b, body) && body[0] == QUOTE && Stops(s, q)
            && (|members| == 1 ==>
                  && |RenderMembers(members, format, depth)| == q + |LineEnd(format)| - o
                  && At(s, q, LineEnd(format) + close))
            && (|members| > 1 ==>
                  && |RenderMembers(members, format, depth)| ==
                       q + 1 + |LineEnd(format)| + |RenderMembers(members[1..], format, depth)| - o
                  && s[q] == COMMA && At(s, q + 1, LineEnd(format) + (RenderMembers(members[1..], format, depth) + close)))
  {
    hide At, Render, StringText, RenderMembers, Plain, LineEnd, Indent, KeySeparator, NumberByte;
    var m := members[0];
    var last := |members| == 1;
    var blanks, line := Indent(format, depth), LineEnd(format);
    var body := StringText(m.key) + KeySeparator(format) + Render(m.value, format, depth);
    var comma := if last then [] else [COMMA];
    var others := RenderMembers(members[1..], format, depth);
    var tail := comma + (line + (others + close));
    MembersText(members, format, depth, close);
    TailHead(last, format, others, close);
    AtSplit(s, o, blanks, body + tail);
    var b := o + |blanks|;
    AtSplit(s, b, body, tail);
    AtIndex(s, b + |body|, tail, 0);
    AtSplit(s, b + |body|, comma, line + (others + close));
  }

  // The members' text and what closes it, regrouped.
  lemma MembersText(members: seq<Member>, format: bool, depth: nat, close: seq<Byte>)
    requires members != []
    requires forall i :: 0 <= i < |members| ==> Plain(members[i].value)
    ensures var m := members[0];
            var body := StringText(m.key) + KeySeparator(format) + Render(m.value, format, depth);
            var comma := if |members| == 1 then [] else [COMMA];
            var others := RenderMembers(members[1..], format, depth);
            && RenderMembers(members, format, depth) + close
               == Indent(format, depth) + (body + (comma + (LineEnd(format) + (others + close))))
            && |RenderMembers(members, format, depth)|
               == |Indent(format, depth)| + |body| + |comma| + |LineEnd(format)| + |others|
            && |body| > 0 && body[0] == QUOTE && (|members| == 1 ==> others == [])
  {
    hide Render, RenderMember, RenderMembers, StringText, CutMembers, Cut, CString, NestingOfMembers, Nesting, LineEnd,
         Indent, KeySeparator, Plain;
    var m := members[0];
    MembersShape(members, format, depth);
    MemberShape(m, |members| == 1, format, depth);
    RegroupMember(Indent(format, depth), StringText(m.key) + KeySeparator(format) + Render(m.value, format, depth),
                  if |members| == 1 then [] else [COMMA], LineEnd(format), RenderMembers(members[1..], format, depth), close);
  }

  // What follows a value is no part of a number.
  lemma TailHead(last: bool, format: bool, others: seq<Byte>, close: seq<Byte>)
    requires |close| > 0 && !NumberByte(close[0]) && (last ==> others == [])
    ensures var tail := (if last then [] else [COMMA]) + (LineEnd(format) + (others + close));
            && |tail| > 0 && !NumberByte(tail[0])
            && (last ==> others + close == close) && (!last ==> tail[0] == COMMA)
  {
  }

  // The members' text opens with the indentation and the first key's quote.
  lemma MembersStart(members: seq<Member>, format: bool, depth: nat, s: seq<Byte>, o: nat, close: seq<Byte>)
    requires members != [] && |close| > 0 && !NumberByte(close[0])
    requires forall i :: 0 <= i < |members| ==> Plain(members[i].value)
    requires At(s, o, LineEnd(format) + (RenderMembers(members, format, depth) + close))
    ensures var q := o + |LineEnd(format)| + |Indent(format, depth)|;
            q < |s| && s[q] == QUOTE && o <= |s| && SkipSpace(s, o) == q
  {
    hide At, SkipSpace, Render, RenderMembers, StringText, Plain;
    var line, indent := LineEnd(format), Indent(format, depth);
    var first := o + |line|;
    AtSplit(s, o, line, RenderMembers(members, format, depth) + close);
    MembersLayout(members, format, depth, s, first, close);
    var m := members[0];
    AtIndex(s, first + |indent|, StringText(m.key) + KeySeparator(format) + Render(m.value, format, depth), 0);
    forall k | o <= k < first + |indent| ensures s[k] <= 32 {
      if k < first {
        AtIndex(s, o, line, k - o);
      } else {
        AtIndex(s, first, indent, k - first);
      }
    }
    SkipRun(s, o, |line| + |indent|);
  }

  // What a key, the colon and the value make of ParseMember.
  lemma MemberStep(s: seq<Byte>, e: nat, o: nat, c: nat, b: nat, d: nat, key: seq<Byte>)
    requires 0 < e < |s| && SkipSpace(s, e) == o && o < |s|
    requires ParseString(s, o) == Ok(key, c) && c < |s| && s[c] == COLON && SkipSpace(s, c) == c
    requires SkipSpace(s, c + 1) == b && b <= |s|
    ensures ParseMember(s, e, d) == match ParseValue(s, b, d) {
              case Fail(f) => Fail(f)
              case Ok(v, q) => Ok(Member(key, v), q)
            }
  {
    hide ParseValue, ParseString, SkipSpace;
  }

  lemma {:induction false} MemberParses(m: Member, format: bool, depth: nat, s: seq<Byte>, e: nat, o: nat, d: nat)
    requires Plain(m.value) && d <= NESTING_LIMIT
    requires 0 < e < |s| && SkipSpace(s, e) == o
    requires At(s, o, StringText(m.key) + KeySeparator(format) + Render(m.value, format, depth))
    requires Stops(s, o + |StringText(m.key)| + |KeySeparator(format)| + |Render(m.value, format, depth)|)
    ensures Expected(ParseMember(s, e, d), Member(CString(m.key), Cut(m.value)),
                     o + |StringText(m.key)| + |KeySeparator(format)| + |Render(m.value, format, depth)|,
                     d + Nesting(m.value))
    decreases m, 4
  {
    hide At, SkipSpace, ParseValue, ParseMember, ParseString, Render, StringText, Cut, CString, Nesting, Plain;
    var key, sep, value := StringText(m.key), KeySeparator(format), Render(m.value, format, depth);
    assert key + sep + value == key + (sep + value);
    AtSplit(s, o, key, sep + value);
    var c := o + |key|;
    AtSplit(s, c, sep, value);
    StringParses(m.key, s, o);
    AtIndex(s, c, sep, 0);
    SkipRun(s, c, 0);
    RenderHead(m.value, format, depth);
    AtIndex(s, c + |sep|, value, 0);
    if format {
      AtIndex(s, c, sep, 1);
    }
    SkipRun(s, c + 1, |sep| - 1);
    ValueParses(m.value, format, depth, s, c + |sep|, d);
    MemberStep(s, e, o, c, c + |sep|, d, CString(m.key));
  }

  // What one member and the byte behind it make of ParseMembers.
  lemma MembersStep(s: seq<Byte>, e: nat, d: nat, z: nat)
    requires 0 < e <= |s|
    ensures ParseMember(s, e, d).Fail? ==> ParseMembers(s, e, d).Fail?
    ensures ParseMember(s, e, d).Ok? ==>
              var m, q := ParseMember(s, e, d).value, ParseMember(s, e, d).offset;
              && (z < |s| && s[z] == CLOSE_BRACE && SkipSpace(s, q) == z ==>
                    ParseMembers(s, e, d) == Ok([m], z + 1))
              && (z < |s| && s[z] == COMMA && SkipSpace(s, q) == z ==>
                    ParseMembers(s, e, d) == match ParseMembers(s, z + 1, d) {
                      case Fail(f) => Fail(f)
                      case Ok(rest, end) => Ok([m] + rest, end)
                    })
  {
    hide ParseMember, SkipSpace;
  }

  lemma {:induction false} MembersParse(members: seq<Member>, format: bool, depth: nat, s: seq<Byte>, e: nat, o: nat, d: nat)
    requires members != [] && d <= NESTING_LIMIT && depth > 0
    requires forall i :: 0 <= i < |members| ==> Plain(members[i].value)
    requires 0 < e < |s| && SkipSpace(s, e) == o + |Indent(format, depth)|
    requires At(s, o, RenderMembers(members, format, depth) + (Indent(format, depth - 1) + [CLOSE_BRACE]))
    ensures Expected(ParseMembers(s, e, d), CutMembers(members),
                     o + |RenderMembers(members, format, depth)| + |Indent(format, depth - 1)| + 1,
                     d + NestingOfMembers(members))
    decreases members, 1
  {
    hide At, SkipSpace, ParseMember, ParseMembers, Render, StringText, RenderMember, RenderMembers, Cut, CString,
         CutMembers, Nesting, NestingOfMembers, Tabs, Plain, KeySeparator, LineEnd, Stops;
    var m := members[0];
    var line, indent := LineEnd(format), Indent(format, depth - 1);
    var close := indent + [CLOSE_BRACE];
    var b := o + |Indent(format, depth)|;
    var q := b + |StringText(m.key) + KeySeparator(format) + Render(m.value, format, depth)|;
    MembersShape(members, format, depth);
    MembersLayout(members, format, depth, s, o, close);
    MembersNext(members, format, depth, s, o);
    MemberParses(m, format, depth, s, e, b, d);
    if |members| == 1 {
      MembersStep(s, e, d, q + |line| + |indent|);
    } else {
      MembersStep(s, e, d, q);
      MembersParse(members[1..], format, depth, s, q + 1, q + 1 + |line|, d);
    }
  }

  // Behind the first member: the closing brace, or a comma and the other members.
  lemma MembersNext(members: seq<Member>, format: bool, depth: nat, s: seq<Byte>, o: nat)
    requires members != [] && depth > 0
    requires forall i :: 0 <= i < |members| ==> Plain(members[i].value)
    requires At(s, o, RenderMembers(members, format, depth) + (Indent(format, depth - 1) + [CLOSE_BRACE]))
    ensures var m := members[0];
            var line, indent := LineEnd(format), Indent(format, depth - 1);
            var q := o + |Indent(format, depth)| + |StringText(m.key) + KeySeparator(format) + Render(m.value, format, depth)|;
            q < |s| &&
            if |members| == 1 then
              var z := q + |line| + |indent|;
              z < |s| && s[z] == CLOSE_BRACE && SkipSpace(s, q) == z
            else
              var next := q + 1 + |line|;
              && s[q] == COMMA && SkipSpace(s, q) == q && q + 1 < |s|
              && SkipSpace(s, q + 1) == next + |Indent(format, depth)|
              && At(s, next, RenderMembers(members[1..], format, depth) + (indent + [CLOSE_BRACE]))
  {
    hide At, SkipSpace, Render, StringText, RenderMembers, Tabs, Plain, KeySeparator, Stops;
    var m := members[0];
    var line, indent := LineEnd(format), Indent(format, depth - 1);
    var close := indent + [CLOSE_BRACE];
    var q := o + |Indent(format, depth)| + |StringText(m.key) + KeySeparator(format) + Render(m.value, format, depth)|;
    MembersLayout(members, format, depth, s, o, close);
    if |members| == 1 {
      assert line + close == (line + indent) + [CLOSE_BRACE];
      SkipBlanks(s, q, line + indent, [CLOSE_BRACE]);
    } else {
      AtSplit(s, q + 1, line, RenderMembers(members[1..], format, depth) + close);
      MembersStart(members[1..], format, depth, s, q + 1, close);
      SkipRun(s, q, 0);
    }
  }

  // ---------------------------------------------------------------- documents

  lemma {:induction false} RenderHasNoNul(v: Json, format: bool, depth: nat)
    requires Plain(v)
    ensures 0 !in Render(v, format, depth)
    decreases v, 1
  {
    match v
    case Str(text) => EscapeTextHasNoNul(text);
    case Arr(items) => ItemsHaveNoNul(items, format, depth + 1);
    case Obj(members) => MembersHaveNoNul(members, format, depth + 1);
    case _ =>
  }

  lemma {:induction false} EscapeTextHasNoNul(t: seq<Byte>)
    ensures 0 !in EscapeText(t) && 0 !in StringText(t)
  {
    if t != [] && t[0] != 0 {
      EscapeTextHasNoNul(t[1..]);
    }
  }

  lemma {:induction false} ItemsHaveNoNul(items: seq<Json>, format: bool, depth: nat)
    requires forall i :: 0 <= i < |items| ==> Plain(items[i])
    ensures 0 !in RenderItems(items, format, depth)
    decreases items, 0
  {
    if items != [] {
      RenderHasNoNul(items[0], format, depth);
      ItemsHaveNoNul(items[1..], format, depth);
    }
  }

  lemma {:induction false} MembersHaveNoNul(members: seq<Member>, format: bool, depth: nat)
    requires forall i :: 0 <= i < |members| ==> Plain(members[i].value)
    ensures 0 !in RenderMembers(members, format, depth)
    decreases members, 0
  {
    if members != [] {
      var m := members[0];
      EscapeTextHasNoNul(m.key);
      RenderHasNoNul(m.value, format, depth);
      MembersHaveNoNul(members[1..], format, depth);
    }
  }

  // The round trip. Parsing a printed value succeeds if and only if its nesting is within the limit; it
  // then returns the value (with every string ended at its first NUL) and stops right behind the text.
  lemma PrintThenParse(v: Json, format: bool)
    requires Plain(v)
    ensures Parse(Render(v, format, 0)).Ok? <==> Nesting(v) <= NESTING_LIMIT
    ensures Nesting(v) <= NESTING_LIMIT ==>
              Parse(Render(v, format, 0)) == Ok(Cut(v), |Render(v, format, 0)|)
  {
    hide SkipSpace, ParseValue, Render, Cut, Nesting, Plain, CString, At, Parse, Stops;
    var t := Render(v, format, 0);
    RenderHasNoNul(v, format, 0);
    RenderHead(v, format, 0);
    DocumentStart(t);
    ValueParses(v, format, 0, t + [0], 0, 0);
  }

  // A text that opens with a printable ASCII byte has neither blanks nor a byte order mark to pass over.
  lemma DocumentStart(t: seq<Byte>)
    requires t != [] && 32 < t[0] < 0x80
    ensures At(t + [0], 0, t) && Stops(t + [0], |t|)
    ensures 0 !in t ==> Parse(t) == ParseValue(t + [0], 0, 0)
  {
    hide SkipSpace, ParseValue, CString;
    var s := t + [0];
    assert s[..|t|] == t && s[0] == t[0];
    SkipRun(s, 0, 0);
    assert |s| >= 3 ==> s[0..3][0] == s[0];
  }

  // For values C callers can build (no NUL inside a string) the very same value comes back.
  lemma PrintThenParseExactly(v: Json, format: bool)
    requires Plain(v)
    ensures Parse(Render(v, format, 0)) == Ok(v, |Render(v, format, 0)|) <==>
            Nesting(v) <= NESTING_LIMIT && NulFree(v)
  {
    PrintThenParse(v, format);
    CutIsIdentity(v);
  }
}
