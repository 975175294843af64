/**
 * The parser (routerd/3rdparty/cjson/cJSON.c:307-408, 819-946, 1085-1230, 1363-1415, 1492-1587, 1652-1767)
 * as functions from a buffer and an offset to a value and the next offset. A failure carries the offset
 * at which the original leaves its buffer, which is what it reports as the error position.
 */
module JsonGrammar {
  import opened Bytes
  import opened JsonText
  import Utf

  datatype Result<+T> = Ok(value: T, offset: nat) | Fail(offset: nat)

  // ---------------------------------------------------------------- whitespace

  // The first offset from o on that holds no byte <= 32 (or the end).
  function SpaceEnd(s: seq<Byte>, o: nat): (r: nat)
    requires o <= |s|
    ensures o <= r <= |s|
    ensures r < |s| ==> s[r] > 32
    ensures forall k :: o <= k < r ==> s[k] <= 32
    decreases |s| - o
  {
    if o < |s| && s[o] <= 32 then SpaceEnd(s, o + 1) else o
  }

  // Skipping steps back onto the last byte when it runs into the end.
  function SkipSpace(s: seq<Byte>, o: nat): (r: nat)
    requires o <= |s|
    ensures o <= r <= |s|
    ensures o < |s| ==> r < |s|
  {
    if o == |s| then o
    else if SpaceEnd(s, o) == |s| then |s| - 1
    else SpaceEnd(s, o)
  }

  // ---------------------------------------------------------------- numbers

  predicate IsDigit(b: Byte) {
    ZERO <= b <= 57
  }

  predicate IsSign(b: Byte) {
    b == 43 || b == MINUS
  }

  predicate IsExponent(b: Byte) {
    b == 101 || b == 69
  }

  predicate NumberByte(b: Byte) {
    IsDigit(b) || IsSign(b) || IsExponent(b) || b == 46
  }

  function NumberSpan(s: seq<Byte>, o: nat): (r: nat)
    requires o <= |s|
    ensures o <= r <= |s|
    ensures forall k :: o <= k < r ==> NumberByte(s[k])
    ensures r < |s| ==> !NumberByte(s[r])
    decreases |s| - o
  {
    if o < |s| && NumberByte(s[o]) then NumberSpan(s, o + 1) else o
  }

  function DigitsEnd(t: seq<Byte>, i: nat): (r: nat)
    requires i <= |t|
    ensures i <= r <= |t|
    ensures forall k :: i <= k < r ==> IsDigit(t[k])
    ensures r < |t| ==> !IsDigit(t[r])
    decreases |t| - i
  {
    if i < |t| && IsDigit(t[i]) then DigitsEnd(t, i + 1) else i
  }

  function SignEnd(t: seq<Byte>, i: nat): (r: nat)
    requires i <= |t|
    ensures i <= r <= |t|
  {
    if i < |t| && IsSign(t[i]) then i + 1 else i
  }

  // How much of t the C library's strtod converts: sign, digits with an optional point, optional
  // exponent; 0 when there is no digit before the exponent.
  function StrtodLength(t: seq<Byte>): (r: nat)
    ensures r <= |t|
  {
    var start := SignEnd(t, 0);
    var whole := DigitsEnd(t, start);
    var fraction := if whole < |t| && t[whole] == 46 then DigitsEnd(t, whole + 1) else whole;
    if whole == start && fraction <= whole + 1 then 0
    else if fraction < |t| && IsExponent(t[fraction]) then
      var e := SignEnd(t, fraction + 1);
      if DigitsEnd(t, e) > e then DigitsEnd(t, e) else fraction
    else fraction
  }

  function DigitsValue(t: seq<Byte>): (n: nat)
    requires forall i :: 0 <= i < |t| ==> IsDigit(t[i])
  {
    if t == [] then 0
    else
      var last := t[|t| - 1];
      assert IsDigit(last);
      DigitsValue(t[..|t| - 1]) * 10 + (last - ZERO)
  }

  // An integer lexeme in the range of C int is its value; any other lexeme is kept as text.
  function NumberValue(t: seq<Byte>): (v: Json) {
    var start := SignEnd(t, 0);
    if DigitsEnd(t, start) < |t| then Decimal(t)
    else
      var magnitude := DigitsValue(t[start..]);
      var n: int := if start == 1 && t[0] == MINUS then 0 - magnitude as int else magnitude as int;
      if INT_MIN <= n <= INT_MAX then Int(n) else Decimal(t)
  }

  function ParseNumber(s: seq<Byte>, o: nat): (r: Result<Json>)
    requires o <= |s|
    ensures r.Ok? ==> o < r.offset <= |s|
    ensures r.Fail? ==> r.offset == o
  {
    var t := s[o..NumberSpan(s, o)];
    var length := StrtodLength(t);
    if length == 0 then Fail(o) else Ok(NumberValue(t[..length]), o + length)
  }

  // ---------------------------------------------------------------- strings

  // First pass: the offset of the closing quote, taking a backslash and the byte after it together.
  function StringEnd(s: seq<Byte>, p: nat): (r: Option<nat>)
    requires p <= |s|
    ensures r.Some? ==> p <= r.value < |s| && s[r.value] == QUOTE
    decreases |s| - p
  {
    if p == |s| then None
    else if s[p] == QUOTE then Some(p)
    else if s[p] != BACKSLASH then StringEnd(s, p + 1)
    else if p + 1 == |s| then None
    else StringEnd(s, p + 2)
  }

  datatype Unescaped = Bytes(text: seq<Byte>) | Bad(at: nat)

  // The byte written for a two-character escape.
  function SimpleEscape(b: Byte): (r: Option<Byte>) {
    if b == 98 then Some(8)
    else if b == 102 then Some(12)
    else if b == 110 then Some(10)
    else if b == 114 then Some(13)
    else if b == 116 then Some(9)
    else if b == QUOTE || b == BACKSLASH || b == 47 then Some(b)
    else None
  }

  function Prepend(t: seq<Byte>, u: Unescaped): Unescaped {
    match u
    case Bytes(rest) => Bytes(t + rest)
    case Bad(at) => Bad(at)
  }

  datatype Piece = Broken | Piece(bytes: seq<Byte>, length: nat)

  // What the second pass makes of the byte or escape at p: the bytes it writes and the input it takes.
  function NextPiece(s: seq<Byte>, p: nat, end: nat): (r: Piece)
    requires p < end < |s|
    ensures r.Piece? ==> 1 <= r.length && p + r.length <= end + 1
    ensures r.Piece? ==> |r.bytes| <= (r.length + 1) / 2
    ensures r.Piece? ==> (r.length == 1 && s[p] != BACKSLASH) || (r.length % 2 == 0 && s[p] == BACKSLASH)
    ensures r.Piece? && r.length > 2 ==> p + r.length <= end
  {
    if s[p] != BACKSLASH then Piece([s[p]], 1)
    else if s[p + 1] == 117 then
      match Utf.Utf16Escape(s, p, end)
      case Rejected => Broken
      case Accepted(length, cp) => Piece(Utf.Utf8(cp), length)
    else
      match SimpleEscape(s[p + 1])
      case None => Broken
      case Some(b) => Piece([b], 2)
  }

  // Second pass: the contents of the literal s[p..end]. It may read the closing quote, and step one past
  // it, when a malformed \u has swallowed one half of an escape.
  function Unescape(s: seq<Byte>, p: nat, end: nat): (r: Unescaped)
    requires end < |s| && p <= end + 1
    ensures r.Bad? ==> p <= r.at < end
    decreases end + 1 - p
  {
    if p >= end then Bytes([])
    else
      match NextPiece(s, p, end)
      case Broken => Bad(p)
      case Piece(bytes, length) => Prepend(bytes, Unescape(s, p + length, end))
  }

  function ParseString(s: seq<Byte>, o: nat): (r: Result<seq<Byte>>)
    requires o < |s|
    ensures r.Ok? ==> o < r.offset <= |s|
    ensures r.Fail? ==> r.offset <= |s|
  {
    if s[o] != QUOTE then Fail(o + 1)
    else
      match StringEnd(s, o + 1)
      case None => Fail(o + 1)
      case Some(end) =>
        match Unescape(s, o + 1, end)
        case Bad(at) => Fail(at)
        case Bytes(text) => Ok(text, end + 1)
  }

  // ---------------------------------------------------------------- values

  function AsString(r: Result<seq<Byte>>): Result<Json> {
    match r
    case Fail(f) => Fail(f)
    case Ok(text, q) => Ok(Str(text), q)
  }

  function AsArray(r: Result<seq<Json>>): Result<Json> {
    match r
    case Fail(f) => Fail(f)
    case Ok(items, q) => Ok(Arr(items), q)
  }

  function AsObject(r: Result<seq<Member>>): Result<Json> {
    match r
    case Fail(f) => Fail(f)
    case Ok(members, q) => Ok(Obj(members), q)
  }

  function ParseValue(s: seq<Byte>, o: nat, depth: nat): (r: Result<Json>)
    requires o <= |s|
    ensures r.Ok? ==> o < r.offset <= |s|
    ensures r.Fail? ==> r.offset <= |s|
    decreases |s| - o, 3
  {
    if At(s, o, NULL_TEXT) then Ok(Null, o + 4)
    else if At(s, o, FALSE_TEXT) then Ok(Bool(false), o + 5)
    else if At(s, o, TRUE_TEXT) then Ok(Bool(true), o + 4)
    else if o == |s| then Fail(o)
    else if s[o] == QUOTE then AsString(ParseString(s, o))
    else if s[o] == MINUS || IsDigit(s[o]) then ParseNumber(s, o)
    else if s[o] == OPEN_BRACKET then AsArray(ParseArray(s, o, depth))
    else if s[o] == OPEN_BRACE then AsObject(ParseObject(s, o, depth))
    else Fail(o)
  }

  function ParseArray(s: seq<Byte>, o: nat, depth: nat): (r: Result<seq<Json>>)
    requires o < |s| && s[o] == OPEN_BRACKET
    ensures r.Ok? ==> o < r.offset <= |s|
    ensures r.Fail? ==> r.offset <= |s|
    decreases |s| - o, 2
  {
    if depth >= NESTING_LIMIT then Fail(o)
    else
      var e := SkipSpace(s, o + 1);
      if e == |s| then Fail(e - 1)
      else if s[e] == CLOSE_BRACKET then Ok([], e + 1)
      else ParseItems(s, e, depth + 1)
  }

  // The items from offset e (just behind the bracket or a comma) to the closing bracket.
  function ParseItems(s: seq<Byte>, e: nat, depth: nat): (r: Result<seq<Json>>)
    requires e <= |s|
    ensures r.Ok? ==> e < r.offset <= |s|
    ensures r.Fail? ==> r.offset <= |s|
    decreases |s| - e, 4
  {
    match ParseValue(s, SkipSpace(s, e), depth)
    case Fail(f) => Fail(f)
    case Ok(v, after) =>
      var q := SkipSpace(s, after);
      if q < |s| && s[q] == COMMA then
        match ParseItems(s, q + 1, depth)
        case Fail(f) => Fail(f)
        case Ok(rest, end) => Ok([v] + rest, end)
      else if q < |s| && s[q] == CLOSE_BRACKET then Ok([v], q + 1)
      else Fail(q)
  }

  function ParseObject(s: seq<Byte>, o: nat, depth: nat): (r: Result<seq<Member>>)
    requires o < |s| && s[o] == OPEN_BRACE
    ensures r.Ok? ==> o < r.offset <= |s|
    ensures r.Fail? ==> r.offset <= |s|
    decreases |s| - o, 2
  {
    if depth >= NESTING_LIMIT then Fail(o)
    else
      var e := SkipSpace(s, o + 1);
      if e == |s| then Fail(e - 1)
      else if s[e] == CLOSE_BRACE then Ok([], e + 1)
      else ParseMembers(s, e, depth + 1)
  }

  // One `"key": value` from offset e on.
  function ParseMember(s: seq<Byte>, e: nat, depth: nat): (r: Result<Member>)
    requires 0 < e <= |s|
    ensures r.Ok? ==> e < r.offset <= |s|
    ensures r.Fail? ==> r.offset <= |s|
    decreases |s| - e, 4
  {
    if e == |s| then Fail(e - 1)
    else
      match ParseString(s, SkipSpace(s, e))
      case Fail(f) => Fail(f)
      case Ok(key, after) =>
        var c := SkipSpace(s, after);
        if c == |s| || s[c] != COLON then Fail(c)
        else
          match ParseValue(s, SkipSpace(s, c + 1), depth)
          case Fail(f) => Fail(f)
          case Ok(v, q) => Ok(Member(key, v), q)
  }

  function ParseMembers(s: seq<Byte>, e: nat, depth: nat): (r: Result<seq<Member>>)
    requires 0 < e <= |s|
    ensures r.Ok? ==> e < r.offset <= |s|
    ensures r.Fail? ==> r.offset <= |s|
    decreases |s| - e, 5
  {
    match ParseMember(s, e, depth)
    case Fail(f) => Fail(f)
    case Ok(m, after) =>
      var q := SkipSpace(s, after);
      if q < |s| && s[q] == COMMA then
        match ParseMembers(s, q + 1, depth)
        case Fail(f) => Fail(f)
        case Ok(rest, end) => Ok([m] + rest, end)
      else if q < |s| && s[q] == CLOSE_BRACE then Ok([m], q + 1)
      else Fail(q)
  }

  // ---------------------------------------------------------------- documents

  const BYTE_ORDER_MARK: seq<Byte> := [0xEF, 0xBB, 0xBF]

  function AfterByteOrderMark(s: seq<Byte>): (o: nat)
    ensures o <= |s|
  {
    if |s| > 4 && At(s, 0, BYTE_ORDER_MARK) then 3 else 0
  }

  // cJSON_ParseWithLengthOpts: a document in a buffer of any length.
  function ParseDocument(s: seq<Byte>, requireNul: bool): (r: Result<Json>)
    ensures r.offset <= |s|
  {
    if s == [] then Fail(0)
    else
      match ParseValue(s, SkipSpace(s, AfterByteOrderMark(s)), 0)
      case Fail(f) => Fail(f)
      case Ok(v, after) =>
        if !requireNul then Ok(v, after)
        else
          var q := SkipSpace(s, after);
          if q == |s| || s[q] != 0 then Fail(q) else Ok(v, q)
  }

  // cJSON_Parse: a C string, its terminator included in the buffer.
  function Parse(t: seq<Byte>): (r: Result<Json>) {
    ParseDocument(CString(t) + [0], false)
  }
}
