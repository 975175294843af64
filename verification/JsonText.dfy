/**
 * JSON values and the text the printer gives them
 * (routerd/3rdparty/cjson/cJSON.c:591-658, 949-1068, 1418-1489, 1590-1649, 1770-1881),
 * as one function of the value, the format flag and the nesting depth.
 */
module JsonText {
  import opened Bytes

  datatype Json =
    | Null
    | Bool(b: bool)
    | Int(n: CInt)
    | Decimal(lexeme: seq<Byte>)   // any other number: its text, the double is not interpreted
    | Str(text: seq<Byte>)
    | Arr(items: seq<Json>)
    | Obj(members: seq<Member>)

  datatype Member = Member(key: seq<Byte>, value: Json)

  const NESTING_LIMIT: nat := 1000

  const QUOTE: Byte := 34
  const BACKSLASH: Byte := 92
  const OPEN_BRACKET: Byte := 91
  const CLOSE_BRACKET: Byte := 93
  const OPEN_BRACE: Byte := 123
  const CLOSE_BRACE: Byte := 125
  const COMMA: Byte := 44
  const COLON: Byte := 58
  const SPACE: Byte := 32
  const TAB: Byte := 9
  const NEWLINE: Byte := 10
  const MINUS: Byte := 45
  const ZERO: Byte := 48

  const NULL_TEXT: seq<Byte> := [110, 117, 108, 108]
  const FALSE_TEXT: seq<Byte> := [102, 97, 108, 115, 101]
  const TRUE_TEXT: seq<Byte> := [116, 114, 117, 101]

  // ---------------------------------------------------------------- values

  // No number whose printed form depends on floating-point formatting.
  predicate Plain(v: Json) {
    match v
    case Decimal(_) => false
    case Arr(items) => forall i :: 0 <= i < |items| ==> Plain(items[i])
    case Obj(members) => forall i :: 0 <= i < |members| ==> Plain(members[i].value)
    case _ => true
  }

  function Max(a: nat, b: nat): nat {
    if a < b then b else a
  }

  // How many containers deep the value goes.
  function Nesting(v: Json): nat
    decreases v, 1
  {
    match v
    case Arr(items) => 1 + NestingOfItems(items)
    case Obj(members) => 1 + NestingOfMembers(members)
    case _ => 0
  }

  function NestingOfItems(items: seq<Json>): nat
    decreases items, 0
  {
    if items == [] then 0 else Max(Nesting(items[0]), NestingOfItems(items[1..]))
  }

  function NestingOfMembers(members: seq<Member>): nat
    decreases members, 0
  {
    if members == [] then 0 else Max(Nesting(members[0].value), NestingOfMembers(members[1..]))
  }

  // The value as C callers see it: every string and key ends at its first NUL.
  function Cut(v: Json): (c: Json)
    decreases v, 1
  {
    match v
    case Str(text) => Str(CString(text))
    case Arr(items) => Arr(CutItems(items))
    case Obj(members) => Obj(CutMembers(members))
    case _ => v
  }

  function CutItems(items: seq<Json>): (c: seq<Json>)
    ensures |c| == |items|
    decreases items, 0
  {
    if items == [] then [] else [Cut(items[0])] + CutItems(items[1..])
  }

  function CutMembers(members: seq<Member>): (c: seq<Member>)
    ensures |c| == |members|
    decreases members, 0
  {
    if members == [] then []
    else [Member(CString(members[0].key), Cut(members[0].value))] + CutMembers(members[1..])
  }

  predicate NulFree(v: Json) {
    match v
    case Str(text) => 0 !in text
    case Arr(items) => forall i :: 0 <= i < |items| ==> NulFree(items[i])
    case Obj(members) => forall i :: 0 <= i < |members| ==> 0 !in members[i].key && NulFree(members[i].value)
    case _ => true
  }

  // Cutting changes nothing exactly when no string holds a NUL.
  lemma {:induction false} CutIsIdentity(v: Json)
    ensures Cut(v) == v <==> NulFree(v)
    decreases v, 1
  {
    match v
    case Arr(items) => CutItemsIsIdentity(items);
    case Obj(members) => CutMembersIsIdentity(members);
    case _ =>
  }

  lemma {:induction false} CutItemsIsIdentity(items: seq<Json>)
    ensures CutItems(items) == items <==> forall i :: 0 <= i < |items| ==> NulFree(items[i])
    decreases items, 0
  {
    if items != [] {
      CutIsIdentity(items[0]);
      CutItemsIsIdentity(items[1..]);
      assert items == [items[0]] + items[1..];
      assert CutItems(items)[1..] == CutItems(items[1..]);
    }
  }

  lemma {:induction false} CutMembersIsIdentity(members: seq<Member>)
    ensures CutMembers(members) == members <==>
            forall i :: 0 <= i < |members| ==> 0 !in members[i].key && NulFree(members[i].value)
    decreases members, 0
  {
    if members != [] {
      CutIsIdentity(members[0].value);
      CutMembersIsIdentity(members[1..]);
      assert members == [members[0]] + members[1..];
      assert CutMembers(members)[1..] == CutMembers(members[1..]);
    }
  }

  // ---------------------------------------------------------------- numbers

  function Digits(n: nat): (t: seq<Byte>)
    ensures |t| > 0
    ensures forall i :: 0 <= i < |t| ==> ZERO <= t[i] <= 57
  {
    if n < 10 then [ZERO + n] else Digits(n / 10) + [ZERO + n % 10]
  }

  // printf("%d")
  function DecimalText(n: int): (t: seq<Byte>)
    ensures |t| > 0
  {
    if n < 0 then [MINUS] + Digits(-n) else Digits(n)
  }

  // ---------------------------------------------------------------- strings

  function HexDigit(n: int): Byte
    requires 0 <= n < 16
  {
    if n < 10 then ZERO + n else 87 + n
  }

  // What the printer writes for one byte of a string.
  function EscapeByte(b: Byte): (t: seq<Byte>)
    ensures 1 <= |t| <= 6
  {
    if b == QUOTE then [BACKSLASH, QUOTE]
    else if b == BACKSLASH then [BACKSLASH, BACKSLASH]
    else if b == 8 then [BACKSLASH, 98]
    else if b == 12 then [BACKSLASH, 102]
    else if b == NEWLINE then [BACKSLASH, 110]
    else if b == 13 then [BACKSLASH, 114]
    else if b == TAB then [BACKSLASH, 116]
    else if b < 32 then [BACKSLASH, 117, ZERO, ZERO, HexDigit(b / 16), HexDigit(b % 16)]
    else [b]
  }

  // The escaped form of a C string: it stops at the first NUL.
  function EscapeText(t: seq<Byte>): (e: seq<Byte>) {
    if t == [] || t[0] == 0 then [] else EscapeByte(t[0]) + EscapeText(t[1..])
  }

  function StringText(t: seq<Byte>): (e: seq<Byte>) {
    [QUOTE] + EscapeText(t) + [QUOTE]
  }

  // ---------------------------------------------------------------- values as text

  function Tabs(n: nat): (t: seq<Byte>)
    ensures |t| == n
    ensures forall i :: 0 <= i < n ==> t[i] == TAB
  {
    seq(n, _ => TAB)
  }

  function ItemSeparator(format: bool): seq<Byte> {
    if format then [COMMA, SPACE] else [COMMA]
  }

  function KeySeparator(format: bool): seq<Byte> {
    if format then [COLON, TAB] else [COLON]
  }

  function LineEnd(format: bool): seq<Byte> {
    if format then [NEWLINE] else []
  }

  function Indent(format: bool, depth: nat): seq<Byte> {
    if format then Tabs(depth) else []
  }

  // The text of a value printed at nesting depth `depth`.
  function Render(v: Json, format: bool, depth: nat): (t: seq<Byte>)
    requires Plain(v)
    ensures |t| > 0
    decreases v, 1
  {
    match v
    case Null => NULL_TEXT
    case Bool(b) => if b then TRUE_TEXT else FALSE_TEXT
    case Int(n) => DecimalText(n)
    case Str(text) => StringText(text)
    case Arr(items) => [OPEN_BRACKET] + RenderItems(items, format, depth + 1) + [CLOSE_BRACKET]
    case Obj(members) =>
      [OPEN_BRACE] + LineEnd(format) + RenderMembers(members, format, depth + 1)
      + Indent(format, depth) + [CLOSE_BRACE]
  }

  function RenderItems(items: seq<Json>, format: bool, depth: nat): (t: seq<Byte>)
    requires forall i :: 0 <= i < |items| ==> Plain(items[i])
    decreases items, 0
  {
    if items == [] then []
    else
      Render(items[0], format, depth)
      + (if |items| > 1 then ItemSeparator(format) else [])
      + RenderItems(items[1..], format, depth)
  }

  function RenderMember(m: Member, last: bool, format: bool, depth: nat): (t: seq<Byte>)
    requires Plain(m.value)
    decreases m, 2
  {
    Indent(format, depth) + StringText(m.key) + KeySeparator(format) + Render(m.value, format, depth)
    + (if last then [] else [COMMA]) + LineEnd(format)
  }

  function RenderMembers(members: seq<Member>, format: bool, depth: nat): (t: seq<Byte>)
    requires forall i :: 0 <= i < |members| ==> Plain(members[i].value)
    decreases members, 0
  {
    if members == [] then []
    else RenderMember(members[0], |members| == 1, format, depth) + RenderMembers(members[1..], format, depth)
  }
}
