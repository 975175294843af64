/**
 * How printed values look (routerd/3rdparty/cjson/cJSON.c:591-658, 949-1068, 1418-1489, 1590-1649, 1770-1881), stated on
 * the bytes: the words, the digits, every escape, and the brackets, commas, colons and blanks of either format.
 */
module JsonLook {
  import opened Bytes
  import opened JsonText
  import JsonGrammar
  import JsonRoundTrip
  import JsonShape

  // ---------------------------------------------------------------- words, ints, strings

  lemma WordsLook(format: bool, depth: nat)
    ensures Render(Null, format, depth) == [110, 117, 108, 108]
    ensures Render(Bool(true), format, depth) == [116, 114, 117, 101]
    ensures Render(Bool(false), format, depth) == [102, 97, 108, 115, 101]
  {
  }

  // An int is its digits, most significant first and without needless zeros, behind a minus sign if it is negative.
  lemma IntLooks(n: CInt, format: bool, depth: nat)
    ensures var t := Render(Int(n), format, depth);
            var d := if n < 0 then t[1..] else t;
            && (n < 0 ==> t[0] == 45)
            && d != [] && JsonShape.DigitsIn(d, 0, |d|) && (d[0] == 48 ==> n == 0 && d == [48])
            && (forall i :: 0 <= i < |d| ==> JsonGrammar.IsDigit(d[i]))
            && JsonGrammar.DigitsValue(d) as int == if n < 0 then 0 - n else n
  {
    var m: nat := if n < 0 then 0 - n else n;
    JsonRoundTrip.DigitsValueOfDigits(m);
    FirstDigit(m);
    hide Digits, JsonGrammar.DigitsValue;
    assert n < 0 ==> ([45] + Digits(m))[1..] == Digits(m);
  }

  lemma {:induction false} FirstDigit(n: nat)
    ensures Digits(n)[0] == 48 ==> n == 0 && Digits(n) == [48]
  {
    if n >= 10 {
      FirstDigit(n / 10);
    }
  }

  // What is printed for one byte of a string.
  lemma ByteLooks(b: Byte)
    requires b != 0
    ensures EscapeText([b]) ==
            if b == 34 then [92, 34] else if b == 92 then [92, 92]
            else if b == 8 then [92, 98] else if b == 12 then [92, 102] else if b == 10 then [92, 110]
            else if b == 13 then [92, 114] else if b == 9 then [92, 116]
            else if b < 16 then [92, 117, 48, 48, 48, if b < 10 then 48 + b else 87 + b]
            else if b < 32 then [92, 117, 48, 48, 49, if b < 26 then 32 + b else 71 + b]
            else [b]
  {
    assert [b][1..] == [] && EscapeText([]) == [];
    assert EscapeByte(b) + [] == EscapeByte(b);
  }

  // A string is printed byte by byte up to its first NUL, between quotes.
  lemma {:induction false} StringLooks(a: seq<Byte>, b: seq<Byte>)
    requires 0 !in a
    ensures EscapeText(a + b) == EscapeText(a) + EscapeText(b)
    ensures EscapeText([0] + b) == [] && EscapeText([]) == []
    ensures forall format, depth :: Render(Str(b), format, depth) == [34] + EscapeText(b) + [34]
  {
    hide EscapeByte;
    if a != [] {
      StringLooks(a[1..], b);
      assert (a + b)[0] == a[0] && (a + b)[1..] == a[1..] + b;
    } else {
      assert a + b == b;
    }
  }

  // ---------------------------------------------------------------- arrays

  // The items between brackets, one level deeper, with a comma between two and a blank behind it when formatted.
  lemma ArrayLooks(items: seq<Json>, format: bool, depth: nat)
    requires Plain(Arr(items))
    ensures Render(Arr(items), format, depth) == [91] + RenderItems(items, format, depth + 1) + [93]
    ensures items == [] ==> RenderItems(items, format, depth) == []
    ensures items != [] ==>
              RenderItems(items, format, depth) ==
              Render(items[0], format, depth) + (if |items| == 1 then [] else if format then [44, 32] else [44])
              + RenderItems(items[1..], format, depth)
  {
  }

  // ---------------------------------------------------------------- objects

  function Tabbed(format: bool, depth: nat): (t: seq<Byte>)
    ensures |t| == if format then depth else 0
    ensures forall i :: 0 <= i < |t| ==> t[i] == 9
  {
    if format then seq(depth, _ => 9) else []
  }

  // The members between braces: unformatted, nothing between them but commas; formatted, each on a line of its own,
  // as many tabs in as it is deep, with a tab behind the colon, and the closing brace on a line of its own.
  lemma ObjectLooks(ms: seq<Member>, format: bool, depth: nat)
    requires Plain(Obj(ms))
    ensures Render(Obj(ms), format, depth) ==
            [123] + (if format then [10] else []) + RenderMembers(ms, format, depth + 1) + Tabbed(format, depth) + [125]
    ensures ms == [] ==> RenderMembers(ms, format, depth) == []
    ensures ms != [] ==>
              RenderMembers(ms, format, depth) ==
              Tabbed(format, depth) + ([34] + EscapeText(ms[0].key) + [34]) + (if format then [58, 9] else [58])
              + Render(ms[0].value, format, depth) + (if |ms| == 1 then [] else [44]) + (if format then [10] else [])
              + RenderMembers(ms[1..], format, depth)
  {
    hide EscapeText;
    assert Tabs(depth) == seq(depth, _ => 9);
    assert Tabbed(format, depth) == Indent(format, depth);
  }
}
