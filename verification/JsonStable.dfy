/**
 * What the parser yields, the printer can give back (routerd/3rdparty/cjson/cJSON.c:1142-1881): parsed values
 * never nest too deeply to be printed and parsed again. Beside that, values built in other ways for which the
 * round trip fails.
 */
module JsonStable {
  import opened Bytes
  import opened JsonText
  import opened JsonGrammar
  import opened JsonRoundTrip

  // ---------------------------------------------------------------- parsed values are not too deep

  lemma {:induction false} ValueNests(s: seq<Byte>, o: nat, d: nat)
    requires o <= |s| && d <= NESTING_LIMIT
    ensures ParseValue(s, o, d).Ok? ==> d + Nesting(ParseValue(s, o, d).value) <= NESTING_LIMIT
    decreases |s| - o, 3
  {
    hide At, ParseString, ParseNumber, ParseArray, ParseObject, NestingOfItems, NestingOfMembers;
    if o < |s| {
      if s[o] == OPEN_BRACKET {
        ArrayNests(s, o, d);
      } else if s[o] == OPEN_BRACE {
        ObjectNests(s, o, d);
      } else if s[o] == MINUS || IsDigit(s[o]) {
        NumberIsFlat(s, o);
      }
    }
  }

  lemma NumberIsFlat(s: seq<Byte>, o: nat)
    requires o <= |s|
    ensures ParseNumber(s, o).Ok? ==> Nesting(ParseNumber(s, o).value) == 0
  {
  }

  lemma {:induction false} ArrayNests(s: seq<Byte>, o: nat, d: nat)
    requires o < |s| && s[o] == OPEN_BRACKET && d <= NESTING_LIMIT
    ensures ParseArray(s, o, d).Ok? ==> d + 1 + NestingOfItems(ParseArray(s, o, d).value) <= NESTING_LIMIT
    decreases |s| - o, 2
  {
    hide ParseItems, SkipSpace;
    var e := SkipSpace(s, o + 1);
    if d < NESTING_LIMIT && e < |s| {
      ItemsNest(s, e, d + 1);
    }
  }

  lemma {:induction false} ItemsNest(s: seq<Byte>, e: nat, d: nat)
    requires e <= |s| && d <= NESTING_LIMIT
    ensures ParseItems(s, e, d).Ok? ==> d + NestingOfItems(ParseItems(s, e, d).value) <= NESTING_LIMIT
    decreases |s| - e, 4
  {
    hide ParseValue, SkipSpace, Nesting;
    var r := ParseValue(s, SkipSpace(s, e), d);
    ValueNests(s, SkipSpace(s, e), d);
    if r.Ok? {
      var q := SkipSpace(s, r.offset);
      assert NestingOfItems([r.value]) == Nesting(r.value);
      if q < |s| && s[q] == COMMA {
        ItemsNest(s, q + 1, d);
        var rest := ParseItems(s, q + 1, d);
        if rest.Ok? {
          assert ([r.value] + rest.value)[1..] == rest.value;
        }
      }
    }
  }

  lemma {:induction false} ObjectNests(s: seq<Byte>, o: nat, d: nat)
    requires o < |s| && s[o] == OPEN_BRACE && d <= NESTING_LIMIT
    ensures ParseObject(s, o, d).Ok? ==> d + 1 + NestingOfMembers(ParseObject(s, o, d).value) <= NESTING_LIMIT
    decreases |s| - o, 2
  {
    hide ParseMembers, SkipSpace;
    var e := SkipSpace(s, o + 1);
    if d < NESTING_LIMIT && e < |s| {
      MembersNest(s, e, d + 1);
    }
  }

  lemma {:induction false} MemberNests(s: seq<Byte>, e: nat, d: nat)
    requires 0 < e <= |s| && d <= NESTING_LIMIT
    ensures ParseMember(s, e, d).Ok? ==> d + Nesting(ParseMember(s, e, d).value.value) <= NESTING_LIMIT
    decreases |s| - e, 4
  {
    hide ParseValue, ParseString, SkipSpace, Nesting;
    if e < |s| {
      var key := ParseString(s, SkipSpace(s, e));
      if key.Ok? {
        var c := SkipSpace(s, key.offset);
        if c < |s| {
          ValueNests(s, SkipSpace(s, c + 1), d);
        }
      }
    }
  }

  lemma {:induction false} MembersNest(s: seq<Byte>, e: nat, d: nat)
    requires 0 < e <= |s| && d <= NESTING_LIMIT
    ensures ParseMembers(s, e, d).Ok? ==> d + NestingOfMembers(ParseMembers(s, e, d).value) <= NESTING_LIMIT
    decreases |s| - e, 5
  {
    hide ParseMember, SkipSpace, Nesting;
    var r := ParseMember(s, e, d);
    MemberNests(s, e, d);
    if r.Ok? {
      var q := SkipSpace(s, r.offset);
      assert NestingOfMembers([r.value]) == Nesting(r.value.value);
      if q < |s| && s[q] == COMMA {
        MembersNest(s, q + 1, d);
        var rest := ParseMembers(s, q + 1, d);
        if rest.Ok? {
          assert ([r.value] + rest.value)[1..] == rest.value;
        }
      }
    }
  }

  // ---------------------------------------------------------------- cutting twice

  lemma {:induction false} CutAgain(v: Json)
    ensures NulFree(Cut(v)) && Nesting(Cut(v)) == Nesting(v) && (Plain(v) ==> Plain(Cut(v)))
    decreases v, 1
  {
    match v
    case Arr(items) => CutItemsAgain(items);
    case Obj(members) => CutMembersAgain(members);
    case _ =>
  }

  lemma {:induction false} CutItemsAgain(items: seq<Json>)
    ensures forall i :: 0 <= i < |items| ==>
              NulFree(CutItems(items)[i]) && (Plain(items[i]) ==> Plain(CutItems(items)[i]))
    ensures NestingOfItems(CutItems(items)) == NestingOfItems(items)
    decreases items, 0
  {
    if items != [] {
      CutAgain(items[0]);
      CutItemsAgain(items[1..]);
      assert CutItems(items)[1..] == CutItems(items[1..]);
    }
  }

  lemma {:induction false} CutMembersAgain(members: seq<Member>)
    ensures forall i :: 0 <= i < |members| ==>
              && 0 !in CutMembers(members)[i].key && NulFree(CutMembers(members)[i].value)
              && (Plain(members[i].value) ==> Plain(CutMembers(members)[i].value))
    ensures NestingOfMembers(CutMembers(members)) == NestingOfMembers(members)
    decreases members, 0
  {
    if members != [] {
      CutAgain(members[0].value);
      CutMembersAgain(members[1..]);
      assert CutMembers(members)[1..] == CutMembers(members[1..]);
    }
  }

  // ---------------------------------------------------------------- printing what was parsed

  // Whatever text was parsed, lenient syntax and all: printing the value gives text that parses to the value
  // with its strings cut at NUL, and from then on printing and parsing change nothing any more.
  lemma PrintedIsStable(t: seq<Byte>, format: bool)
    requires Parse(t).Ok? && Plain(Parse(t).value)
    ensures var v := Parse(t).value;
            && Parse(Render(v, format, 0)) == Ok(Cut(v), |Render(v, format, 0)|)
            && Plain(Cut(v))
            && Parse(Render(Cut(v), format, 0)) == Ok(Cut(v), |Render(Cut(v), format, 0)|)
  {
    var v := Parse(t).value;
    ParsedNests(t);
    hide Render, Parse, Cut, Plain, Nesting, NulFree;
    CutAgain(v);
    PrintThenParse(v, format);
    PrintThenParseExactly(Cut(v), format);
  }

  lemma ParsedNests(t: seq<Byte>)
    requires Parse(t).Ok?
    ensures Nesting(Parse(t).value) <= NESTING_LIMIT
  {
    hide ParseValue, SkipSpace, Nesting;
    var s := CString(t) + [0];
    ValueNests(s, SkipSpace(s, AfterByteOrderMark(s)), 0);
  }

  // ---------------------------------------------------------------- where the round trip fails

  function Tower(n: nat): (v: Json)
    ensures Plain(v) && NulFree(v)
  {
    if n == 0 then Null else Arr([Tower(n - 1)])
  }

  lemma {:induction false} TowerNests(n: nat)
    ensures Nesting(Tower(n)) == n
  {
    if n > 0 {
      TowerNests(n - 1);
      var items := [Tower(n - 1)];
      assert items[1..] == [];
      assert NestingOfItems(items) == Max(Nesting(Tower(n - 1)), NestingOfItems(items[1..]));
      assert Tower(n) == Arr(items);
    }
  }

  // 1001 arrays in one another can be printed but not read back.
  lemma TooDeep(format: bool)
    ensures Parse(Render(Tower(1001), format, 0)).Fail?
  {
    TowerNests(1001);
    PrintThenParse(Tower(1001), format);
    hide Tower, Render, Parse, Nesting;
  }

  // A string of one NUL byte is read back as the empty string.
  lemma NulIsLost(format: bool)
    ensures Parse(Render(Str([0]), format, 0)) == Ok(Str([]), 2)
  {
    PrintThenParse(Str([0]), format);
    assert EscapeText([0]) == [];
  }
}
