/**
 * Which texts are values (routerd/3rdparty/cjson/cJSON.c:307-408, 1085-1219, 1363-1415, 1492-1587, 1652-1767), stated on
 * the bytes: what may stand between the parts of an array, an object and a document, and what a number is. Each
 * statement goes both ways, so nothing else is accepted.
 */
module JsonShape {
  import opened Bytes
  import opened JsonText
  import opened JsonGrammar

  // ---------------------------------------------------------------- blanks

  // Bytes up to 32 count as blanks.
  predicate Blanks(s: seq<Byte>, from: nat, to: nat) {
    from <= to <= |s| && forall k :: from <= k < to ==> s[k] <= 32
  }

  // Skipping stops at the first byte above 32, or on the last byte when all are blank.
  lemma SkipStops(s: seq<Byte>, o: nat, to: nat)
    requires o <= |s|
    ensures var r := SkipSpace(s, o); o < |s| ==> Blanks(s, o, r) && r < |s| && (s[r] > 32 || r == |s| - 1)
    ensures Blanks(s, o, to) && to < |s| && s[to] > 32 ==> SkipSpace(s, o) == to
    ensures o == |s| ==> SkipSpace(s, o) == o
  {
  }

  // ---------------------------------------------------------------- values

  // A value is one of three words, or a string, number, array or object by its first byte.
  lemma ValueIs(s: seq<Byte>, o: nat, d: nat, v: Json, q: nat)
    requires o <= |s|
    ensures ParseValue(s, o, d) == Ok(v, q) <==>
            || (v == Null && q == o + 4 <= |s| && s[o..q] == [110, 117, 108, 108])
            || (v == Bool(true) && q == o + 4 <= |s| && s[o..q] == [116, 114, 117, 101])
            || (v == Bool(false) && q == o + 5 <= |s| && s[o..q] == [102, 97, 108, 115, 101])
            || (v.Str? && o < |s| && s[o] == 34 && ParseString(s, o) == Ok(v.text, q))
            || (o < |s| && (s[o] == 45 || 48 <= s[o] <= 57) && ParseNumber(s, o) == Ok(v, q))
            || (v.Arr? && o < |s| && s[o] == 91 && ParseArray(s, o, d) == Ok(v.items, q))
            || (v.Obj? && o < |s| && s[o] == 123 && ParseObject(s, o, d) == Ok(v.members, q))
  {
    hide ParseString, ParseNumber, ParseArray, ParseObject;
    WordHead(s, o);
  }

  lemma WordHead(s: seq<Byte>, o: nat)
    ensures o + 4 <= |s| ==> s[o..o + 4][0] == s[o]
    ensures o + 5 <= |s| ==> s[o..o + 5][0] == s[o]
  {
  }

  lemma ValueHead(s: seq<Byte>, o: nat, d: nat)
    requires o <= |s| && ParseValue(s, o, d).Ok?
    ensures o < |s| && s[o] > 32 && s[o] != 93 && s[o] != 125
  {
    hide ParseString, ParseNumber, ParseArray, ParseObject;
    WordHead(s, o);
  }

  // ---------------------------------------------------------------- arrays

  // Where an item starts and ends, and where the byte behind it stands.
  datatype ItemMark = ItemMark(start: nat, end: nat, sep: nat)

  // From e on: blanks, the value, blanks, and then the byte `sep`.
  predicate ItemLaid(s: seq<Byte>, e: nat, d: nat, item: Json, m: ItemMark, sep: Byte) {
    && Blanks(s, e, m.start) && m.start <= |s| && ParseValue(s, m.start, d) == Ok(item, m.end)
    && Blanks(s, m.end, m.sep) && m.sep < |s| && s[m.sep] == sep
  }

  // From e on: the items with a comma behind each but the last, and the closing bracket in front of q.
  predicate ItemsLaid(s: seq<Byte>, e: nat, q: nat, d: nat, items: seq<Json>, marks: seq<ItemMark>)
    decreases |marks|
  {
    && |marks| == |items| > 0
    && if |marks| == 1 then ItemLaid(s, e, d, items[0], marks[0], 93) && q == marks[0].sep + 1
       else ItemLaid(s, e, d, items[0], marks[0], 44) && ItemsLaid(s, marks[0].sep + 1, q, d, items[1..], marks[1..])
  }

  ghost predicate ItemsFrom(s: seq<Byte>, e: nat, q: nat, d: nat, items: seq<Json>) {
    exists marks :: ItemsLaid(s, e, q, d, items, marks)
  }

  // One turn of the recursion over the items.
  lemma OneItem(s: seq<Byte>, e: nat, d: nat, item: Json, m: ItemMark, sep: Byte)
    requires e <= |s| && ItemLaid(s, e, d, item, m, sep) && (sep == 44 || sep == 93)
    ensures m.sep < |s|
    ensures sep == 93 ==> ParseItems(s, e, d) == Ok([item], m.sep + 1)
    ensures sep == 44 && ParseItems(s, m.sep + 1, d).Ok? ==>
              ParseItems(s, e, d) ==
              Ok([item] + ParseItems(s, m.sep + 1, d).value, ParseItems(s, m.sep + 1, d).offset)
  {
    hide ParseValue, SkipSpace;
    ValueHead(s, m.start, d);
    SkipStops(s, e, m.start);
    SkipStops(s, m.end, m.sep);
  }

  lemma {:induction false} LaidItemsParse(s: seq<Byte>, e: nat, q: nat, d: nat, items: seq<Json>, marks: seq<ItemMark>)
    requires e <= |s| && ItemsLaid(s, e, q, d, items, marks)
    ensures ParseItems(s, e, d) == Ok(items, q)
    decreases |items|
  {
    hide ItemLaid, ParseItems;
    if |items| > 1 {
      OneItem(s, e, d, items[0], marks[0], 44);
      LaidItemsParse(s, marks[0].sep + 1, q, d, items[1..], marks[1..]);
      assert [items[0]] + items[1..] == items;
    } else {
      OneItem(s, e, d, items[0], marks[0], 93);
      assert [items[0]] == items;
    }
  }

  lemma {:induction false} ParsedItemsLaid(s: seq<Byte>, e: nat, d: nat) returns (marks: seq<ItemMark>)
    requires e <= |s| && ParseItems(s, e, d).Ok?
    ensures ItemsLaid(s, e, ParseItems(s, e, d).offset, d, ParseItems(s, e, d).value, marks)
    decreases |s| - e
  {
    hide ParseValue, SkipSpace;
    var start := SkipSpace(s, e);
    var v := ParseValue(s, start, d);
    ValueHead(s, start, d);
    var sep := SkipSpace(s, v.offset);
    var m := ItemMark(start, v.offset, sep);
    SkipStops(s, e, 0);
    SkipStops(s, v.offset, 0);
    if s[sep] == 44 {
      assert ItemLaid(s, e, d, v.value, m, 44);
      var rest := ParsedItemsLaid(s, sep + 1, d);
      var tail := ParseItems(s, sep + 1, d);
      marks := [m] + rest;
      assert marks[1..] == rest && ([v.value] + tail.value)[1..] == tail.value;
    } else {
      assert ItemLaid(s, e, d, v.value, m, 93);
      marks := [m];
    }
  }

  // Laid out items start behind blanks with something that is no bracket, and end with one.
  lemma {:induction false} LaidEnds(s: seq<Byte>, e: nat, q: nat, d: nat, items: seq<Json>, marks: seq<ItemMark>)
    requires e <= |s| && ItemsLaid(s, e, q, d, items, marks)
    ensures items != [] && 0 < q <= |s| && s[q - 1] == 93 && e < q
    ensures SkipSpace(s, e) < |s| && s[SkipSpace(s, e)] != 93 && s[SkipSpace(s, e)] > 32
    decreases |marks|
  {
    hide ParseValue, SkipSpace;
    var m := marks[0];
    ValueHead(s, m.start, d);
    SkipStops(s, e, m.start);
    if |marks| > 1 {
      LaidEnds(s, m.sep + 1, q, d, items[1..], marks[1..]);
    }
  }

  // Blanks ahead of the items change nothing.
  lemma BlanksAhead(s: seq<Byte>, e: nat, start: nat, q: nat, d: nat, items: seq<Json>, marks: seq<ItemMark>)
    requires Blanks(s, e, start) && ItemsLaid(s, start, q, d, items, marks)
    ensures ItemsLaid(s, e, q, d, items, marks)
  {
    hide ParseValue;
    var sep := if |marks| == 1 then 93 else 44;
    assert ItemLaid(s, e, d, items[0], marks[0], sep);
  }

  // The arrays are the bracketed lists of values separated by commas, at most 1000 deep.
  lemma ArrayIs(s: seq<Byte>, o: nat, d: nat, items: seq<Json>, q: nat)
    requires o < |s| && s[o] == 91
    ensures ParseArray(s, o, d) == Ok(items, q) <==>
            && d < 1000 && o + 1 < q <= |s| && s[q - 1] == 93
            && if items == [] then Blanks(s, o + 1, q - 1) else ItemsFrom(s, o + 1, q, d + 1, items)
  {
    if d < 1000 {
      if ParseArray(s, o, d) == Ok(items, q) {
        ParsedArray(s, o, d);
      } else if o + 1 < q <= |s| && s[q - 1] == 93 {
        if items == [] && Blanks(s, o + 1, q - 1) {
          EmptyParses(s, o, d, q);
        }
        if items != [] && ItemsFrom(s, o + 1, q, d + 1, items) {
          LaidArrayParses(s, o, d, items, q);
        }
      }
    }
  }

  lemma EmptyParses(s: seq<Byte>, o: nat, d: nat, q: nat)
    requires o < |s| && s[o] == 91 && d < 1000 && o + 1 < q <= |s| && s[q - 1] == 93 && Blanks(s, o + 1, q - 1)
    ensures ParseArray(s, o, d) == Ok([], q)
  {
    hide ParseItems, SkipSpace;
    SkipStops(s, o + 1, q - 1);
  }

  lemma LaidArrayParses(s: seq<Byte>, o: nat, d: nat, items: seq<Json>, q: nat)
    requires o < |s| && s[o] == 91 && d < 1000 && ItemsFrom(s, o + 1, q, d + 1, items)
    ensures ParseArray(s, o, d) == Ok(items, q)
  {
    hide ParseItems, SkipSpace, ItemsLaid, Blanks;
    var from, depth := o + 1, d + 1;
    var marks :| ItemsLaid(s, from, q, depth, items, marks);
    LaidEnds(s, from, q, depth, items, marks);
    LaidItemsParse(s, from, q, depth, items, marks);
    SkipTwice(s, from, depth);
  }

  lemma SkipTwice(s: seq<Byte>, e: nat, d: nat)
    requires e <= |s|
    ensures ParseItems(s, e, d) == ParseItems(s, SkipSpace(s, e), d)
  {
    hide ParseValue, SkipSpace;
    SkipStops(s, e, 0);
    SkipStops(s, SkipSpace(s, e), SkipSpace(s, e));
    SkipLast(s, e);
  }

  lemma SkipLast(s: seq<Byte>, e: nat)
    requires e <= |s|
    ensures SkipSpace(s, SkipSpace(s, e)) == SkipSpace(s, e)
  {
  }

  lemma ParsedArray(s: seq<Byte>, o: nat, d: nat)
    requires o < |s| && s[o] == 91 && d < 1000 && ParseArray(s, o, d).Ok?
    ensures var r := ParseArray(s, o, d);
            && o + 1 < r.offset <= |s| && s[r.offset - 1] == 93
            && if r.value == [] then Blanks(s, o + 1, r.offset - 1) else ItemsFrom(s, o + 1, r.offset, d + 1, r.value)
  {
    hide ParseItems, SkipSpace, ItemsLaid, Blanks;
    var e := SkipSpace(s, o + 1);
    SkipStops(s, o + 1, 0);
    if s[e] != 93 {
      var r := ParseItems(s, e, d + 1);
      var marks := ParsedItemsLaid(s, e, d + 1);
      LaidEnds(s, e, r.offset, d + 1, r.value, marks);
      BlanksAhead(s, o + 1, e, r.offset, d + 1, r.value, marks);
      assert ItemsLaid(s, o + 1, r.offset, d + 1, r.value, marks);
    }
  }

  // ---------------------------------------------------------------- objects

  // Where a key starts and ends, its colon stands, the value starts and ends, and the byte behind it stands.
  datatype MemberMark = MemberMark(key: nat, keyEnd: nat, colon: nat, start: nat, end: nat, sep: nat)

  // From e on: blanks, a string, blanks, a colon, blanks, the value, blanks, and then the byte `sep`.
  predicate MemberLaid(s: seq<Byte>, e: nat, d: nat, m: Member, k: MemberMark, sep: Byte) {
    && Blanks(s, e, k.key) && k.key < |s| && ParseString(s, k.key) == Ok(m.key, k.keyEnd)
    && Blanks(s, k.keyEnd, k.colon) && k.colon < |s| && s[k.colon] == 58
    && Blanks(s, k.colon + 1, k.start) && ParseValue(s, k.start, d) == Ok(m.value, k.end)
    && Blanks(s, k.end, k.sep) && k.sep < |s| && s[k.sep] == sep
  }

  predicate MembersLaid(s: seq<Byte>, e: nat, q: nat, d: nat, members: seq<Member>, marks: seq<MemberMark>)
    decreases |marks|
  {
    && |marks| == |members| > 0
    && if |marks| == 1 then MemberLaid(s, e, d, members[0], marks[0], 125) && q == marks[0].sep + 1
       else MemberLaid(s, e, d, members[0], marks[0], 44) && MembersLaid(s, marks[0].sep + 1, q, d, members[1..], marks[1..])
  }

  ghost predicate MembersFrom(s: seq<Byte>, e: nat, q: nat, d: nat, members: seq<Member>) {
    exists marks :: MembersLaid(s, e, q, d, members, marks)
  }

  lemma KeyHead(s: seq<Byte>, o: nat)
    requires o < |s| && ParseString(s, o).Ok?
    ensures s[o] == 34
  {
  }

  lemma OneMember(s: seq<Byte>, e: nat, d: nat, m: Member, k: MemberMark, sep: Byte)
    requires 0 < e <= |s| && MemberLaid(s, e, d, m, k, sep) && (sep == 44 || sep == 125)
    ensures k.sep < |s| && e < |s| && ParseMember(s, e, d) == Ok(m, k.end) && SkipSpace(s, k.end) == k.sep
  {
    hide ParseValue, ParseString, SkipSpace;
    KeyHead(s, k.key);
    ValueHead(s, k.start, d);
    SkipStops(s, e, k.key);
    SkipStops(s, k.keyEnd, k.colon);
    SkipStops(s, k.colon + 1, k.start);
    SkipStops(s, k.end, k.sep);
  }

  lemma {:induction false} LaidMembersParse(s: seq<Byte>, e: nat, q: nat, d: nat, members: seq<Member>, marks: seq<MemberMark>)
    requires 0 < e <= |s| && MembersLaid(s, e, q, d, members, marks)
    ensures ParseMembers(s, e, d) == Ok(members, q)
    decreases |members|
  {
    hide MemberLaid, ParseMember, SkipSpace;
    if |members| > 1 {
      OneMember(s, e, d, members[0], marks[0], 44);
      MarkAt(s, e, d, members[0], marks[0], 44);
      LaidMembersParse(s, marks[0].sep + 1, q, d, members[1..], marks[1..]);
      assert [members[0]] + members[1..] == members;
    } else {
      OneMember(s, e, d, members[0], marks[0], 125);
      MarkAt(s, e, d, members[0], marks[0], 125);
      assert [members[0]] == members;
    }
  }

  lemma MarkAt(s: seq<Byte>, e: nat, d: nat, m: Member, k: MemberMark, sep: Byte)
    requires MemberLaid(s, e, d, m, k, sep)
    ensures k.sep < |s| && s[k.sep] == sep
  {
  }

  lemma ParsedMemberLaid(s: seq<Byte>, e: nat, d: nat, sep: Byte) returns (k: MemberMark)
    requires 0 < e <= |s| && ParseMember(s, e, d).Ok?
    requires var q := SkipSpace(s, ParseMember(s, e, d).offset); q < |s| && s[q] == sep && sep > 32
    ensures MemberLaid(s, e, d, ParseMember(s, e, d).value, k, sep)
    ensures k.sep == SkipSpace(s, ParseMember(s, e, d).offset)
  {
    hide ParseValue, ParseString, SkipSpace;
    var key := SkipSpace(s, e);
    SkipStops(s, e, 0);
    KeyHead(s, key);
    var keyEnd := ParseString(s, key).offset;
    var colon := SkipSpace(s, keyEnd);
    SkipStops(s, keyEnd, 0);
    var start := SkipSpace(s, colon + 1);
    SkipStops(s, colon + 1, 0);
    ValueHead(s, start, d);
    var end := ParseValue(s, start, d).offset;
    SkipStops(s, end, 0);
    k := MemberMark(key, keyEnd, colon, start, end, SkipSpace(s, end));
  }

  lemma {:induction false} ParsedMembersLaid(s: seq<Byte>, e: nat, d: nat) returns (marks: seq<MemberMark>)
    requires 0 < e <= |s| && ParseMembers(s, e, d).Ok?
    ensures MembersLaid(s, e, ParseMembers(s, e, d).offset, d, ParseMembers(s, e, d).value, marks)
    decreases |s| - e
  {
    hide ParseMember, SkipSpace, MemberLaid;
    var r := ParseMember(s, e, d);
    var sep := SkipSpace(s, r.offset);
    if s[sep] == 44 {
      var k := ParsedMemberLaid(s, e, d, 44);
      var rest := ParsedMembersLaid(s, sep + 1, d);
      var tail := ParseMembers(s, sep + 1, d);
      marks := [k] + rest;
      assert marks[1..] == rest && ([r.value] + tail.value)[1..] == tail.value;
    } else {
      var k := ParsedMemberLaid(s, e, d, 125);
      marks := [k];
    }
  }

  lemma {:induction false} LaidMembersEnd(s: seq<Byte>, e: nat, q: nat, d: nat, members: seq<Member>, marks: seq<MemberMark>)
    requires 0 < e <= |s| && MembersLaid(s, e, q, d, members, marks)
    ensures members != [] && 0 < q <= |s| && s[q - 1] == 125 && e < q
    ensures SkipSpace(s, e) < |s| && s[SkipSpace(s, e)] == 34
    decreases |marks|
  {
    hide ParseValue, ParseString, SkipSpace;
    var k := marks[0];
    KeyHead(s, k.key);
    SkipStops(s, e, k.key);
    if |marks| > 1 {
      LaidMembersEnd(s, k.sep + 1, q, d, members[1..], marks[1..]);
    }
  }

  lemma BlanksAheadOfMembers(s: seq<Byte>, e: nat, start: nat, q: nat, d: nat, members: seq<Member>, marks: seq<MemberMark>)
    requires Blanks(s, e, start) && MembersLaid(s, start, q, d, members, marks)
    ensures MembersLaid(s, e, q, d, members, marks)
  {
    hide ParseValue, ParseString;
    var sep := if |marks| == 1 then 125 else 44;
    assert MemberLaid(s, e, d, members[0], marks[0], sep);
  }

  // The objects are the lists in braces of strings and values, paired by colons and separated by commas, at most
  // 1000 deep.
  lemma ObjectIs(s: seq<Byte>, o: nat, d: nat, members: seq<Member>, q: nat)
    requires o < |s| && s[o] == 123
    ensures ParseObject(s, o, d) == Ok(members, q) <==>
            && d < 1000 && o + 1 < q <= |s| && s[q - 1] == 125
            && if members == [] then Blanks(s, o + 1, q - 1) else MembersFrom(s, o + 1, q, d + 1, members)
  {
    if d < 1000 {
      if ParseObject(s, o, d) == Ok(members, q) {
        ParsedObject(s, o, d);
      } else if o + 1 < q <= |s| && s[q - 1] == 125 {
        if members == [] && Blanks(s, o + 1, q - 1) {
          EmptyObjectParses(s, o, d, q);
        }
        if members != [] && MembersFrom(s, o + 1, q, d + 1, members) {
          LaidObjectParses(s, o, d, members, q);
        }
      }
    }
  }

  lemma EmptyObjectParses(s: seq<Byte>, o: nat, d: nat, q: nat)
    requires o < |s| && s[o] == 123 && d < 1000 && o + 1 < q <= |s| && s[q - 1] == 125 && Blanks(s, o + 1, q - 1)
    ensures ParseObject(s, o, d) == Ok([], q)
  {
    hide ParseMembers, SkipSpace;
    SkipStops(s, o + 1, q - 1);
  }

  lemma LaidObjectParses(s: seq<Byte>, o: nat, d: nat, members: seq<Member>, q: nat)
    requires o < |s| && s[o] == 123 && d < 1000 && MembersFrom(s, o + 1, q, d + 1, members)
    ensures ParseObject(s, o, d) == Ok(members, q)
  {
    hide ParseMembers, SkipSpace, MembersLaid, Blanks;
    var from, depth := o + 1, d + 1;
    var marks :| MembersLaid(s, from, q, depth, members, marks);
    LaidMembersEnd(s, from, q, depth, members, marks);
    LaidMembersParse(s, from, q, depth, members, marks);
    SkipTwiceToMember(s, from, depth);
  }

  lemma SkipTwiceToMember(s: seq<Byte>, e: nat, d: nat)
    requires 0 < e < |s|
    ensures SkipSpace(s, e) < |s| && ParseMembers(s, e, d) == ParseMembers(s, SkipSpace(s, e), d)
  {
    hide ParseValue, ParseString, SkipSpace;
    SkipStops(s, e, 0);
    SkipLast(s, e);
    assert ParseMember(s, e, d) == ParseMember(s, SkipSpace(s, e), d);
  }

  lemma ParsedObject(s: seq<Byte>, o: nat, d: nat)
    requires o < |s| && s[o] == 123 && d < 1000 && ParseObject(s, o, d).Ok?
    ensures var r := ParseObject(s, o, d);
            && o + 1 < r.offset <= |s| && s[r.offset - 1] == 125
            && if r.value == [] then Blanks(s, o + 1, r.offset - 1) else MembersFrom(s, o + 1, r.offset, d + 1, r.value)
  {
    hide ParseMembers, SkipSpace, MembersLaid, Blanks;
    var e := SkipSpace(s, o + 1);
    SkipStops(s, o + 1, 0);
    if s[e] != 125 {
      var r := ParseMembers(s, e, d + 1);
      var marks := ParsedMembersLaid(s, e, d + 1);
      LaidMembersEnd(s, e, r.offset, d + 1, r.value, marks);
      BlanksAheadOfMembers(s, o + 1, e, r.offset, d + 1, r.value, marks);
      assert MembersLaid(s, o + 1, r.offset, d + 1, r.value, marks);
    }
  }

  // ---------------------------------------------------------------- documents

  // A document is a value behind blanks, and behind EF BB BF if the buffer starts with these and has a byte or two
  // more; it is read to the end of the value. When a NUL is asked for, blanks may stand between it and the value.
  lemma DocumentIs(s: seq<Byte>, requireNul: bool, v: Json, q: nat)
    ensures ParseDocument(s, requireNul) == Ok(v, q) <==>
            && s != []
            && var b: nat := if |s| > 4 && s[0] == 0xEF && s[1] == 0xBB && s[2] == 0xBF then 3 else 0;
               exists a: nat, end: nat ::
                 && Blanks(s, b, a) && a < |s| && ParseValue(s, a, 0) == Ok(v, end)
                 && if requireNul then Blanks(s, end, q) && NulAt(s, end, q) else q == end
  {
    hide ParseValue, SkipSpace;
    if s != [] {
      assert |s| > 4 ==> s[0..3][0] == s[0] && s[0..3][1] == s[1] && s[0..3][2] == s[2];
      var b := AfterByteOrderMark(s);
      var a := SkipSpace(s, b);
      SkipStops(s, b, 0);
      if ParseValue(s, a, 0).Ok? {
        ValueHead(s, a, 0);
        var end := ParseValue(s, a, 0).offset;
        LastNul(s, end, q);
      }
      forall a': nat | Blanks(s, b, a') && a' < |s| && ParseValue(s, a', 0).Ok? ensures a' == a {
        ValueHead(s, a', 0);
        SkipStops(s, b, a');
      }
    }
  }

  // A NUL at q ends the document behind `end` only where skipping blanks stops: as the last byte of the buffer.
  predicate NulAt(s: seq<Byte>, end: nat, q: nat) {
    q == |s| - 1 && s[q] == 0
  }

  lemma LastNul(s: seq<Byte>, end: nat, q: nat)
    requires end <= |s|
    ensures Blanks(s, end, q) && NulAt(s, end, q) && end <= q <==>
            SkipSpace(s, end) == q && q < |s| && s[q] == 0
  {
    SkipStops(s, end, q);
  }

  // ---------------------------------------------------------------- numbers

  predicate DigitsIn(t: seq<Byte>, from: nat, to: nat) {
    from <= to <= |t| && forall k :: from <= k < to ==> 48 <= t[k] <= 57
  }

  predicate SignAt(t: seq<Byte>, k: nat) {
    k < |t| && (t[k] == 43 || t[k] == 45)
  }

  // An optional sign up to a, digits up to b, perhaps a point and digits up to c, with a digit before or behind the
  // point; then nothing, or an exponent: e or E, an optional sign up to x, and digits.
  predicate DecimalAt(t: seq<Byte>, a: nat, b: nat, c: nat, x: nat) {
    && a == (if SignAt(t, 0) then 1 else 0)
    && DigitsIn(t, a, b)
    && (c == b || (b < c <= |t| && t[b] == 46 && DigitsIn(t, b + 1, c)))
    && (a < b || b + 1 < c)
    && (c == |t| ||
        (&& c < |t| && (t[c] == 101 || t[c] == 69)
         && x == (if SignAt(t, c + 1) then c + 2 else c + 1) && x < |t| && DigitsIn(t, x, |t|)))
  }

  ghost predicate IsDecimal(t: seq<Byte>) {
    exists a: nat, b: nat, c: nat, x: nat :: DecimalAt(t, a, b, c, x)
  }

  // What strtod converts is such a number, and the longest one the text starts with.
  lemma ConvertedIsDecimal(t: seq<Byte>)
    requires StrtodLength(t) > 0
    ensures IsDecimal(t[..StrtodLength(t)])
  {
    var n := StrtodLength(t);
    var a := SignEnd(t, 0);
    var b := DigitsEnd(t, a);
    var c := if b < |t| && t[b] == 46 then DigitsEnd(t, b + 1) else b;
    var u := t[..n];
    if c < n {
      var x := SignEnd(t, c + 1);
      assert DecimalAt(u, a, b, c, x);
    } else {
      assert n == c;
      assert DecimalAt(u, a, b, c, 0);
    }
  }

  lemma DigitsGoOn(t: seq<Byte>, from: nat, to: nat)
    requires DigitsIn(t, from, to)
    ensures from <= |t| && to <= DigitsEnd(t, from)
    ensures to < |t| && !(48 <= t[to] <= 57) ==> DigitsEnd(t, from) == to
  {
    var r := DigitsEnd(t, from);
    assert r == |t| || !IsDigit(t[r]);
    assert r <= to || IsDigit(t[to]);
  }

  lemma DigitsInFront(t: seq<Byte>, m: nat, from: nat, to: nat)
    requires m <= |t| && DigitsIn(t[..m], from, to)
    ensures to <= m && DigitsIn(t, from, to)
  {
    assert forall k :: from <= k < to ==> t[..m][k] == t[k];
  }

  function Mantissa(t: seq<Byte>): (r: nat)
    ensures r <= |t|
  {
    var whole := DigitsEnd(t, SignEnd(t, 0));
    if whole < |t| && t[whole] == 46 then DigitsEnd(t, whole + 1) else whole
  }

  // A number in front of the text is covered by the digits that strtod takes, up to an exponent.
  lemma MantissaCovers(t: seq<Byte>, b: nat, c: nat)
    requires var a := SignEnd(t, 0);
             && DigitsIn(t, a, b) && c <= |t|
             && (c == b || (b < c && t[b] == 46 && DigitsIn(t, b + 1, c))) && (a < b || b + 1 < c)
    ensures 0 < c <= Mantissa(t) <= StrtodLength(t)
    ensures c < |t| && (t[c] == 101 || t[c] == 69) ==> Mantissa(t) == c
  {
    hide DigitsEnd, DigitsIn;
    var a := SignEnd(t, 0);
    DigitsGoOn(t, a, b);
    if b < c {
      DigitsGoOn(t, b + 1, c);
    }
  }

  lemma ExponentCovers(t: seq<Byte>, c: nat, x: nat, m: nat)
    requires c < |t| && (t[c] == 101 || t[c] == 69) && Mantissa(t) == c && StrtodLength(t) >= c > 0
    requires x == SignEnd(t, c + 1) && x < m <= |t| && DigitsIn(t, x, m)
    ensures m <= StrtodLength(t)
  {
    hide DigitsEnd, DigitsIn;
    DigitsGoOn(t, x, m);
  }

  lemma NoLongerDecimal(t: seq<Byte>, m: nat, a: nat, b: nat, c: nat, x: nat)
    requires m <= |t| && DecimalAt(t[..m], a, b, c, x)
    ensures 0 < m <= StrtodLength(t)
  {
    hide DigitsIn, StrtodLength, Mantissa;
    var u := t[..m];
    assert m > 0 && u[0] == t[0];
    DigitsInFront(t, m, a, b);
    if b < c {
      assert u[b] == t[b];
      DigitsInFront(t, m, b + 1, c);
    }
    MantissaCovers(t, b, c);
    if c < m {
      assert u[c] == t[c];
      assert c + 1 < m ==> u[c + 1] == t[c + 1];
      DigitsInFront(t, m, x, m);
      ExponentCovers(t, c, x, m);
    }
  }

  lemma DecimalBytes(t: seq<Byte>, a: nat, b: nat, c: nat, x: nat)
    requires DecimalAt(t, a, b, c, x)
    ensures forall k :: 0 <= k < |t| ==> NumberByte(t[k])
  {
  }

  lemma SpanGoesOn(s: seq<Byte>, o: nat, z: nat)
    requires o <= z <= |s| && forall k :: o <= k < z ==> NumberByte(s[k])
    ensures z <= NumberSpan(s, o)
  {
    assert NumberSpan(s, o) == |s| || !NumberByte(s[NumberSpan(s, o)]);
  }

  // A number is read exactly when one starts here, and then the longest one.
  lemma NumberIs(s: seq<Byte>, o: nat, v: Json, q: nat)
    requires o <= |s|
    ensures ParseNumber(s, o) == Ok(v, q) <==>
            && o < q <= |s| && IsDecimal(s[o..q]) && v == NumberValue(s[o..q])
            && forall z: nat :: q < z <= |s| ==> !IsDecimal(s[o..z])
  {
    var t := s[o..NumberSpan(s, o)];
    var n := StrtodLength(t);
    if n > 0 {
      ConvertedIsDecimal(t);
      assert t[..n] == s[o..o + n];
    }
    forall z: nat | o < z <= |s| && IsDecimal(s[o..z]) ensures z <= o + n && n > 0 {
      DecimalFits(s, o, z);
    }
    hide StrtodLength, NumberSpan, NumberValue, IsDecimal;
  }

  lemma DecimalFits(s: seq<Byte>, o: nat, z: nat)
    requires o <= z <= |s| && IsDecimal(s[o..z])
    ensures 0 < z - o <= StrtodLength(s[o..NumberSpan(s, o)])
  {
    hide DecimalAt, NumberSpan, StrtodLength, NumberByte;
    var u := s[o..z];
    var a: nat, b: nat, c: nat, x: nat :| DecimalAt(u, a, b, c, x);
    DecimalBytes(u, a, b, c, x);
    assert forall k :: o <= k < z ==> s[k] == u[k - o];
    SpanGoesOn(s, o, z);
    PartOfSpan(s, o, z, NumberSpan(s, o));
    NoLongerDecimal(s[o..NumberSpan(s, o)], z - o, a, b, c, x);
  }

  lemma PartOfSpan(s: seq<Byte>, o: nat, z: nat, r: nat)
    requires o <= z <= r <= |s|
    ensures s[o..r][..z - o] == s[o..z]
  {
  }

  function Power10(n: nat): nat {
    if n == 0 then 1 else 10 * Power10(n - 1)
  }

  // The first digit counts most.
  lemma {:induction false} DigitsValueFront(t: seq<Byte>)
    requires t != [] && DigitsIn(t, 0, |t|)
    ensures (forall i :: 0 <= i < |t| ==> IsDigit(t[i])) && (forall i :: 0 <= i < |t| - 1 ==> IsDigit(t[1..][i]))
    ensures DigitsValue(t) == (t[0] - 48) * Power10(|t| - 1) + DigitsValue(t[1..])
    decreases |t|
  {
    assert forall i :: 0 <= i < |t| ==> IsDigit(t[i]);
    assert forall i :: 0 <= i < |t| - 1 ==> t[1..][i] == t[i + 1];
    var n := |t| - 1;
    if n > 0 {
      var front := t[..n];
      DigitsValueFront(front);
      assert front[1..] == t[1..][..n - 1] && t[1..][n - 1] == t[n];
      FrontSum(t[0] - 48, Power10(n - 1), DigitsValue(front[1..]), t[n] - 48);
    } else {
      assert t[..0] == [] && t[1..] == [];
    }
  }

  lemma FrontSum(d: int, p: int, rest: int, last: int)
    ensures (d * p + rest) * 10 + last == d * (10 * p) + (rest * 10 + last)
  {
  }

  // A sign and digits are the int they spell if it is in range; any other number is kept as its text.
  lemma NumberValueIs(t: seq<Byte>)
    ensures var a := if SignAt(t, 0) then 1 else 0;
            if DigitsIn(t, a, |t|) then
              && (forall i :: 0 <= i < |t| - a ==> IsDigit(t[a..][i]))
              && var n := if SignAt(t, 0) && t[0] == 45 then 0 - DigitsValue(t[a..]) as int else DigitsValue(t[a..]) as int;
                 NumberValue(t) == if -0x8000_0000 <= n <= 0x7FFF_FFFF then Int(n) else Decimal(t)
            else NumberValue(t) == Decimal(t)
  {
    var a := if SignAt(t, 0) then 1 else 0;
    if DigitsIn(t, a, |t|) {
      DigitsGoOn(t, a, |t|);
      assert forall i :: 0 <= i < |t| - a ==> t[a..][i] == t[a + i];
    }
  }
}
