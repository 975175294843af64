/**
 * What a REGISTER payload says (routerd/src/registry.c:22-38, 64-115): the JSON text up to its first NUL is
 * parsed, four string fields are required and cut to their table sizes, and up to eight port names are taken.
 */
module RegisterPayload {
  import opened Bytes
  import opened JsonText
  import JsonGrammar
  import opened SiblingList
  import opened JsonTree
  import JsonParser
  import JsonRoundTrip

  const MAX_JSON: nat := 4096
  const MAX_PORTS: nat := 8
  const DEVICE_ID_LEN: nat := 64
  const MODEL_LEN: nat := 32
  const FW_VERSION_LEN: nat := 16
  const BUILD_DATE_LEN: nat := 16
  const PORT_NAME_LEN: nat := 32

  datatype Info = Info(deviceId: seq<Byte>, model: seq<Byte>, fwVersion: seq<Byte>, buildDate: seq<Byte>,
                       portNames: seq<seq<Byte>>)

  function Ascii(s: string): (t: seq<Byte>)
    ensures |t| == |s|
  {
    seq(|s|, i requires 0 <= i < |s| => if s[i] as int < 256 then s[i] as int else 63)
  }

  // ---------------------------------------------------------------- copying a field

  // A C string cut to fit a field of `cap` bytes with its terminator.
  function Truncate(t: seq<Byte>, cap: nat): (r: seq<Byte>)
    requires cap > 0
    ensures |r| < cap && r <= CString(t) && 0 !in r
    ensures |CString(t)| < cap ==> r == CString(t)
  {
    var c := CString(t);
    if |c| >= cap then c[..cap - 1] else c
  }

  // copy_field: afterwards the destination reads as the truncated string; a missing source reads as empty.
  method CopyField(dst: array<Byte>, src: Option<seq<Byte>>)
    modifies dst
    ensures dst.Length == 0 || CString(dst[..]) == (if src.Some? then Truncate(src.value, dst.Length) else [])
  {
    if dst.Length == 0 {
      return;
    }
    if src.None? {
      dst[0] := 0;
      return;
    }
    hide CString;
    var n := 0;
    while n < |src.value| && src.value[n] != 0
      invariant n <= |src.value|
      invariant forall i :: 0 <= i < n ==> src.value[i] != 0
    {
      n := n + 1;
    }
    CStringIs(src.value, n);
    if n >= dst.Length {
      n := dst.Length - 1;
    }
    forall i | 0 <= i < n {
      dst[i] := src.value[i];
    }
    dst[n] := 0;
    CStringIs(dst[..], n);
    assert dst[..][..n] == src.value[..n];
  }

  // The bytes before the first NUL are the C string.
  lemma {:induction false} CStringIs(t: seq<Byte>, n: nat)
    requires n <= |t| && forall i :: 0 <= i < n ==> t[i] != 0
    ensures t[..n] <= CString(t)
    ensures n == |t| || t[n] == 0 ==> CString(t) == t[..n]
    decreases n
  {
    if n > 0 {
      CStringIs(t[1..], n - 1);
      assert t[..n] == [t[0]] + t[1..][..n - 1];
    }
  }

  // ---------------------------------------------------------------- looking fields up

  // The first member with the given name, names compared as C strings; nothing but an object has any.
  function Lookup(v: Json, name: seq<Byte>): (r: Option<Json>)
    requires 0 !in name
    ensures r.Some? ==> v.Obj?
  {
    if v.Obj? && FirstMember(v.members, name, 0) < |v.members| then
      Some(v.members[FirstMember(v.members, name, 0)].value)
    else None
  }

  function FirstMember(members: seq<Member>, name: seq<Byte>, from: nat): (i: nat)
    requires from <= |members|
    ensures from <= i <= |members|
    ensures i < |members| ==> CString(members[i].key) == name
    ensures forall j :: from <= j < i ==> CString(members[j].key) != name
    decreases |members| - from
  {
    if from < |members| && CString(members[from].key) != name then FirstMember(members, name, from + 1) else from
  }

  // get_object_item: along the children until the name matches or a child has none.
  method FindMember(node: Item, name: seq<Byte>, ghost v: Json) returns (r: Item?)
    requires Holds(node, v) && 0 !in name
    ensures r == null <==> Lookup(v, name).None?
    ensures r != null ==> Holds(r, Lookup(v, name).value)
  {
    hide CString;
    ghost var kids := if v.Arr? || v.Obj? then node.kids else [];
    ghost var i := 0;
    var current := node.child;
    while current != null && current.key.Some? && CString(current.key.value) != name
      invariant i <= |kids| && current == if i < |kids| then kids[i] else null
      invariant v.Arr? ==> i == 0
      invariant v.Obj? ==> FirstMember(v.members, name, 0) == FirstMember(v.members, name, i)
      decreases |kids| - i
    {
      current := current.next;
      i := i + 1;
    }
    if current == null || current.key.None? {
      return null;
    }
    return current;
  }

  // A string field's text.
  function TextField(v: Json, name: seq<Byte>): (r: Option<seq<Byte>>)
    requires 0 !in name
  {
    var f := Lookup(v, name);
    if f.Some? && f.value.Str? then Some(f.value.text) else None
  }

  const DEVICE_ID: string := "device_id"
  const MODEL: string := "model"
  const FW_VERSION: string := "fw_version"
  const BUILD_DATE: string := "build_date"
  const PORTS: string := "ports"
  const NAME: string := "name"

  // Every named port of a list.
  function AllPortNames(items: seq<Json>): (names: seq<seq<Byte>>) {
    if items == [] then []
    else
      var name := TextField(items[0], Key(NAME));
      (if name.Some? then [Truncate(name.value, PORT_NAME_LEN)] else []) + AllPortNames(items[1..])
  }

  // A field name as bytes.
  function Key(s: string): (t: seq<Byte>)
    ensures 0 !in t
  {
    CString(Ascii(s))
  }

  function PortNames(root: Json): (names: seq<seq<Byte>>)
    ensures |names| <= MAX_PORTS
  {
    var ports := Lookup(root, Key(PORTS));
    if ports.None? || !ports.value.Arr? then []
    else
      var names := AllPortNames(ports.value.items);
      if |names| <= MAX_PORTS then names else names[..MAX_PORTS]
  }

  // What a parsed tree registers: four strings are required, the ports are not.
  function ReadInfo(root: Json): (r: Option<Info>)
    ensures r.Some? ==> |r.value.deviceId| < DEVICE_ID_LEN && |r.value.portNames| <= MAX_PORTS
  {
    var id, model := TextField(root, Key(DEVICE_ID)), TextField(root, Key(MODEL));
    var fw, date := TextField(root, Key(FW_VERSION)), TextField(root, Key(BUILD_DATE));
    if id.None? || model.None? || fw.None? || date.None? then None
    else
      Some(Info(Truncate(id.value, DEVICE_ID_LEN), Truncate(model.value, MODEL_LEN),
                Truncate(fw.value, FW_VERSION_LEN), Truncate(date.value, BUILD_DATE_LEN), PortNames(root)))
  }

  // What a payload registers, if it is well formed.
  function RegisterInfo(payload: seq<Byte>): (r: Option<Info>)
    ensures r.Some? ==> |r.value.deviceId| < DEVICE_ID_LEN && |r.value.portNames| <= MAX_PORTS
  {
    if |payload| == 0 || |payload| > MAX_JSON then None
    else
      match JsonGrammar.Parse(payload)
      case Fail(_) => None
      case Ok(root, _) => ReadInfo(root)
  }

  // A client may print its registration either way: what gets registered depends on the tree alone, as long as
  // the text fits and the nesting is within the parser's limit; otherwise nothing does.
  lemma PrintedRegistration(v: Json, format: bool)
    requires Plain(v)
    ensures RegisterInfo(Render(v, format, 0)) ==
            if |Render(v, format, 0)| <= MAX_JSON && Nesting(v) <= NESTING_LIMIT then ReadInfo(Cut(v))
            else None
  {
    JsonRoundTrip.RenderHead(v, format, 0);
    JsonRoundTrip.PrintThenParse(v, format);
    hide Render, Nesting, Cut, Plain, ReadInfo, JsonGrammar.Parse;
  }

  // ---------------------------------------------------------------- what that means, field by field

  // Member i is the first of that name, and a string.
  predicate FirstString(v: Json, name: seq<Byte>, i: int) {
    && v.Obj? && 0 <= i < |v.members| && CString(v.members[i].key) == name && v.members[i].value.Str?
    && forall j :: 0 <= j < i ==> CString(v.members[j].key) != name
  }

  // A stored field: the C string, or its first `most` bytes when it is longer.
  predicate Stored(field: seq<Byte>, text: seq<Byte>, most: nat) {
    field == if |CString(text)| <= most then CString(text) else CString(text)[..most]
  }

  lemma TextFieldMeans(v: Json, name: seq<Byte>)
    requires 0 !in name
    ensures TextField(v, name).Some? <==> exists i :: FirstString(v, name, i)
    ensures forall i :: FirstString(v, name, i) ==> TextField(v, name) == Some(v.members[i].value.text)
  {
    if v.Obj? {
      var f := FirstMember(v.members, name, 0);
      hide FirstMember, CString;
      forall i | FirstString(v, name, i) ensures i == f {
      }
      if TextField(v, name).Some? {
        assert FirstString(v, name, f);
      }
    }
  }

  lemma KeyBytes()
    ensures Key(DEVICE_ID) == [100, 101, 118, 105, 99, 101, 95, 105, 100]
    ensures Key(MODEL) == [109, 111, 100, 101, 108]
    ensures Key(FW_VERSION) == [102, 119, 95, 118, 101, 114, 115, 105, 111, 110]
    ensures Key(BUILD_DATE) == [98, 117, 105, 108, 100, 95, 100, 97, 116, 101]
    ensures Key(PORTS) == [112, 111, 114, 116, 115]
    ensures Key(NAME) == [110, 97, 109, 101]
  {
    hide CString;
    assert Ascii(DEVICE_ID) == [100, 101, 118, 105, 99, 101, 95, 105, 100];
    assert Ascii(MODEL) == [109, 111, 100, 101, 108];
    assert Ascii(FW_VERSION) == [102, 119, 95, 118, 101, 114, 115, 105, 111, 110];
    assert Ascii(BUILD_DATE) == [98, 117, 105, 108, 100, 95, 100, 97, 116, 101];
    assert Ascii(PORTS) == [112, 111, 114, 116, 115];
    assert Ascii(NAME) == [110, 97, 109, 101];
  }

  lemma TruncateMeans(text: seq<Byte>, cap: nat)
    requires cap > 0
    ensures Stored(Truncate(text, cap), text, cap - 1)
  {
    hide CString;
  }

  // A payload is accepted exactly when it has 1 to 4096 bytes, parses, and has a string first under each of
  // device_id, model, fw_version and build_date.
  lemma RegistersWhen(payload: seq<Byte>)
    ensures RegisterInfo(payload).Some? <==>
            && 1 <= |payload| <= 4096 && JsonGrammar.Parse(payload).Ok?
            && var v := JsonGrammar.Parse(payload).value;
               && (exists i :: FirstString(v, [100, 101, 118, 105, 99, 101, 95, 105, 100], i))
               && (exists i :: FirstString(v, [109, 111, 100, 101, 108], i))
               && (exists i :: FirstString(v, [102, 119, 95, 118, 101, 114, 115, 105, 111, 110], i))
               && (exists i :: FirstString(v, [98, 117, 105, 108, 100, 95, 100, 97, 116, 101], i))
  {
    hide JsonGrammar.Parse, FirstString, TextField, Truncate, PortNames, Key;
    KeyBytes();
    if JsonGrammar.Parse(payload).Ok? {
      var v := JsonGrammar.Parse(payload).value;
      TextFieldMeans(v, Key(DEVICE_ID));
      TextFieldMeans(v, Key(MODEL));
      TextFieldMeans(v, Key(FW_VERSION));
      TextFieldMeans(v, Key(BUILD_DATE));
    }
  }

  // Each field is stored from the member of its own name, cut to its own size.
  lemma RegisteredFields(payload: seq<Byte>, i: int)
    requires RegisterInfo(payload).Some?
    ensures var info, v := RegisterInfo(payload).value, JsonGrammar.Parse(payload).value;
            && (FirstString(v, [100, 101, 118, 105, 99, 101, 95, 105, 100], i) ==> Stored(info.deviceId, v.members[i].value.text, 63))
            && (FirstString(v, [109, 111, 100, 101, 108], i) ==> Stored(info.model, v.members[i].value.text, 31))
            && (FirstString(v, [102, 119, 95, 118, 101, 114, 115, 105, 111, 110], i) ==> Stored(info.fwVersion, v.members[i].value.text, 15))
            && (FirstString(v, [98, 117, 105, 108, 100, 95, 100, 97, 116, 101], i) ==> Stored(info.buildDate, v.members[i].value.text, 15))
  {
    hide JsonGrammar.Parse, FirstString, TextField, Truncate, PortNames, Key, Stored;
    KeyBytes();
    var v := JsonGrammar.Parse(payload).value;
    FieldStored(v, Key(DEVICE_ID), DEVICE_ID_LEN, i);
    FieldStored(v, Key(MODEL), MODEL_LEN, i);
    FieldStored(v, Key(FW_VERSION), FW_VERSION_LEN, i);
    FieldStored(v, Key(BUILD_DATE), BUILD_DATE_LEN, i);
  }

  lemma FieldStored(v: Json, name: seq<Byte>, cap: nat, i: int)
    requires 0 !in name && cap > 0
    ensures FirstString(v, name, i) && TextField(v, name).Some? ==>
              FirstString(v, name, i) && v.Obj? && 0 <= i < |v.members| && v.members[i].value.Str?
              && Stored(Truncate(TextField(v, name).value, cap), v.members[i].value.text, cap - 1)
  {
    hide TextField, Truncate, Stored;
    TextFieldMeans(v, name);
    if FirstString(v, name, i) {
      TruncateMeans(v.members[i].value.text, cap);
    }
  }

  // Member i is the first under "ports", and a list.
  predicate FirstPorts(v: Json, i: int) {
    && v.Obj? && 0 <= i < |v.members| && CString(v.members[i].key) == [112, 111, 114, 116, 115] && v.members[i].value.Arr?
    && forall j :: 0 <= j < i ==> CString(v.members[j].key) != [112, 111, 114, 116, 115]
  }

  // `at` lists, in order, items that have a string first under "name"; the names are theirs, cut to 31 bytes.
  ghost predicate NamesAt(names: seq<seq<Byte>>, items: seq<Json>, at: seq<nat>) {
    && |at| == |names|
    && (forall k, l :: 0 <= k < l < |at| ==> at[k] < at[l])
    && forall k :: 0 <= k < |at| ==> at[k] < |items| && ItemNamed(items[at[k]], names[k])
  }

  ghost predicate ItemNamed(item: Json, name: seq<Byte>) {
    exists i :: FirstString(item, [110, 97, 109, 101], i) && Stored(name, item.members[i].value.text, 31)
  }

  ghost predicate HasName(item: Json) {
    exists i :: FirstString(item, [110, 97, 109, 101], i)
  }

  // The port names are those of the first eight named items of the first "ports", if that is a list.
  lemma RegisteredPorts(payload: seq<Byte>, p: int) returns (at: seq<nat>)
    requires RegisterInfo(payload).Some?
    ensures var names, v := RegisterInfo(payload).value.portNames, JsonGrammar.Parse(payload).value;
            && (FirstPorts(v, p) ==>
                  && NamesAt(names, v.members[p].value.items, at) && |names| <= 8
                  && forall k :: 0 <= k < |v.members[p].value.items| && HasName(v.members[p].value.items[k]) ==>
                       k in at || (|at| == 8 && at[7] < k))
            && ((forall i :: !FirstPorts(v, i)) ==> names == [])
  {
    hide JsonGrammar.Parse, TextField, Truncate, Key, AllPortNames;
    KeyBytes();
    var v := JsonGrammar.Parse(payload).value;
    LookupPorts(v);
    at := [];
    if FirstPorts(v, p) {
      var items := v.members[p].value.items;
      var all := AllNamesAt(items);
      var names := AllPortNames(items);
      at := if |all| <= 8 then all else all[..8];
      FirstEight(names, items, all);
    }
  }

  lemma LookupPorts(v: Json)
    ensures forall i :: FirstPorts(v, i) ==> Lookup(v, Key(PORTS)) == Some(v.members[i].value)
    ensures (forall i :: !FirstPorts(v, i)) ==> Lookup(v, Key(PORTS)).None? || !Lookup(v, Key(PORTS)).value.Arr?
  {
    KeyBytes();
    if v.Obj? {
      var f := FirstMember(v.members, Key(PORTS), 0);
      hide FirstMember, CString, Key;
      forall i | FirstPorts(v, i) ensures i == f {
      }
      if f < |v.members| && v.members[f].value.Arr? {
        assert FirstPorts(v, f);
      }
    }
  }

  // No named item is passed over.
  ghost predicate Covers(items: seq<Json>, at: seq<nat>) {
    forall k :: 0 <= k < |items| && HasName(items[k]) ==> k in at
  }

  lemma {:induction false} AllNamesAt(items: seq<Json>) returns (at: seq<nat>)
    ensures NamesAt(AllPortNames(items), items, at) && Covers(items, at)
    decreases |items|
  {
    hide HasName, ItemNamed, TextField, Truncate, Key;
    at := [];
    if items != [] {
      var rest := AllNamesAt(items[1..]);
      hide NamesAt, Covers, AllPortNames;
      NextNames(items);
      ItemNameMeans(items[0]);
      PushUp(AllPortNames(items[1..]), items, rest);
      NamedIn(items, rest);
      at := OneUp(rest);
      var name := TextField(items[0], Key(NAME));
      if name.Some? {
        PutFirst(AllPortNames(items[1..]), items, at, Truncate(name.value, 32));
        at := [0] + at;
      }
    }
  }

  lemma NextNames(items: seq<Json>)
    requires items != []
    ensures var name := TextField(items[0], Key(NAME));
            AllPortNames(items) ==
              if name.Some? then [Truncate(name.value, 32)] + AllPortNames(items[1..]) else AllPortNames(items[1..])
  {
    hide TextField, Key, Truncate;
  }

  function OneUp(at: seq<nat>): (up: seq<nat>)
    ensures |up| == |at| && forall i :: 0 <= i < |at| ==> up[i] == at[i] + 1
    ensures forall k: nat :: k in at ==> k + 1 in up
  {
    if at == [] then [] else [at[0] + 1] + OneUp(at[1..])
  }

  lemma PushUp(names: seq<seq<Byte>>, items: seq<Json>, rest: seq<nat>)
    requires items != [] && NamesAt(names, items[1..], rest)
    ensures NamesAt(names, items, OneUp(rest))
  {
    hide ItemNamed;
    var up := OneUp(rest);
    forall k | 0 <= k < |up| ensures up[k] < |items| && ItemNamed(items[up[k]], names[k]) {
      assert items[1..][rest[k]] == items[up[k]];
    }
  }

  lemma PutFirst(names: seq<seq<Byte>>, items: seq<Json>, up: seq<nat>, name: seq<Byte>)
    requires NamesAt(names, items, up) && (forall i :: 0 <= i < |up| ==> 0 < up[i])
    requires items != [] && ItemNamed(items[0], name)
    ensures NamesAt([name] + names, items, [0] + up)
  {
    hide ItemNamed;
    var at, all := [0] + up, [name] + names;
    assert forall k :: 0 < k < |at| ==> at[k] == up[k - 1] && all[k] == names[k - 1];
  }

  lemma NamedIn(items: seq<Json>, rest: seq<nat>)
    requires items != [] && Covers(items[1..], rest)
    ensures Covers(items, [0] + OneUp(rest))
    ensures !HasName(items[0]) ==> Covers(items, OneUp(rest))
  {
    hide HasName;
    forall k | 0 < k < |items| && HasName(items[k]) ensures k in OneUp(rest) {
      assert items[1..][k - 1] == items[k];
    }
  }

  lemma ItemNameMeans(item: Json)
    ensures TextField(item, Key(NAME)).Some? ==> ItemNamed(item, Truncate(TextField(item, Key(NAME)).value, 32))
    ensures HasName(item) ==> TextField(item, Key(NAME)).Some?
  {
    hide TextField, Truncate, FirstString, Key;
    KeyBytes();
    TextFieldMeans(item, Key(NAME));
    if TextField(item, Key(NAME)).Some? {
      var i :| FirstString(item, Key(NAME), i);
      FieldStored(item, Key(NAME), 32, i);
    }
  }

  lemma FirstEight(names: seq<seq<Byte>>, items: seq<Json>, all: seq<nat>)
    requires NamesAt(names, items, all)
    requires Covers(items, all)
    ensures var at := if |all| <= 8 then all else all[..8];
            && NamesAt(if |names| <= 8 then names else names[..8], items, at)
            && forall k :: 0 <= k < |items| && HasName(items[k]) ==> k in at || (|at| == 8 && at[7] < k)
  {
    hide HasName, ItemNamed;
    var at := if |all| <= 8 then all else all[..8];
    forall k | 0 <= k < |items| && HasName(items[k]) ensures k in at || (|at| == 8 && at[7] < k) {
      var i :| 0 <= i < |all| && all[i] == k;
      if i < |at| {
        assert at[i] == k;
      }
    }
  }

  // ---------------------------------------------------------------- as it runs

  // The loop over the children of "ports": it stops at eight names and passes over items without one.
  method TakePortNames(ports: Item, ghost items: seq<Json>) returns (names: seq<seq<Byte>>)
    requires Holds(ports, Arr(items))
    ensures names == if |AllPortNames(items)| <= MAX_PORTS then AllPortNames(items) else AllPortNames(items)[..MAX_PORTS]
  {
    hide AllPortNames, Truncate, Key, CString, TextField;
    names := [];
    ghost var i := 0;
    assert items[0..] == items;
    var current := ports.child;
    while current != null
      invariant i <= |items| && |names| <= MAX_PORTS && current == if i < |items| then ports.kids[i] else null
      invariant AllPortNames(items) == names + AllPortNames(items[i..])
      decreases |items| - i
    {
      NextPort(names, items, i);
      if |names| >= MAX_PORTS {
        return;
      }
      var name := ReadText(current, Key(NAME), items[i]);
      if name.Some? {
        var field := StoreField(name.value, PORT_NAME_LEN);
        names := names + [field];
      }
      current := current.next;
      i := i + 1;
    }
    NoPorts(items);
  }

  lemma NextPort(names: seq<seq<Byte>>, items: seq<Json>, i: nat)
    requires i < |items|
    ensures var name, rest := TextField(items[i], Key(NAME)), AllPortNames(items[i + 1..]);
            names + AllPortNames(items[i..]) ==
              if name.Some? then names + [Truncate(name.value, PORT_NAME_LEN)] + rest else names + rest
  {
    hide Truncate, Key, TextField;
    assert items[i..][1..] == items[i + 1..];
  }

  lemma NoPorts(items: seq<Json>)
    ensures AllPortNames(items[|items|..]) == []
  {
  }

  // json_str: the text of a string member.
  method ReadText(node: Item, name: seq<Byte>, ghost v: Json) returns (r: Option<seq<Byte>>)
    requires Holds(node, v) && 0 !in name
    ensures r == TextField(v, name)
  {
    var f := FindMember(node, name, v);
    return if f != null && f.data.Str? then Some(f.data.text) else None;
  }

  method ParseRegister(payload: seq<Byte>) returns (r: Option<Info>)
    ensures r == RegisterInfo(payload)
  {
    hide Truncate, AllPortNames, Key, TextField;
    if |payload| <= 0 || |payload| > MAX_JSON {
      return None;
    }
    var parsed := JsonParser.ParseBytes(CString(payload) + [0], false);
    if parsed.Fail? {
      return None;
    }
    r := ReadRegistration(parsed.value, JsonGrammar.Parse(payload).value);
  }

  method ReadRegistration(root: Item, ghost v: Json) returns (r: Option<Info>)
    requires Holds(root, v)
    ensures r == ReadInfo(v)
  {
    hide Truncate, PortNames, Key, TextField, CString, Holds;
    var id := ReadText(root, Key(DEVICE_ID), v);
    var model := ReadText(root, Key(MODEL), v);
    var fw := ReadText(root, Key(FW_VERSION), v);
    var date := ReadText(root, Key(BUILD_DATE), v);
    if id.None? || model.None? || fw.None? || date.None? {
      return None;
    }
    var idField := StoreField(id.value, DEVICE_ID_LEN);
    var modelField := StoreField(model.value, MODEL_LEN);
    var fwField := StoreField(fw.value, FW_VERSION_LEN);
    var dateField := StoreField(date.value, BUILD_DATE_LEN);
    var names := ReadPorts(root, v);
    return Some(Info(idField, modelField, fwField, dateField, names));
  }

  method ReadPorts(root: Item, ghost v: Json) returns (names: seq<seq<Byte>>)
    requires Holds(root, v)
    ensures names == PortNames(v)
  {
    hide AllPortNames, Key;
    names := [];
    var ports := FindMember(root, Key(PORTS), v);
    if ports != null && ports.data.Arr? {
      names := TakePortNames(ports, Lookup(v, Key(PORTS)).value.items);
    }
  }

  // What a field of the entry reads as once copy_field has filled it.
  method StoreField(text: seq<Byte>, cap: nat) returns (kept: seq<Byte>)
    requires cap > 0
    ensures kept == Truncate(text, cap)
  {
    var field := new Byte[cap];
    CopyField(field, Some(text));
    return CString(field[..]);
  }
}
