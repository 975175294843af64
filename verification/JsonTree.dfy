/**
 * Parsed values as linked nodes (routerd/3rdparty/cjson/cJSON.c:1522-1571, 1682-1754, 1936-1966): what it means
 * for a node to hold a value, how a tree grows while it is parsed, and how members are looked up in it.
 */
module JsonTree {
  import opened Bytes
  import opened JsonText
  import opened SiblingList

  // ---------------------------------------------------------------- what a node holds

  // The children hang under the item, each with its own nodes below it.
  ghost predicate Hangs(item: Item)
    reads item`child, item`kids, item`below, item.below
  {
    && item !in item.below
    && (forall i :: 0 <= i < |item.kids| ==> item.kids[i] in item.below)
    && Children(item, item.kids)
    && Separate(item.kids, item.below)
  }

  // The nodes and what is below them lie in the region, and no two of them share a node.
  ghost predicate Separate(nodes: seq<Item>, region: set<Item>)
    reads nodes`below
  {
    && (forall i :: 0 <= i < |nodes| ==> nodes[i] in region && nodes[i].below <= region)
    && (forall i, j :: 0 <= i < |nodes| && 0 <= j < |nodes| ==> nodes[i] !in nodes[j].below)
    && (forall i, j :: 0 <= i < j < |nodes| ==> nodes[i].below !! nodes[j].below)
  }

  // The node and the tree below it are the value.
  ghost predicate Holds(item: Item, v: Json)
    reads item`child, item`data, item`kids, item`below, item.below
    decreases v
  {
    match v
    case Arr(vs) =>
      && Hangs(item) && item.data == Arr([]) && |item.kids| == |vs|
      && forall i :: 0 <= i < |vs| ==> item.kids[i].key == None && Holds(item.kids[i], vs[i])
    case Obj(ms) =>
      && Hangs(item) && item.data == Obj([]) && |item.kids| == |ms|
      && forall i :: 0 <= i < |ms| ==> item.kids[i].key == Some(ms[i].key) && Holds(item.kids[i], ms[i].value)
    case _ => item.data == v && item.child == null && item.below == {}
  }

  // A node holds one value at most: the tree determines it.
  lemma {:induction false} HoldsOne(item: Item, v: Json, w: Json)
    requires Holds(item, v) && Holds(item, w)
    ensures v == w
    decreases v
  {
    if v.Arr? {
      forall i | 0 <= i < |v.items| ensures v.items[i] == w.items[i] {
        HoldsOne(item.kids[i], v.items[i], w.items[i]);
      }
    } else if v.Obj? {
      forall i | 0 <= i < |v.members| ensures v.members[i] == w.members[i] {
        HoldsOne(item.kids[i], v.members[i].value, w.members[i].value);
      }
    }
  }

  // ---------------------------------------------------------------- a list of nodes under construction

  // The nodes of a list while it is parsed, the names and values they hold, and all nodes there and below.
  datatype List = List(nodes: seq<Item>, keys: seq<Option<seq<Byte>>>, values: seq<Json>, region: set<Item>)

  ghost function Plus(g: List, item: Item, v: Json): List
    reads item`key, item`below
  {
    List(g.nodes + [item], g.keys + [item.key], g.values + [v], g.region + {item} + item.below)
  }

  // Chained so far, the head's `prev` and the last one's `next` still open; every node holds its value.
  ghost predicate Chained(head: Item?, current: Item?, g: List)
    reads g.region
  {
    && |g.nodes| == |g.keys| == |g.values|
    && (forall i :: 0 <= i < |g.nodes| ==> g.nodes[i] in g.region)
    && (forall i, j :: 0 <= i < j < |g.nodes| ==> g.nodes[i] != g.nodes[j])
    && (forall i {:trigger g.nodes[i].next} :: 0 <= i < |g.nodes| - 1 ==> g.nodes[i].next == g.nodes[i + 1])
    && (forall i {:trigger g.nodes[i].prev} :: 0 < i < |g.nodes| ==> g.nodes[i].prev == g.nodes[i - 1])
    && Separate(g.nodes, g.region)
    && (forall i :: 0 <= i < |g.nodes| ==> g.nodes[i].key == g.keys[i] && Holds(g.nodes[i], g.values[i]))
    && (if g.nodes == [] then head == null && current == null
        else head == g.nodes[0] && current == g.nodes[|g.nodes| - 1])
  }

  // Between two turns of the loop.
  ghost predicate Growing(head: Item?, current: Item?, g: List)
    reads g.region
  {
    Chained(head, current, g) && (g.nodes != [] ==> g.nodes[|g.nodes| - 1].next == null)
  }

  // Within a turn: the next node hangs behind the last one.
  ghost predicate Linked(head: Item?, current: Item?, item: Item, g: List)
    reads g.region, item`prev
  {
    && Chained(head, current, g)
    && (g.nodes != [] ==> g.nodes[|g.nodes| - 1].next == item && item.prev == current)
  }

  lemma NothingGrown()
    ensures Growing(null, null, List([], [], [], {}))
  {
  }

  // A new node is hung behind the last one before it is filled.
  method Link(head: Item?, current: Item?, item: Item, ghost g: List)
    requires Growing(head, current, g) && item !in g.region
    modifies g.region`next, item`prev
    ensures Linked(head, current, item, g)
  {
    hide Holds;
    if head != null {
      current.next := item;
      item.prev := current;
    }
  }

  // Once it holds its value it belongs to the list.
  lemma Extend(head: Item?, current: Item?, g: List, item: Item, v: Json)
    requires Linked(head, current, item, g) && Holds(item, v) && item.next == null
    requires item !in g.region && item !in item.below && item.below !! g.region
    ensures Growing(if head == null then item else head, item, Plus(g, item, v))
  {
    hide Holds;
  }

  // The finished list is hung under its parent.
  method Close(parent: Item, head: Item?, current: Item?, ghost g: List)
    requires Growing(head, current, g) && parent !in g.region
    modifies g.region`prev, parent`child, parent`kids, parent`below
    ensures parent.kids == g.nodes && parent.below == g.region && Hangs(parent)
    ensures |g.nodes| == |g.keys| == |g.values|
    ensures forall i :: 0 <= i < |g.nodes| ==> g.nodes[i].key == g.keys[i] && Holds(g.nodes[i], g.values[i])
  {
    hide Holds;
    if head != null {
      head.prev := current;
    }
    parent.child := head;
    parent.kids, parent.below := g.nodes, g.region;
  }

  // ---------------------------------------------------------------- arrays and objects

  function Keyless(n: nat): (k: seq<Option<seq<Byte>>>) {
    seq(n, _ => None)
  }

  function Keys(members: seq<Member>): (k: seq<Option<seq<Byte>>>) {
    seq(|members|, i requires 0 <= i < |members| => Some(members[i].key))
  }

  function Values(members: seq<Member>): (v: seq<Json>) {
    seq(|members|, i requires 0 <= i < |members| => members[i].value)
  }

  lemma EmptyHolds(item: Item)
    requires item.child == null && item.kids == [] && item.below == {}
    ensures item.data == Arr([]) ==> Holds(item, Arr([]))
    ensures item.data == Obj([]) ==> Holds(item, Obj([]))
  {
  }

  lemma OneMore(members: seq<Member>, m: Member)
    ensures Keys(members + [m]) == Keys(members) + [Some(m.key)]
    ensures Values(members + [m]) == Values(members) + [m.value]
  {
  }

  // An array or object holds its value once its list is hung under it.
  method CloseArray(parent: Item, head: Item?, current: Item?, ghost g: List, ghost items: seq<Json>)
    requires Growing(head, current, g) && parent !in g.region
    requires g.values == items && g.keys == Keyless(|items|)
    modifies g.region`prev, parent`data, parent`child, parent`kids, parent`below
    ensures Holds(parent, Arr(items)) && parent.below == g.region
  {
    parent.data := Arr([]);
    Close(parent, head, current, g);
  }

  method CloseObject(parent: Item, head: Item?, current: Item?, ghost g: List, ghost members: seq<Member>)
    requires Growing(head, current, g) && parent !in g.region
    requires g.values == Values(members) && g.keys == Keys(members)
    modifies g.region`prev, parent`data, parent`child, parent`kids, parent`below
    ensures Holds(parent, Obj(members)) && parent.below == g.region
  {
    parent.data := Obj([]);
    Close(parent, head, current, g);
  }

  // ---------------------------------------------------------------- walking along

  lemma FirstChild(parent: Item, v: Json)
    requires Holds(parent, v) && (v.Arr? || v.Obj?)
    ensures |parent.kids| == if v.Arr? then |v.items| else |v.members|
    ensures parent.child == if parent.kids == [] then null else parent.kids[0]
  {
  }

  lemma ArrayChild(parent: Item, items: seq<Json>, i: nat)
    requires Holds(parent, Arr(items)) && i < |items|
    ensures |parent.kids| == |items| && parent.kids[i].key == None && Holds(parent.kids[i], items[i])
    ensures parent.kids[i].next == if i + 1 < |items| then parent.kids[i + 1] else null
  {
  }

  lemma ObjectChild(parent: Item, members: seq<Member>, i: nat)
    requires Holds(parent, Obj(members)) && i < |members|
    ensures |parent.kids| == |members| && parent.kids[i].key == Some(members[i].key)
    ensures Holds(parent.kids[i], members[i].value)
    ensures parent.kids[i].next == if i + 1 < |members| then parent.kids[i + 1] else null
  {
  }
}
