/**
 * The sibling lists under arrays and objects (routerd/3rdparty/cjson/cJSON.c:1907-1924, 1984-2043, 2243-2277,
 * 2319-2400): `next` chains ended by null whose head's `prev` is the tail.
 * Each operation is proved against the matching operation on the sequence of children.
 */
module SiblingList {
  import opened Bytes
  import opened JsonText

  // A node: its links, its name inside an object, and its own value, which for an array or an object is the
  // type alone. The ghost fields list its children and all nodes below it in a parsed tree.
  class Item {
    var next: Item?
    var prev: Item?
    var child: Item?
    var key: Option<seq<Byte>>
    var data: Json
    ghost var kids: seq<Item>
    ghost var below: set<Item>

    constructor ()
      ensures next == null && prev == null && child == null
      ensures key == None && data == Null && kids == [] && below == {}
    {
      next, prev, child := null, null, null;
      key, data := None, Null;
      kids, below := [], {};
    }
  }

  // `items` are the children of `parent`, in order.
  ghost predicate Children(parent: Item, items: seq<Item>)
    reads parent`child, items`next, items`prev
  {
    && parent !in items
    && (forall i, j :: 0 <= i < j < |items| ==> items[i] != items[j])
    && parent.child == (if items == [] then null else items[0])
    && (forall i {:trigger items[i].next} :: 0 <= i < |items| ==> items[i].next == NextOf(items, i))
    && (forall i {:trigger items[i].prev} :: 0 <= i < |items| ==> items[i].prev == PrevOf(items, i))
  }

  ghost function NextOf(items: seq<Item>, i: nat): Item?
    requires i < |items|
  {
    if i + 1 < |items| then items[i + 1] else null
  }

  ghost function PrevOf(items: seq<Item>, i: nat): Item?
    requires i < |items|
  {
    if i > 0 then items[i - 1] else items[|items| - 1]
  }

  ghost function Only(item: Item?): (s: set<Item>)
    ensures item != null ==> s == {item}
  {
    if item == null then {} else {item}
  }

  // Walking `next` from the first child reaches each child once and then null: the chain has no cycle.
  ghost function Walk(parent: Item, items: seq<Item>, steps: nat): (at: Item?)
    requires Children(parent, items)
    reads parent`child, items`next, items`prev
    ensures at == if steps < |items| then items[steps] else null
  {
    if steps == 0 then parent.child
    else
      var before := Walk(parent, items, steps - 1);
      if before == null then null else before.next
  }

  method GetArrayItem(parent: Item?, index: nat, ghost items: seq<Item>) returns (r: Item?)
    requires parent != null ==> Children(parent, items)
    ensures r == if parent == null || index >= |items| then null else items[index]
  {
    if parent == null {
      return null;
    }
    var left := index;
    r := parent.child;
    ghost var at := 0;
    while r != null && left > 0
      invariant 0 <= at <= |items| && at + left == index
      invariant r == if at < |items| then items[at] else null
      decreases left
    {
      left := left - 1;
      r := r.next;
      at := at + 1;
    }
  }

  // Appending goes through the head's `prev`, without a walk. Behind a non-empty list neither is the item's own
  // `next` reset nor is it looked for in the list, so the list stays well formed exactly when that was null and
  // the item was not there yet. The tail appended to its own list becomes its own successor.
  method Append(parent: Item?, item: Item?, ghost items: seq<Item>) returns (ok: bool)
    requires parent != null ==> Children(parent, items)
    modifies Only(parent)`child, items`next, items`prev, Only(item)`next, Only(item)`prev
    ensures ok <==> parent != null && item != null && parent != item
    ensures ok ==>
              (Children(parent, items + [item]) <==> item !in items && (items == [] || old(item.next) == null))
    ensures ok && items != [] && item == items[|items| - 1] ==> item.next == item
    ensures !ok && parent != null ==> Children(parent, items)
  {
    if item == null || parent == null || parent == item {
      return false;
    }
    var child := parent.child;
    if child == null {
      parent.child := item;
      item.prev := item;
      item.next := null;
    } else {
      var last := child.prev;
      assert child == items[0] && last == items[|items| - 1];
      if last != null {
        last.next := item;
        item.prev := last;
        parent.child.prev := item;
      }
      ghost var all := items + [item];
      assert all[|items|] == item && NextOf(all, |items|) == null;
      assert Children(parent, all) ==> all[|items|].next == null;
      assert item in items ==> !Children(parent, all) by {
        if item in items {
          var i :| 0 <= i < |items| && items[i] == item;
          assert all[i] == all[|items|];
        }
      }
      assert forall i :: 0 <= i < |items| ==> all[i] == items[i];
    }
    return true;
  }

  // The links wanted once the k-th item is gone.
  lemma Without(items: seq<Item>, k: nat)
    requires k < |items|
    requires forall i, j :: 0 <= i < j < |items| ==> items[i] != items[j]
    ensures var rest := items[..k] + items[k + 1..];
            && (forall i, j :: 0 <= i < j < |rest| ==> rest[i] != rest[j])
            && (forall i {:trigger rest[i]} :: 0 <= i < |rest| ==> rest[i] == items[if i < k then i else i + 1])
            && (forall i {:trigger NextOf(rest, i)} :: 0 <= i < |rest| ==>
                  NextOf(rest, i) == NextOf(items, if i + 1 < k then i else i + 1))
            && (forall i {:trigger PrevOf(rest, i)} :: 0 < i < |rest| ==>
                  PrevOf(rest, i) == PrevOf(items, if i <= k then i else i + 1))
            && (|rest| > 0 ==> PrevOf(rest, 0) == if k + 1 == |items| then items[k - 1] else items[|items| - 1])
  {
    var rest := items[..k] + items[k + 1..];
    forall i | 0 <= i < |rest| ensures NextOf(rest, i) == NextOf(items, if i + 1 < k then i else i + 1) {
      if i + 1 < |rest| {
        assert rest[i + 1] == items[if i + 1 < k then i + 1 else i + 2];
      }
    }
    forall i | 0 < i < |rest| ensures PrevOf(rest, i) == PrevOf(items, if i <= k then i else i + 1) {
      assert rest[i - 1] == items[if i - 1 < k then i - 1 else i];
    }
  }

  // The links wanted once an item stands in front of the k-th.
  lemma With(items: seq<Item>, k: nat, item: Item)
    requires k < |items| && item !in items
    requires forall i, j :: 0 <= i < j < |items| ==> items[i] != items[j]
    ensures var all := items[..k] + [item] + items[k..];
            && all[k] == item
            && (forall i, j :: 0 <= i < j < |all| ==> all[i] != all[j])
            && (forall i {:trigger all[i]} :: 0 <= i < |all| && i != k ==> all[i] == items[if i < k then i else i - 1])
            && (forall i {:trigger NextOf(all, i)} :: 0 <= i < |all| ==>
                  NextOf(all, i) == if i + 1 < k then NextOf(items, i) else if i + 1 == k then item
                                    else if i == k then items[k] else NextOf(items, i - 1))
            && (forall i {:trigger PrevOf(all, i)} :: 0 <= i < |all| ==>
                  PrevOf(all, i) == if i == 0 then items[|items| - 1] else if i <= k then PrevOf(items, i)
                                    else if i == k + 1 then item else PrevOf(items, i - 1))
  {
    var all := items[..k] + [item] + items[k..];
    forall i | 0 <= i < |all|
      ensures NextOf(all, i) == if i + 1 < k then NextOf(items, i) else if i + 1 == k then item
                                else if i == k then items[k] else NextOf(items, i - 1)
    {
      if i + 1 < |all| {
        assert i + 1 != k ==> all[i + 1] == items[if i + 1 < k then i + 1 else i];
      }
    }
    forall i | 0 < i < |all|
      ensures PrevOf(all, i) == if i <= k then PrevOf(items, i)
                                else if i == k + 1 then item else PrevOf(items, i - 1)
    {
      assert i - 1 != k ==> all[i - 1] == items[if i - 1 < k then i - 1 else i - 2];
    }
  }

  // Two lists without a node in common; either parent may well be a node of the other list.
  ghost predicate Apart(parent: Item, items: seq<Item>, owner: Item, siblings: seq<Item>) {
    owner != parent && forall x :: x in siblings ==> x !in items
  }

  // Where an item handed in for detaching hangs: under the parent, under another owner, or nowhere.
  ghost predicate Hanging(parent: Item, items: seq<Item>, item: Item, owner: Item, siblings: seq<Item>, k: nat)
    reads parent`child, items`next, items`prev, owner`child, siblings`next, siblings`prev, item`prev
  {
    || (item !in items && item.prev == null)
    || (&& Children(owner, siblings) && k < |siblings| && siblings[k] == item
        && (if owner == parent then siblings == items else Apart(parent, items, owner, siblings)))
  }

  // The links of the list `nodes` after an item that stood between `before` and `after` was detached from the
  // parent whose first child was `first`.
  ghost predicate Unlinked(parent: Item, nodes: seq<Item>, item: Item, before: Item?, after: Item?, first: Item?)
    reads parent`child, nodes`next, nodes`prev, item`next, item`prev
  {
    && item.next == null && item.prev == null
    && parent.child == (if item == first then after else first)
    && (forall i {:trigger nodes[i].next} :: 0 <= i < |nodes| && nodes[i] != item ==>
          nodes[i].next == if item != first && nodes[i] == before then after else NextOf(nodes, i))
    && (forall i {:trigger nodes[i].prev} :: 0 <= i < |nodes| && nodes[i] != item ==>
          nodes[i].prev == if nodes[i] == after || (item != first && after == null && nodes[i] == first) then before
                           else PrevOf(nodes, i))
  }

  ghost predicate Distinct(items: seq<Item>) {
    forall i, j :: 0 <= i < j < |items| ==> items[i] != items[j]
  }

  lemma ChildGone(parent: Item, items: seq<Item>, item: Item, k: nat)
    requires Distinct(items) && parent !in items && k < |items| && items[k] == item
    requires Unlinked(parent, items, item, PrevOf(items, k), NextOf(items, k), items[0])
    ensures Children(parent, items[..k] + items[k + 1..])
  {
    Without(items, k);
  }

  // The parent's list when an item of another list is detached from it.
  lemma StrangerGone(parent: Item, items: seq<Item>, item: Item, before: Item?, after: Item?)
    requires Distinct(items) && parent !in items
    requires item !in items && before !in items && after !in items && (items == [] ==> after != null)
    requires Unlinked(parent, items, item, before, after, if items == [] then null else items[0])
    ensures Children(parent, items) <==> after != null
  {
    if after == null {
      assert items[0].prev == before && PrevOf(items, 0) in items;
    }
  }

  // The other list: its owner never hears of it.
  lemma SiblingGone(parent: Item, owner: Item, siblings: seq<Item>, item: Item, k: nat, first: Item?)
    requires Distinct(siblings) && owner !in siblings && k < |siblings| && siblings[k] == item
    requires owner.child == siblings[0] && first !in siblings
    requires Unlinked(parent, siblings, item, PrevOf(siblings, k), NextOf(siblings, k), first)
    ensures Children(owner, siblings[..k] + siblings[k + 1..]) <==> 0 < k && k + 1 < |siblings|
  {
    var rest := siblings[..k] + siblings[k + 1..];
    Without(siblings, k);
    if k == 0 {
      assert owner.child == item && item !in rest;
    } else if k + 1 == |siblings| {
      assert siblings[0] != siblings[k];
      assert siblings[0].prev == item && rest[0] == siblings[0] && item !in rest;
    }
  }

  // Detaching unlinks exactly the given child and leaves it pointing nowhere. An item that hangs nowhere is
  // refused. An item of another list is not: the parent's list survives exactly when it was not the last there,
  // and its own list loses it cleanly exactly when it was neither the first nor the last.
  method Detach(parent: Item?, item: Item?, ghost items: seq<Item>, ghost owner: Item, ghost siblings: seq<Item>,
                ghost k: nat) returns (r: Item?)
    requires parent != null ==> Children(parent, items)
    requires parent != null && item != null ==> Hanging(parent, items, item, owner, siblings, k)
    requires parent != null && item != null && item.prev != null && items == [] ==> k + 1 < |siblings|
    modifies Only(parent)`child, items`next, items`prev, siblings`next, siblings`prev
    ensures r == if parent != null && item != null && old(item.prev) != null then item else null
    ensures r == null && parent != null ==> Children(parent, items)
    ensures r != null ==> r.next == null && r.prev == null
    ensures r != null && owner == parent ==> Children(parent, items[..k] + items[k + 1..])
    ensures r != null && owner != parent ==>
              && (Children(parent, items) <==> k + 1 < |siblings|)
              && (Children(owner, siblings[..k] + siblings[k + 1..]) <==> 0 < k && k + 1 < |siblings|)
  {
    if parent == null || item == null || (item != parent.child && item.prev == null) {
      return null;
    }
    assert siblings[k] == item;
    assert item.next == NextOf(siblings, k) && item.prev == PrevOf(siblings, k);
    assert item != parent.child && owner == parent ==> k > 0 && item.prev == siblings[k - 1];
    if item != parent.child {
      item.prev.next := item.next;
    }
    if item.next != null {
      item.next.prev := item.prev;
    }
    if item == parent.child {
      parent.child := item.next;
    } else if item.next == null {
      parent.child.prev := item.prev;
    }
    item.prev := null;
    item.next := null;
    if owner == parent {
      ChildGone(parent, items, item, k);
    } else {
      StrangerGone(parent, items, item, PrevOf(siblings, k), NextOf(siblings, k));
      SiblingGone(parent, owner, siblings, item, k, if items == [] then null else items[0]);
    }
    return item;
  }

  // Inserting puts the item in front of position `which`; past the end it appends. Neither looks for the item in
  // the list.
  method Insert(parent: Item?, which: int, item: Item?, ghost items: seq<Item>) returns (ok: bool)
    requires parent != null ==> Children(parent, items)
    modifies Only(parent)`child, items`next, items`prev, Only(item)`next, Only(item)`prev
    ensures ok <==> which >= 0 && parent != null && item != null && (parent != item || which < |items|)
    ensures ok && which < |items| ==>
              (Children(parent, items[..which] + [item] + items[which..]) <==> item !in items && item != parent)
    ensures ok && which < |items| && item == items[which] ==> item.next == item
    ensures ok && which == 0 < |items| ==> parent.child == item
    ensures ok && which >= |items| ==>
              (Children(parent, items + [item]) <==> item !in items && (items == [] || old(item.next) == null))
    ensures !ok && parent != null ==> Children(parent, items)
  {
    if which < 0 || item == null {
      return false;
    }
    var after := GetArrayItem(parent, which, items);
    if after == null {
      ok := Append(parent, item, items);
      return;
    }
    if after != parent.child && after.prev == null {
      return false;
    }
    assert items[which] == after;
    assert after != parent.child ==> which > 0 && after.prev == items[which - 1];
    item.next := after;
    item.prev := after.prev;
    after.prev := item;
    if after == parent.child {
      parent.child := item;
    } else {
      item.prev.next := item;
    }
    if item !in items {
      With(items, which, item);
    } else {
      Twice(items, which, item);
    }
    return true;
  }

  lemma Twice(items: seq<Item>, k: nat, item: Item)
    requires k <= |items| && item in items
    ensures var all := items[..k] + [item] + items[k..];
            exists i, j :: 0 <= i < j < |all| && all[i] == all[j]
  {
    var all := items[..k] + [item] + items[k..];
    var i :| 0 <= i < |items| && items[i] == item;
    assert all[k] == item && all[if i < k then i else i + 1] == item;
    if i < k {
      assert all[i] == all[k];
    } else {
      assert all[k] == all[i + 1];
    }
  }

  // The links of the list `nodes` after an item that stood between `before` and `after` was replaced under the
  // parent whose first child was `first`.
  ghost predicate Relinked(parent: Item, nodes: seq<Item>, item: Item, replacement: Item, before: Item?, after: Item?,
                           first: Item?)
    reads parent`child, nodes`next, nodes`prev, item`next, item`prev, replacement`next, replacement`prev
  {
    && item.next == null && item.prev == null && replacement.next == after
    && replacement.prev == (if item == first && item == before then replacement else before)
    && parent.child == (if item == first then replacement else first)
    && (forall i {:trigger nodes[i].next} :: 0 <= i < |nodes| && nodes[i] != item ==>
          nodes[i].next == if item != first && nodes[i] == before then replacement else NextOf(nodes, i))
    && (forall i {:trigger nodes[i].prev} :: 0 <= i < |nodes| && nodes[i] != item ==>
          nodes[i].prev == if nodes[i] == after || (item != first && after == null && nodes[i] == first) then replacement
                           else PrevOf(nodes, i))
  }

  lemma ChildReplaced(parent: Item, items: seq<Item>, item: Item, replacement: Item, k: nat)
    requires Distinct(items) && parent !in items && k < |items| && items[k] == item
    requires replacement !in items && replacement != parent
    requires Relinked(parent, items, item, replacement, PrevOf(items, k), NextOf(items, k), items[0])
    ensures Children(parent, items[k := replacement])
  {
    var all := items[k := replacement];
    forall i {:trigger all[i].next} | 0 <= i < |all| ensures all[i].next == NextOf(all, i) {
      assert i != k ==> all[i] == items[i] && items[i] != items[k];
    }
    forall i {:trigger all[i].prev} | 0 <= i < |all| ensures all[i].prev == PrevOf(all, i) {
      assert i != k ==> all[i] == items[i] && items[i] != items[k];
    }
  }

  lemma NotAChild(parent: Item, items: seq<Item>, replacement: Item, k: nat)
    requires k < |items| && replacement != items[k] && (replacement in items || replacement == parent)
    ensures !Children(parent, items[k := replacement])
  {
    var all := items[k := replacement];
    assert all[k] == replacement;
    if replacement in items {
      var i :| 0 <= i < |items| && items[i] == replacement;
      assert all[i] == all[k];
    }
  }

  lemma StrangerReplaced(parent: Item, items: seq<Item>, item: Item, replacement: Item, before: Item?, after: Item?)
    requires Distinct(items) && parent !in items && items != [] && replacement !in items
    requires item !in items && before !in items && after !in items
    requires Relinked(parent, items, item, replacement, before, after, items[0])
    ensures Children(parent, items) <==> after != null
  {
    if after == null {
      assert items[0].prev == replacement && PrevOf(items, 0) in items;
    }
  }

  lemma SiblingReplaced(parent: Item, owner: Item, siblings: seq<Item>, item: Item, replacement: Item, k: nat, first: Item)
    requires Distinct(siblings) && owner !in siblings && k < |siblings| && siblings[k] == item
    requires owner.child == siblings[0] && first !in siblings && replacement !in siblings && replacement != owner
    requires Relinked(parent, siblings, item, replacement, PrevOf(siblings, k), NextOf(siblings, k), first)
    ensures Children(owner, siblings[k := replacement]) <==> 0 < k && k + 1 < |siblings|
  {
    var all := siblings[k := replacement];
    if k == 0 {
      assert owner.child == item && all[0] == replacement;
    } else if k + 1 == |siblings| {
      assert siblings[0] != siblings[k];
      assert all[0].prev == item && PrevOf(all, 0) == replacement;
    } else {
      forall i {:trigger all[i].next} | 0 <= i < |all| ensures all[i].next == NextOf(all, i) {
        assert i != k ==> all[i] == siblings[i] && siblings[i] != siblings[k];
      }
      forall i {:trigger all[i].prev} | 0 <= i < |all| ensures all[i].prev == PrevOf(all, i) {
        assert i != k ==> all[i] == siblings[i] && siblings[i] != siblings[k];
      }
    }
  }

  // Replacing puts the replacement into the item's place; replacing an item by itself changes nothing. Nobody
  // checks that the item is a child of the parent, or that the replacement is new. The parent as a replacement,
  // or another child, spoils the list. A new replacement for an item of another list does to the two lists what
  // detaching does, and one for an item that hangs nowhere spoils the parent's list.
  method Replace(parent: Item?, item: Item?, replacement: Item?, ghost items: seq<Item>, ghost owner: Item,
                 ghost siblings: seq<Item>, ghost k: nat) returns (ok: bool)
    requires parent != null ==> Children(parent, items)
    requires parent != null && item != null ==> Hanging(parent, items, item, owner, siblings, k)
    requires parent != null && item != null && item.prev == null ==> item.next == null
    requires parent != null && item != null && replacement != null && item !in items ==>
               replacement !in items && replacement !in siblings && replacement != parent && replacement != owner
    modifies Only(parent)`child, items`next, items`prev, siblings`next, siblings`prev,
             Only(item)`next, Only(item)`prev, Only(replacement)`next, Only(replacement)`prev
    ensures ok <==> parent != null && item != null && replacement != null && items != []
    ensures !ok && parent != null ==> Children(parent, items)
    ensures ok && replacement != item ==> item.next == null && item.prev == null
    ensures ok && item in items ==>
              (Children(parent, items[k := replacement]) <==>
               replacement == item || (replacement != parent && replacement !in items))
    ensures ok && item in items && k + 1 < |items| && replacement == items[k + 1] ==> replacement.next == replacement
    ensures ok && item !in items && replacement != item ==>
              (Children(parent, items) <==> old(item.prev) != null && k + 1 < |siblings|)
    ensures ok && item !in items && replacement != item && old(item.prev) != null ==>
              (Children(owner, siblings[k := replacement]) <==> 0 < k && k + 1 < |siblings|)
  {
    if parent == null || parent.child == null || replacement == null || item == null {
      return false;
    }
    if replacement == item {
      assert item in items ==> items[k := replacement] == items;
      return true;
    }
    ghost var before, after := item.prev, item.next;
    assert before != null ==> siblings[k] == item && before == PrevOf(siblings, k) && after == NextOf(siblings, k);
    assert item != parent.child && item in items ==> k > 0 && before == siblings[k - 1];
    replacement.next := item.next;
    replacement.prev := item.prev;
    if replacement.next != null {
      replacement.next.prev := replacement;
    }
    if parent.child == item {
      if parent.child.prev == parent.child {
        replacement.prev := replacement;
      }
      parent.child := replacement;
    } else {
      if replacement.prev != null {
        replacement.prev.next := replacement;
      }
      if replacement.next == null {
        parent.child.prev := replacement;
      }
    }
    item.next := null;
    item.prev := null;
    if item !in items {
      StrangerReplaced(parent, items, item, replacement, before, after);
      if before != null {
        SiblingReplaced(parent, owner, siblings, item, replacement, k, items[0]);
      }
    } else if replacement in items || replacement == parent {
      NotAChild(parent, items, replacement, k);
    } else {
      ChildReplaced(parent, items, item, replacement, k);
    }
    return true;
  }

  // ---------------------------------------------------------------- where the links are spoilt

  // An item that still has a `next` drags it along behind the list.
  method AppendWithNext() returns (parent: Item, first: Item, item: Item)
    ensures item != first && item != parent && !Children(parent, [first, item])
  {
    parent := new Item();
    first := new Item();
    item := new Item();
    var ok := Append(parent, first, []);
    item.next := new Item();
    ok := Append(parent, item, [first]);
    assert [] + [first] == [first] && [first] + [item] == [first, item];
  }

  // The only item of a list, appended again, becomes its own successor.
  method AppendTwice() returns (parent: Item, item: Item)
    ensures item.next == item && !Children(parent, [item]) && !Children(parent, [item, item])
  {
    parent := new Item();
    item := new Item();
    var ok := Append(parent, item, []);
    assert [] + [item] == [item];
    ok := Append(parent, item, [item]);
    assert [item] + [item] == [item, item];
    assert [item][0].next == item;
  }

  method OneChild() returns (parent: Item, child: Item)
    ensures fresh(parent) && fresh(child) && parent != child && Children(parent, [child])
    ensures child.prev == child && child.child == null
  {
    parent := new Item();
    child := new Item();
    var ok := Append(parent, child, []);
    assert [] + [child] == [child];
    assert [child][0].prev == PrevOf([child], 0);
  }

  // Detaching the last node of another list damages both.
  method DetachFromTheWrongList() returns (parent: Item, child: Item, owner: Item, stranger: Item)
    ensures parent != owner && child != stranger && !Children(parent, [child]) && !Children(owner, [])
  {
    parent, child := OneChild();
    owner, stranger := OneChild();
    var r := Detach(parent, stranger, [child], owner, [stranger], 0);
    assert [stranger][..0] + [stranger][1..] == [];
  }

  // So does detaching a grandchild through its grandparent.
  method DetachGrandchild() returns (root: Item, child: Item, grandchild: Item)
    ensures child != grandchild && !Children(root, [child]) && !Children(child, [])
  {
    root, child := OneChild();
    grandchild := new Item();
    var ok := Append(child, grandchild, []);
    assert [] + [grandchild] == [grandchild];
    var r := Detach(root, grandchild, [child], child, [grandchild], 0);
    assert [grandchild][..0] + [grandchild][1..] == [];
  }

  // A child inserted in front of itself becomes its own successor.
  method InsertTwice() returns (parent: Item, child: Item)
    ensures child.next == child && !Children(parent, [child])
  {
    parent, child := OneChild();
    var ok := Insert(parent, 0, child, [child]);
    assert [child][0].next == child;
  }

  // A parent inserted into its own list becomes its own child.
  method InsertParent() returns (parent: Item, child: Item)
    ensures parent.child == parent && !Children(parent, [parent, child])
  {
    parent, child := OneChild();
    var ok := Insert(parent, 0, parent, [child]);
    assert [parent, child][0] == parent;
  }

  // A child replaced by the one behind it leaves that one as its own successor.
  method ReplaceByNext() returns (parent: Item, first: Item, second: Item)
    ensures second.next == second && !Children(parent, [second])
  {
    parent, first := OneChild();
    second := new Item();
    var ok := Append(parent, second, [first]);
    assert [first] + [second] == [first, second];
    ok := Replace(parent, first, second, [first, second], parent, [first, second], 0);
    assert [second][0].next == second;
  }
}
