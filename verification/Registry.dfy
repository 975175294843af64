/**
 * The table of registered clients (routerd/src/registry.c:117-243, routerd/include/registry.h): 32 slots
 * scanned in order under one lock, shown to behave as a map from file descriptor to entry.
 */
module Registry {
  import opened Bytes
  import opened RegisterPayload

  const SLOTS: nat := 32

  datatype Entry = Entry(fd: int, info: Info, lastHeartbeat: nat)

  datatype Slot = Free | Used(entry: Entry)

  // ---------------------------------------------------------------- a table as a map

  predicate Distinct(slots: seq<Slot>) {
    forall i, j :: 0 <= i < j < |slots| && slots[i].Used? && slots[j].Used? ==>
      slots[i].entry.fd != slots[j].entry.fd && slots[i].entry.info.deviceId != slots[j].entry.info.deviceId
  }

  predicate Holds(slots: seq<Slot>, i: int, fd: int) {
    0 <= i < |slots| && slots[i].Used? && slots[i].entry.fd == fd
  }

  // The used slots as a map; with distinct descriptors the order does not matter.
  function View(slots: seq<Slot>): (m: map<int, Entry>) {
    if slots == [] then map[]
    else
      var n := |slots| - 1;
      var front := View(slots[..n]);
      if slots[n].Used? then front[slots[n].entry.fd := slots[n].entry] else front
  }

  // An entry is in the map exactly when some slot holds it.
  lemma {:induction false} ViewAt(slots: seq<Slot>, fd: int)
    requires Distinct(slots)
    ensures fd in View(slots) <==> exists i :: Holds(slots, i, fd)
    ensures forall i :: Holds(slots, i, fd) ==> fd in View(slots) && View(slots)[fd] == slots[i].entry
  {
    if slots != [] {
      var n := |slots| - 1;
      var front := slots[..n];
      ViewAt(front, fd);
      assert forall i :: 0 <= i < n ==> (Holds(front, i, fd) <==> Holds(slots, i, fd));
      if slots[n].Used? && slots[n].entry.fd == fd {
        assert Holds(slots, n, fd);
      }
    }
  }

  lemma ViewSlot(slots: seq<Slot>, i: nat)
    requires Distinct(slots) && i < |slots| && slots[i].Used?
    ensures slots[i].entry.fd in View(slots) && View(slots)[slots[i].entry.fd] == slots[i].entry
  {
    hide View;
    ViewAt(slots, slots[i].entry.fd);
    assert Holds(slots, i, slots[i].entry.fd);
  }

  // In the map every key is its entry's descriptor, and device ids are distinct.
  lemma ViewKeys(slots: seq<Slot>)
    requires Distinct(slots)
    ensures forall fd :: fd in View(slots) ==> View(slots)[fd].fd == fd
    ensures forall f, g :: f in View(slots) && g in View(slots) && f != g ==>
              View(slots)[f].info.deviceId != View(slots)[g].info.deviceId
  {
    hide View;
    forall fd | fd in View(slots) ensures View(slots)[fd].fd == fd {
      ViewAt(slots, fd);
    }
    forall f, g | f in View(slots) && g in View(slots) && f != g
      ensures View(slots)[f].info.deviceId != View(slots)[g].info.deviceId
    {
      ViewAt(slots, f);
      ViewAt(slots, g);
      var i :| Holds(slots, i, f);
      var j :| Holds(slots, j, g);
    }
  }

  // The map has as many entries as there are slots only when all of them are used.
  lemma {:induction false} ViewSize(slots: seq<Slot>)
    requires Distinct(slots)
    ensures |View(slots)| <= |slots|
    ensures |View(slots)| == |slots| <==> forall i :: 0 <= i < |slots| ==> slots[i].Used?
  {
    if slots != [] {
      var n := |slots| - 1;
      ViewSize(slots[..n]);
      ViewGrows(slots);
      assert forall i :: 0 <= i < n ==> slots[..n][i] == slots[i];
    }
  }

  // The last slot adds a new key, or nothing.
  lemma ViewGrows(slots: seq<Slot>)
    requires Distinct(slots) && slots != []
    ensures var n := |slots| - 1;
            var front := View(slots[..n]);
            if slots[n].Used? then
              && slots[n].entry.fd !in front && View(slots) == front[slots[n].entry.fd := slots[n].entry]
              && |View(slots)| == |front| + 1
            else View(slots) == front
  {
    var n := |slots| - 1;
    if slots[n].Used? {
      var fd := slots[n].entry.fd;
      ViewAt(slots[..n], fd);
      assert forall i :: !Holds(slots[..n], i, fd);
    }
  }

  // Writing one slot is writing one key.
  lemma ViewUpdate(slots: seq<Slot>, i: nat, e: Entry)
    requires Distinct(slots) && i < |slots|
    requires Distinct(slots[i := Used(e)])
    requires slots[i].Used? ==> slots[i].entry.fd == e.fd
    ensures View(slots[i := Used(e)]) == View(slots)[e.fd := e]
  {
    hide View;
    var after := slots[i := Used(e)];
    ViewSlot(after, i);
    forall fd | fd != e.fd
      ensures fd in View(after) <==> fd in View(slots)
      ensures fd in View(after) ==> View(after)[fd] == View(slots)[fd]
    {
      SameElsewhere(slots, after, i, fd);
    }
  }

  lemma SameElsewhere(slots: seq<Slot>, after: seq<Slot>, i: nat, fd: int)
    requires Distinct(slots) && Distinct(after) && |slots| == |after| && i < |slots|
    requires forall k :: 0 <= k < |slots| && k != i ==> after[k] == slots[k]
    requires !Holds(slots, i, fd) && !Holds(after, i, fd)
    ensures fd in View(after) <==> fd in View(slots)
    ensures fd in View(after) ==> View(after)[fd] == View(slots)[fd]
  {
    hide View, Distinct;
    ViewAt(slots, fd);
    ViewAt(after, fd);
    assert forall k :: Holds(slots, k, fd) <==> Holds(after, k, fd);
  }

  lemma ViewRemove(slots: seq<Slot>, i: nat)
    requires Distinct(slots) && i < |slots| && slots[i].Used?
    ensures Distinct(slots[i := Free])
    ensures View(slots[i := Free]) == View(slots) - {slots[i].entry.fd}
  {
    hide View;
    var after := slots[i := Free];
    var gone := slots[i].entry.fd;
    ViewSlot(slots, i);
    ViewAt(after, gone);
    assert forall k :: !Holds(after, k, gone);
    forall fd | fd != gone
      ensures fd in View(after) <==> fd in View(slots)
      ensures fd in View(after) ==> View(after)[fd] == View(slots)[fd]
    {
      SameElsewhere(slots, after, i, fd);
    }
  }

  // ---------------------------------------------------------------- registering, abstractly

  datatype Outcome = Registered | BadPayload | FdTaken | DeviceTaken | TableFull

  predicate DeviceIn(m: map<int, Entry>, id: seq<Byte>) {
    exists fd :: fd in m && m[fd].info.deviceId == id
  }

  // Registering succeeds exactly on a well-formed payload with a fresh descriptor, a fresh (truncated)
  // device id and a free slot.
  predicate Accepts(m: map<int, Entry>, fd: int, info: Option<Info>) {
    info.Some? && fd !in m && !DeviceIn(m, info.value.deviceId) && |m| < 32
  }

  // ---------------------------------------------------------------- the table

  class Table {
    const slots: array<Slot>

    ghost predicate Valid()
      reads slots
    {
      slots.Length == SLOTS && Distinct(slots[..])
    }

    // What the table means.
    ghost function Entries(): (m: map<int, Entry>)
      reads slots
    {
      View(slots[..])
    }

    constructor ()
      ensures Valid() && Entries() == map[] && fresh(slots)
    {
      slots := new Slot[SLOTS](_ => Free);
      new;
      forall fd ensures fd !in View(slots[..]) {
        ViewAt(slots[..], fd);
      }
    }

    // registry_register. The payload is parsed before the lock is taken; the scan under the lock stops at
    // the first conflicting slot and remembers the first free one.
    method Register(fd: int, payload: seq<Byte>, now: nat) returns (outcome: Outcome)
      requires Valid()
      modifies slots
      ensures Valid()
      ensures outcome.Registered? <==> Accepts(old(Entries()), fd, RegisterInfo(payload))
      ensures outcome.BadPayload? <==> RegisterInfo(payload).None?
      ensures outcome.FdTaken? ==> fd in old(Entries())
      ensures outcome.DeviceTaken? ==> DeviceIn(old(Entries()) - {fd}, RegisterInfo(payload).value.deviceId)
      ensures outcome.TableFull? ==> |old(Entries())| == 32
      ensures Entries() == if outcome.Registered?
                           then old(Entries())[fd := Entry(fd, RegisterInfo(payload).value, now)]
                           else old(Entries())
    {
      hide RegisterInfo, View;
      ghost var before := slots[..];
      var parsed := ParseRegister(payload);
      if parsed.None? {
        return BadPayload;
      }
      var id := parsed.value.deviceId;
      var freeSlot := -1;
      for i := 0 to SLOTS
        invariant -1 <= freeSlot < i
        invariant freeSlot >= 0 ==> before[freeSlot].Free?
        invariant freeSlot < 0 ==> forall j :: 0 <= j < i ==> before[j].Used?
        invariant forall j :: 0 <= j < i && before[j].Used? ==>
                    before[j].entry.fd != fd && before[j].entry.info.deviceId != id
      {
        if slots[i].Used? {
          if slots[i].entry.fd == fd {
            ViewSlot(before, i);
            return FdTaken;
          }
          if slots[i].entry.info.deviceId == id {
            ViewSlot(before, i);
            assert slots[i].entry.fd in View(before) - {fd};
            return DeviceTaken;
          }
        } else if freeSlot < 0 {
          freeSlot := i;
        }
      }
      ViewSize(before);
      NoConflict(before, fd, id);
      if freeSlot < 0 {
        return TableFull;
      }
      slots[freeSlot] := Used(Entry(fd, parsed.value, now));
      assert slots[..] == before[freeSlot := Used(Entry(fd, parsed.value, now))];
      ViewUpdate(before, freeSlot, Entry(fd, parsed.value, now));
      return Registered;
    }

    method Unregister(fd: int) returns (found: bool)
      requires Valid()
      modifies slots
      ensures Valid()
      ensures found <==> fd in old(Entries())
      ensures Entries() == old(Entries()) - {fd}
    {
      hide View;
      ghost var before := slots[..];
      ViewAt(before, fd);
      for i := 0 to SLOTS
        invariant slots[..] == before
        invariant forall k :: 0 <= k < i ==> !Holds(before, k, fd)
      {
        if slots[i].Used? && slots[i].entry.fd == fd {
          assert Holds(slots[..], i, fd);
          slots[i] := Free;
          assert slots[..] == before[i := Free];
          ViewRemove(before, i);
          return true;
        }
      }
      return false;
    }

    // registry_update_heartbeat; `now` is read before the lock is taken.
    method UpdateHeartbeat(fd: int, now: nat) returns (found: bool)
      requires Valid()
      modifies slots
      ensures Valid()
      ensures found <==> fd in old(Entries())
      ensures Entries() == if found then old(Entries())[fd := old(Entries())[fd].(lastHeartbeat := now)]
                           else old(Entries())
    {
      hide View;
      ghost var before := slots[..];
      ViewAt(before, fd);
      for i := 0 to SLOTS
        invariant slots[..] == before
        invariant forall k :: 0 <= k < i ==> !Holds(before, k, fd)
      {
        if slots[i].Used? && slots[i].entry.fd == fd {
          assert Holds(slots[..], i, fd);
          var e := slots[i].entry.(lastHeartbeat := now);
          slots[i] := Used(e);
          assert slots[..] == before[i := Used(e)];
          ViewUpdate(before, i, e);
          return true;
        }
      }
      return false;
    }

    method FindByFd(fd: int) returns (r: Option<Entry>)
      requires Valid()
      ensures r == if fd in Entries() then Some(Entries()[fd]) else None
    {
      hide View;
      ViewAt(slots[..], fd);
      for i := 0 to SLOTS
        invariant forall k :: 0 <= k < i ==> !Holds(slots[..], k, fd)
      {
        if slots[i].Used? && slots[i].entry.fd == fd {
          assert Holds(slots[..], i, fd);
          return Some(slots[i].entry);
        }
      }
      return None;
    }

    method FindByDeviceId(id: seq<Byte>) returns (r: Option<Entry>)
      requires Valid()
      ensures r.Some? <==> DeviceIn(Entries(), id)
      ensures r.Some? ==> r.value.info.deviceId == id && r.value.fd in Entries() && Entries()[r.value.fd] == r.value
    {
      hide View;
      for i := 0 to SLOTS
        invariant forall j :: 0 <= j < i && slots[j].Used? ==> slots[j].entry.info.deviceId != id
      {
        if slots[i].Used? && slots[i].entry.info.deviceId == id {
          ViewSlot(slots[..], i);
          return Some(slots[i].entry);
        }
      }
      forall fd | fd in Entries() ensures Entries()[fd].info.deviceId != id {
        ViewAt(slots[..], fd);
      }
      return None;
    }

    // registry_iterate with a callback that copies: every entry once, in slot order.
    method Snapshot() returns (entries: seq<Entry>)
      requires Valid()
      ensures |entries| == |Entries()| <= SLOTS
      ensures forall i :: 0 <= i < |entries| ==> entries[i].fd in Entries() && Entries()[entries[i].fd] == entries[i]
      ensures forall i, j :: 0 <= i < j < |entries| ==> entries[i].fd != entries[j].fd
      ensures forall fd :: fd in Entries() ==> Entries()[fd] in entries
    {
      hide View;
      entries := [];
      ghost var all := slots[..];
      EmptyView(all);
      for n := 0 to SLOTS
        invariant |entries| == |View(all[..n])| <= n
        invariant forall i :: 0 <= i < |entries| ==>
                    entries[i].fd in View(all[..n]) && View(all[..n])[entries[i].fd] == entries[i]
        invariant forall i, j :: 0 <= i < j < |entries| ==> entries[i].fd != entries[j].fd
        invariant forall fd :: fd in View(all[..n]) ==> View(all[..n])[fd] in entries
      {
        assert all[..n + 1][..n] == all[..n];
        ViewGrows(all[..n + 1]);
        if slots[n].Used? {
          entries := entries + [slots[n].entry];
        }
      }
      assert all[..SLOTS] == all;
    }
  }

  lemma EmptyView(slots: seq<Slot>)
    ensures View(slots[..0]) == map[]
  {
  }

  lemma NoConflict(slots: seq<Slot>, fd: int, id: seq<Byte>)
    requires Distinct(slots)
    requires forall j :: 0 <= j < |slots| && slots[j].Used? ==>
               slots[j].entry.fd != fd && slots[j].entry.info.deviceId != id
    ensures fd !in View(slots) && !DeviceIn(View(slots), id)
  {
    hide View;
    ViewAt(slots, fd);
    forall f | f in View(slots) ensures View(slots)[f].info.deviceId != id {
      ViewAt(slots, f);
    }
  }
}
