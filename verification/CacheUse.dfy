/** What the counts of the cache count: look-ups; so that what is given up is what was looked up least. */
module CacheUse {
  import opened Lists
  import opened SymbolCache

  /** The look-ups of an address since it was last missed, that one included. */
  function Uses(size: nat, addrs: seq<nat>, addr: nat): (n: nat)
    requires 0 < size
  {
    if addrs == [] then 0
    else
      var front, last := addrs[..|addrs| - 1], addrs[|addrs| - 1];
      if last != addr then Uses(size, front, addr)
      else if Check(After(NoSlots(size), front), addr).0 then Uses(size, front, addr) + 1
      else 1
  }

  ghost predicate Counted(slots: seq<Slot>, size: nat, addrs: seq<nat>)
    requires 0 < size
  {
    forall i :: 0 <= i < |slots| && 0 < slots[i].count ==> slots[i].count == Uses(size, addrs, slots[i].addr)
  }

  /** While there are unused slots every address looked up has one. */
  ghost predicate RoomForAll(slots: seq<Slot>, addrs: seq<nat>) {
    (exists u :: 0 <= u < |slots| && slots[u].count == 0) ==>
      forall a :: a in addrs ==> InUse(slots, a)
  }

  ghost predicate InUse(slots: seq<Slot>, addr: nat) {
    exists i :: 0 <= i < |slots| && 0 < slots[i].count && slots[i].addr == addr
  }

  lemma {:induction false} NeverUsed(size: nat, addrs: seq<nat>, addr: nat)
    requires 0 < size && addr !in addrs
    ensures Uses(size, addrs, addr) == 0
  {
    if addrs == [] {
    } else {
      NeverUsed(size, addrs[..|addrs| - 1], addr);
    }
  }

  lemma HitCounted(size: nat, front: seq<nat>, addr: nat)
    requires 0 < size
    requires var slots := After(NoSlots(size), front);
      Tidy(slots) && Counted(slots, size, front) && RoomForAll(slots, front) && Check(slots, addr).0
    ensures var slots' := Check(After(NoSlots(size), front), addr).1;
      Counted(slots', size, front + [addr]) && RoomForAll(slots', front + [addr])
  {
    hide First, Victim, After;
    var slots, addrs := After(NoSlots(size), front), front + [addr];
    assert addrs[..|addrs| - 1] == front;
    var k, slots' := First(slots, HasAddr(addr)).value, Check(slots, addr).1;
    assert HasAddr(addr)(slots[k]) && slots' == slots[k := Slot(addr, slots[k].count + 1)];
    if slots[k].count == 0 {
      assert !InUse(slots, addr);
      NeverUsed(size, front, addr);
    }
    forall i | 0 <= i < |slots'| && 0 < slots'[i].count ensures slots'[i].count == Uses(size, addrs, slots'[i].addr) {
      if i != k { assert slots[i].addr != addr; }
    }
    forall a | InUse(slots, a) || a == addr ensures InUse(slots', a) {
      if a == addr {
        assert 0 < slots'[k].count && slots'[k].addr == addr;
      } else {
        var i :| 0 <= i < |slots| && 0 < slots[i].count && slots[i].addr == a;
        assert slots'[i] == slots[i];
      }
    }
  }

  lemma MissCounted(size: nat, front: seq<nat>, addr: nat)
    requires 0 < size
    requires var slots := After(NoSlots(size), front);
      Tidy(slots) && Counted(slots, size, front) && RoomForAll(slots, front) && !Check(slots, addr).0
    ensures var slots' := Check(After(NoSlots(size), front), addr).1;
      Counted(slots', size, front + [addr]) && RoomForAll(slots', front + [addr])
  {
    hide First, Victim, After;
    var slots, addrs := After(NoSlots(size), front), front + [addr];
    assert addrs[..|addrs| - 1] == front;
    var v, slots' := Victim(slots), Check(slots, addr).1;
    assert slots' == slots[v := Slot(addr, 1)];
    forall i | 0 <= i < |slots| ensures slots[i].addr != addr { assert !HasAddr(addr)(slots[i]); }
    if u :| 0 <= u < |slots'| && slots'[u].count == 0 {
      assert slots[u].count == 0 && Seen(slots[v].count) <= Seen(slots[u].count);
      forall a | InUse(slots, a) || a == addr ensures InUse(slots', a) {
        if a == addr {
          assert slots'[v].addr == addr;
        } else {
          var i :| 0 <= i < |slots| && 0 < slots[i].count && slots[i].addr == a;
          assert slots'[i] == slots[i];
        }
      }
    }
  }

  /** For every list of look-ups: the count of a slot in use is the number of look-ups of its address since it was last
      missed. */
  lemma {:induction false} CountsAreUses(size: nat, addrs: seq<nat>)
    requires 0 < size
    ensures var slots := After(NoSlots(size), addrs);
      Tidy(slots) && Counted(slots, size, addrs) && RoomForAll(slots, addrs)
  {
    if addrs == [] {
    } else {
      hide Tidy, Counted, RoomForAll, Check;
      var front, last := addrs[..|addrs| - 1], addrs[|addrs| - 1];
      assert addrs == front + [last];
      CountsAreUses(size, front);
      CheckTidy(After(NoSlots(size), front), last);
      if Check(After(NoSlots(size), front), last).0 { HitCounted(size, front, last); }
        else { MissCounted(size, front, last); }
    }
  }

  /** When every slot is in use and an address is missed, the one given up has had the fewest look-ups since it came in,
      as far as an `int` can tell, and it is the first of those. */
  lemma LeastUsedGivenUp(size: nat, addrs: seq<nat>, addr: nat) returns (v: nat)
    requires 0 < size && !Present(After(NoSlots(size), addrs), addr)
    requires forall i :: 0 <= i < size ==> 0 < After(NoSlots(size), addrs)[i].count
    ensures var slots := After(NoSlots(size), addrs);
      && v < size && After(NoSlots(size), addrs + [addr]) == slots[v := Slot(addr, 1)]
      && (forall i :: 0 <= i < size ==>
           Seen(Uses(size, addrs, slots[v].addr)) <= Seen(Uses(size, addrs, slots[i].addr)))
      && (forall i :: 0 <= i < v ==>
           Seen(Uses(size, addrs, slots[v].addr)) < Seen(Uses(size, addrs, slots[i].addr)))
  {
    hide First, Victim, Tidy, RoomForAll;
    CountsAreUses(size, addrs);
    var slots := After(NoSlots(size), addrs);
    v := Victim(slots);
    assert (addrs + [addr])[..|addrs|] == addrs;
    forall i | 0 <= i < |slots| ensures slots[i].addr != addr {
    }
    FoundNowhere(slots, addr);
  }

  /** Until then a new address takes the first unused slot, and none is given up. */
  lemma UnusedTaken(size: nat, addrs: seq<nat>, addr: nat) returns (v: nat)
    requires 0 < size && !Present(After(NoSlots(size), addrs), addr)
    requires exists u :: 0 <= u < size && After(NoSlots(size), addrs)[u].count == 0
    ensures var slots := After(NoSlots(size), addrs);
      && v < size && After(NoSlots(size), addrs + [addr]) == slots[v := Slot(addr, 1)]
      && slots[v].count == 0 && forall i :: 0 <= i < v ==> 0 < slots[i].count
  {
    hide First, Victim;
    var slots := After(NoSlots(size), addrs);
    v := Victim(slots);
    var u :| 0 <= u < size && slots[u].count == 0;
    assert Seen(slots[v].count) <= Seen(slots[u].count);
    assert (addrs + [addr])[..|addrs|] == addrs;
    forall i | 0 <= i < |slots| ensures slots[i].addr != addr {
    }
    FoundNowhere(slots, addr);
    forall i | 0 <= i < v ensures 0 < slots[i].count { assert Seen(slots[v].count) < Seen(slots[i].count); }
  }
}
