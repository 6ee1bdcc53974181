/** The client's cache of the addresses whose symbols it has sent: a fixed number of slots, the least used is given
    up. */
module SymbolCache {
  import opened Sequences
  import opened Lists

  const ADDR_CACHE_COUNT := 32768
  const INT32_MAX := 0x7FFF_FFFF

  datatype Slot = Slot(addr: nat, count: nat)

  function HasAddr(addr: nat): (keep: Slot -> bool) {
    (slot: Slot) => slot.addr == addr
  }

  /** A count as far as the search for the least one sees it. */
  function Seen(count: nat): (n: nat) { if count < INT32_MAX then count else INT32_MAX }

  /** The slot to give up: the first of those with the least count. */
  function Victim(slots: seq<Slot>): (v: nat)
    requires slots != []
    ensures v < |slots|
    ensures forall i :: 0 <= i < |slots| ==> Seen(slots[v].count) <= Seen(slots[i].count)
    ensures forall i :: 0 <= i < v ==> Seen(slots[v].count) < Seen(slots[i].count)
  {
    var n := |slots| - 1;
    if n == 0 then 0
    else
      var v := Victim(slots[..n]);
      assert forall i :: 0 <= i < n ==> slots[..n][i] == slots[i];
      if Seen(slots[n].count) < Seen(slots[v].count) then n else v
  }

  /** Looking up an address: whether it was there, and the slots after that. */
  function Check(slots: seq<Slot>, addr: nat): (r: (bool, seq<Slot>))
    requires slots != []
    ensures |r.1| == |slots|
  {
    var k := First(slots, HasAddr(addr));
    if k.Some? then (true, slots[k.value := Slot(addr, slots[k.value].count + 1)])
    else (false, slots[Victim(slots) := Slot(addr, 1)])
  }

  function NoSlots(size: nat): (slots: seq<Slot>) { seq(size, _ => Slot(0, 0)) }

  class AddrCache {
    const listAddr: array<nat>
    const listAddrCount: array<nat>

    ghost predicate Valid() {
      listAddr != listAddrCount && listAddr.Length == listAddrCount.Length == ADDR_CACHE_COUNT
    }

    ghost function Value(): (slots: seq<Slot>)
      reads listAddr, listAddrCount
      requires Valid()
      ensures |slots| == ADDR_CACHE_COUNT
    {
      seq(ADDR_CACHE_COUNT, i requires 0 <= i < ADDR_CACHE_COUNT reads listAddr, listAddrCount requires Valid() =>
        Slot(listAddr[i], listAddrCount[i]))
    }

    constructor ()
      ensures Valid() && Value() == NoSlots(ADDR_CACHE_COUNT) && fresh(listAddr) && fresh(listAddrCount)
    {
      listAddr := new nat[ADDR_CACHE_COUNT](_ => 0);
      listAddrCount := new nat[ADDR_CACHE_COUNT](_ => 0);
    }

    /** One scan that looks for the address and for the slot to give up. */
    method CheckAddr(addr: nat) returns (found: bool)
      requires Valid()
      modifies listAddr, listAddrCount
      ensures Valid() && (found, Value()) == Check(old(Value()), addr)
    {
      hide First, Victim;
      var posMin, valMin := 0, INT32_MAX;
      ghost var slots := Value();
      var i := 0;
      while i < ADDR_CACHE_COUNT
        invariant 0 <= i <= ADDR_CACHE_COUNT && 0 <= posMin < ADDR_CACHE_COUNT && Value() == slots
        invariant forall j :: 0 <= j < i ==> listAddr[j] != addr
        invariant i == 0 ==> posMin == 0 && valMin == INT32_MAX
        invariant i != 0 ==> posMin < i && valMin == Seen(listAddrCount[posMin])
        invariant forall j :: 0 <= j < i ==> valMin <= Seen(listAddrCount[j])
        invariant forall j :: 0 <= j < posMin ==> valMin < Seen(listAddrCount[j])
      {
        if listAddr[i] == addr {
          FoundFirst(slots, addr, i);
          listAddrCount[i] := listAddrCount[i] + 1;
          assert Value() == slots[i := Slot(addr, slots[i].count + 1)];
          return true;
        }
        if listAddrCount[i] < valMin {
          posMin := i;
          valMin := listAddrCount[i];
        }
        i := i + 1;
      }
      FoundNowhere(slots, addr);
      VictimIs(slots, posMin);
      listAddr[posMin] := addr;
      listAddrCount[posMin] := 1;
      assert Value() == slots[posMin := Slot(addr, 1)];
      return false;
    }
  }

  lemma FoundFirst(slots: seq<Slot>, addr: nat, k: nat)
    requires k < |slots| && slots[k].addr == addr && forall i :: 0 <= i < k ==> slots[i].addr != addr
    ensures First(slots, HasAddr(addr)) == Some(k)
  {
  }

  lemma FoundNowhere(slots: seq<Slot>, addr: nat)
    requires forall i :: 0 <= i < |slots| ==> slots[i].addr != addr
    ensures First(slots, HasAddr(addr)) == None
  {
  }

  lemma VictimIs(slots: seq<Slot>, v: nat)
    requires v < |slots|
    requires forall i :: 0 <= i < |slots| ==> Seen(slots[v].count) <= Seen(slots[i].count)
    requires forall i :: 0 <= i < v ==> Seen(slots[v].count) < Seen(slots[i].count)
    ensures Victim(slots) == v
  {
    hide Victim;
    var u := Victim(slots);
    assert Seen(slots[u].count) == Seen(slots[v].count);
  }

  // ---- Laws ----

  /** The slots in use are the first ones, and no two of them hold the same address. */
  ghost predicate Tidy(slots: seq<Slot>) {
    && (forall i, j :: 0 <= i < j < |slots| && 0 < slots[j].count ==> 0 < slots[i].count)
    && (forall i :: 0 <= i < |slots| && slots[i].count == 0 ==> slots[i].addr == 0)
    && (forall i, j :: 0 <= i < j < |slots| && 0 < slots[j].count ==> slots[i].addr != slots[j].addr)
  }

  ghost predicate Present(slots: seq<Slot>, addr: nat) {
    exists i :: 0 <= i < |slots| && slots[i].addr == addr
  }

  lemma NoSlotsTidy(size: nat)
    ensures Tidy(NoSlots(size))
  {
  }

  lemma CheckTidy(slots: seq<Slot>, addr: nat)
    requires slots != [] && Tidy(slots)
    ensures Tidy(Check(slots, addr).1)
  {
    hide First, Victim;
    if First(slots, HasAddr(addr)).None? {
      var v := Victim(slots);
      if slots[v].count == 0 {
        forall i | 0 <= i < v ensures 0 < slots[i].count { assert Seen(slots[v].count) < Seen(slots[i].count); }
      } else {
        forall i | 0 <= i < |slots| ensures 0 < slots[i].count { assert Seen(slots[v].count) <= Seen(slots[i].count); }
      }
    } else {
      var k := First(slots, HasAddr(addr)).value;
      if slots[k].count == 0 {
        forall i | 0 <= i < k ensures 0 < slots[i].count { assert !HasAddr(addr)(slots[i]); }
      }
    }
  }

  /** A look-up hits just if the address is there; it is there afterwards; and only a look-up that misses can give up
      another address, one with the least count, and only when every slot is in use. */
  lemma CheckLaws(slots: seq<Slot>, addr: nat)
    requires slots != [] && Tidy(slots)
    ensures Check(slots, addr).0 <==> Present(slots, addr)
    ensures Present(Check(slots, addr).1, addr)
    ensures forall other: nat :: other != 0 && Present(slots, other) && !Present(Check(slots, addr).1, other) ==>
      && !Check(slots, addr).0
      && slots[Victim(slots)].addr == other
      && forall i :: 0 <= i < |slots| ==> 0 < slots[i].count && Seen(slots[Victim(slots)].count) <= Seen(slots[i].count)
  {
    hide First, Victim;
    var k := First(slots, HasAddr(addr));
    var after := Check(slots, addr).1;
    var w := if k.Some? then k.value else Victim(slots);
    assert after[w].addr == addr && forall i :: 0 <= i < |slots| && i != w ==> after[i].addr == slots[i].addr;
    assert k.Some? ==> slots[w].addr == addr;
    forall other: nat | other != 0 && Present(slots, other) && !Present(after, other)
      ensures k.None? && slots[w].addr == other && 0 < slots[w].count
    {
      var i :| 0 <= i < |slots| && slots[i].addr == other;
      assert i == w;
    }
  }

  /** What has been given up is missed the next time. */
  lemma EvictedMisses(slots: seq<Slot>, addr: nat, other: nat)
    requires slots != [] && Tidy(slots) && other != 0 && Present(slots, other) && !Present(Check(slots, addr).1, other)
    ensures !Check(Check(slots, addr).1, other).0
  {
    CheckTidy(slots, addr);
    CheckLaws(Check(slots, addr).1, other);
  }

  // ---- Sequences of look-ups ----

  function After(slots: seq<Slot>, addrs: seq<nat>): (slots': seq<Slot>)
    requires slots != []
    ensures |slots'| == |slots|
  {
    if addrs == [] then slots else Check(After(slots, addrs[..|addrs| - 1]), addrs[|addrs| - 1]).1
  }

  lemma {:induction false} AfterTidy(slots: seq<Slot>, addrs: seq<nat>)
    requires slots != [] && Tidy(slots)
    ensures Tidy(After(slots, addrs))
  {
    if addrs == [] {
    } else {
      AfterTidy(slots, addrs[..|addrs| - 1]);
      CheckTidy(After(slots, addrs[..|addrs| - 1]), addrs[|addrs| - 1]);
    }
  }

  function Distinct(addrs: seq<nat>): (s: set<nat>) { set a | a in addrs }

  function UsedMark(slot: Slot): (n: nat) { if slot.count == 0 then 0 else 1 }

  /** The slots in use hold these addresses, one each. */
  ghost predicate HoldsJust(slots: seq<Slot>, addrs: set<nat>) {
    && Total(slots, UsedMark) == |addrs|
    && forall a: nat :: a in addrs <==> exists i :: 0 <= i < |slots| && 0 < slots[i].count && slots[i].addr == a
  }

  lemma {:induction false} SomeUnused(slots: seq<Slot>)
    ensures Total(slots, UsedMark) <= |slots|
    ensures Total(slots, UsedMark) < |slots| ==> exists i :: 0 <= i < |slots| && slots[i].count == 0
  {
    if slots == [] {
    } else {
      var front := slots[..|slots| - 1];
      SomeUnused(front);
      if Total(front, UsedMark) < |front| {
        var i :| 0 <= i < |front| && front[i].count == 0;
        assert slots[i].count == 0;
      } else if Total(slots, UsedMark) < |slots| {
        assert slots[|slots| - 1].count == 0;
      }
    }
  }

  lemma HoldsOneMore(slots: seq<Slot>, w: nat, addr: nat, addrs: set<nat>)
    requires w < |slots| && slots[w].count == 0 && HoldsJust(slots, addrs) && addr !in addrs
    ensures HoldsJust(slots[w := Slot(addr, 1)], addrs + {addr})
  {
    hide Total;
    var after := slots[w := Slot(addr, 1)];
    assert forall i :: 0 <= i < |slots| && i != w ==> after[i] == slots[i];
    TotalUpdate(slots, w, Slot(addr, 1), UsedMark);
    forall a: nat ensures a in addrs + {addr} <==>
      exists i :: 0 <= i < |after| && 0 < after[i].count && after[i].addr == a {
      if a == addr {
        assert 0 < after[w].count && after[w].addr == addr;
      } else if a in addrs {
        var i :| 0 <= i < |slots| && 0 < slots[i].count && slots[i].addr == a;
        assert after[i] == slots[i];
      }
    }
  }

  lemma HoldsSame(slots: seq<Slot>, k: nat, addrs: set<nat>)
    requires k < |slots| && 0 < slots[k].count && HoldsJust(slots, addrs)
    ensures HoldsJust(slots[k := Slot(slots[k].addr, slots[k].count + 1)], addrs)
  {
    hide Total;
    var after := slots[k := Slot(slots[k].addr, slots[k].count + 1)];
    TotalUpdate(slots, k, after[k], UsedMark);
    forall a: nat ensures a in addrs <==> exists i :: 0 <= i < |after| && 0 < after[i].count && after[i].addr == a {
      if a in addrs {
        var i :| 0 <= i < |slots| && 0 < slots[i].count && slots[i].addr == a;
        assert 0 < after[i].count && after[i].addr == a;
      }
    }
  }

  /** One more look-up while the addresses fit: it hits just if the address has been looked up before, or is 0. */
  lemma FittingCheck(slots: seq<Slot>, addr: nat, addrs: set<nat>)
    requires slots != [] && Tidy(slots) && HoldsJust(slots, addrs) && |addrs + {addr}| <= |slots|
    ensures HoldsJust(Check(slots, addr).1, addrs + {addr})
    ensures Check(slots, addr).0 <==> addr in addrs || addr == 0
  {
    hide First, Victim, Total, Tidy, HoldsJust;
    if addr in addrs {
      KnownCheck(slots, addr, addrs);
    } else {
      UnusedLeft(slots, addrs, addr);
      if addr == 0 { ZeroCheck(slots, addrs); } else { NewCheck(slots, addr, addrs); }
    }
  }

  lemma KnownCheck(slots: seq<Slot>, addr: nat, addrs: set<nat>)
    requires slots != [] && Tidy(slots) && HoldsJust(slots, addrs) && addr in addrs
    ensures HoldsJust(Check(slots, addr).1, addrs + {addr}) && Check(slots, addr).0
  {
    hide First, Victim, Total;
    var i :| 0 <= i < |slots| && 0 < slots[i].count && slots[i].addr == addr;
    FoundFirst(slots, addr, i);
    assert addrs + {addr} == addrs;
    HoldsSame(slots, i, addrs);
  }

  lemma UnusedLeft(slots: seq<Slot>, addrs: set<nat>, addr: nat)
    requires HoldsJust(slots, addrs) && addr !in addrs && |addrs + {addr}| <= |slots|
    ensures exists u :: 0 <= u < |slots| && slots[u].count == 0
  {
    SomeUnused(slots);
  }

  lemma ZeroCheck(slots: seq<Slot>, addrs: set<nat>)
    requires slots != [] && Tidy(slots) && HoldsJust(slots, addrs) && 0 !in addrs
    requires exists u :: 0 <= u < |slots| && slots[u].count == 0
    ensures HoldsJust(Check(slots, 0).1, addrs + {0}) && Check(slots, 0).0
  {
    hide First, Victim, Total;
    var u :| 0 <= u < |slots| && slots[u].count == 0;
    var k := First(slots, HasAddr(0));
    assert HasAddr(0)(slots[u]);
    assert slots[k.value].count == 0;
    HoldsOneMore(slots, k.value, 0, addrs);
  }

  lemma NewCheck(slots: seq<Slot>, addr: nat, addrs: set<nat>)
    requires slots != [] && Tidy(slots) && HoldsJust(slots, addrs) && addr !in addrs && addr != 0
    requires exists u :: 0 <= u < |slots| && slots[u].count == 0
    ensures HoldsJust(Check(slots, addr).1, addrs + {addr}) && !Check(slots, addr).0
  {
    hide First, Victim, Total;
    var u :| 0 <= u < |slots| && slots[u].count == 0;
    forall i | 0 <= i < |slots| ensures slots[i].addr != addr {
      if 0 < slots[i].count { assert slots[i].addr in addrs; }
    }
    FoundNowhere(slots, addr);
    assert Seen(slots[Victim(slots)].count) <= Seen(slots[u].count);
    HoldsOneMore(slots, Victim(slots), addr, addrs);
  }

  lemma {:induction false} HoldsLookedUp(size: nat, addrs: seq<nat>)
    requires 0 < size && |Distinct(addrs)| <= size
    ensures Tidy(After(NoSlots(size), addrs)) && HoldsJust(After(NoSlots(size), addrs), Distinct(addrs))
  {
    if addrs == [] {
      NoneUsed(size);
    } else {
      var front, last := addrs[..|addrs| - 1], addrs[|addrs| - 1];
      NoSlotsTidy(size);
      AfterTidy(NoSlots(size), addrs);
      AfterTidy(NoSlots(size), front);
      assert Distinct(addrs) == Distinct(front) + {last} by { assert addrs == front + [last]; }
      FewerDistinct(Distinct(front), last);
      HoldsLookedUp(size, front);
      FittingCheck(After(NoSlots(size), front), last, Distinct(front));
    }
  }

  lemma FewerDistinct(s: set<nat>, a: nat)
    ensures |s| <= |s + {a}|
  {
    if a in s { assert s + {a} == s; }
  }

  lemma {:induction false} NoneUsed(size: nat)
    ensures Tidy(NoSlots(size)) && HoldsJust(NoSlots(size), {})
  {
    TotalUnused(size);
  }

  lemma {:induction false} TotalUnused(size: nat)
    ensures Total(NoSlots(size), UsedMark) == 0
  {
    if size == 0 {
    } else {
      TotalUnused(size - 1);
      assert NoSlots(size)[..size - 1] == NoSlots(size - 1);
    }
  }

  /** While no more distinct addresses have been looked up than there are slots, each but 0 is missed exactly once: the
      first time. */
  lemma MissedOnce(size: nat, addrs: seq<nat>, addr: nat)
    requires 0 < size && |Distinct(addrs + [addr])| <= size && addr != 0
    ensures Check(After(NoSlots(size), addrs), addr).0 <==> addr in addrs
  {
    assert Distinct(addrs + [addr]) == Distinct(addrs) + {addr};
    FewerDistinct(Distinct(addrs), addr);
    HoldsLookedUp(size, addrs);
    FittingCheck(After(NoSlots(size), addrs), addr, Distinct(addrs));
  }

  /** As many addresses as there are slots is all that fits: the next one that is new takes the place of one of them,
      which is then missed a second time. */
  lemma OneTooMany(size: nat, addrs: seq<nat>, addr: nat)
    requires 0 < size && |Distinct(addrs)| == size && 0 !in addrs && addr !in addrs && addr != 0
    ensures exists other: nat :: other in addrs && !Check(After(NoSlots(size), addrs + [addr]), other).0
  {
    hide First, Victim, Total;
    var slots := After(NoSlots(size), addrs);
    HoldsLookedUp(size, addrs);
    AllUsed(slots);
    var v := Victim(slots);
    assert slots[v].addr in Distinct(addrs);
    assert (addrs + [addr])[..|addrs|] == addrs;
    var after := Check(slots, addr).1;
    FoundJust(slots, Distinct(addrs), addr);
    assert forall i :: 0 <= i < |slots| ==> after[i].addr != slots[v].addr;
    FoundNowhere(after, slots[v].addr);
    assert !Check(After(NoSlots(size), addrs + [addr]), slots[v].addr).0;
  }

  lemma {:induction false} AllUsed(slots: seq<Slot>)
    requires Total(slots, UsedMark) == |slots|
    ensures forall i :: 0 <= i < |slots| ==> 0 < slots[i].count
  {
    if slots == [] {
    } else {
      var front := slots[..|slots| - 1];
      SomeUnused(front);
      AllUsed(front);
      forall i | 0 <= i < |slots| ensures 0 < slots[i].count { if i < |front| { assert slots[i] == front[i]; } }
    }
  }

  lemma FoundJust(slots: seq<Slot>, addrs: set<nat>, addr: nat)
    requires HoldsJust(slots, addrs) && addr !in addrs && forall i :: 0 <= i < |slots| ==> 0 < slots[i].count
    ensures First(slots, HasAddr(addr)).None?
  {
    forall i | 0 <= i < |slots| ensures slots[i].addr != addr {
      assert slots[i].addr in addrs;
    }
    FoundNowhere(slots, addr);
  }
}
