/** The thread entries of the server, on values: which entry an operation is charged to. */
module Threads {
  import opened Sequences
  import opened Words
  import opened Lists
  import opened Operations

  datatype Entry = Entry(
    threadId: nat, threadName: seq<nat>,
    creationMsgNum: nat, lastAllocMsgNum: nat,
    creation: Timeval, termination: Timeval, terminated: bool,
    currentAllocCount: nat, currentSize: nat, totalAllocCount: nat, peakSize: nat)

  function MainName(): (name: seq<nat>) { [109, 97, 105, 110] }

  function NewEntry(id: nat, time: Timeval, name: seq<nat>): (e: Entry) {
    Entry(id, name, 0, 0, time, Timeval(0, 0), false, 0, 0, 0, 0)
  }

  function HasId(id: nat): (keep: Entry -> bool) {
    (e: Entry) => e.threadId == id
  }

  function HasWindow(id: nat, num: nat): (keep: Entry -> bool) {
    (e: Entry) => e.threadId == id && e.creationMsgNum <= num <= e.lastAllocMsgNum
  }

  /** The places of a list whose entries have another id. */
  function Others(entries: seq<Entry>, list: seq<nat>, id: nat): (rest: seq<nat>)
    requires InRange(list, |entries|)
    ensures InRange(rest, |entries|)
    ensures forall p :: p in rest <==> p in list && entries[p].threadId != id
    ensures |rest| <= |list|
  {
    if list == [] then []
    else (if entries[list[0]].threadId == id then [] else [list[0]]) + Others(entries, list[1..], id)
  }

  /** Every entry ever made, the list of those of this session, and of those taken to be alive. Clearing the data
      empties the second list only. */
  datatype Roster = Roster(entries: seq<Entry>, listed: seq<nat>, alive: seq<nat>) {

    predicate Valid() {
      InRange(listed, |entries|) && InRange(alive, |entries|)
    }

    function AliveAt(id: nat): (k: Option<nat>)
      requires Valid()
      ensures k.Some? ==> k.value < |alive| && entries[alive[k.value]].threadId == id
    {
      First(View(entries, alive), HasId(id))
    }

    /** A thread that is created again is a new entry; the old one ends. */
    function Retire(id: nat, time: Timeval): (r: Roster)
      requires Valid()
      ensures r.Valid()
    {
      var k := AliveAt(id);
      if k.None? then this
      else
        var j := alive[k.value];
        var ended := entries[j := entries[j].(terminated := true, termination := time)];
        Roster(ended, listed, Others(ended, alive, id))
    }

    function Enrol(id: nat, time: Timeval): (r: Roster)
      requires Valid()
      ensures r.Valid()
    {
      Roster(entries + [NewEntry(id, time, if listed == [] then MainName() else [])], listed + [|entries|],
        alive + [|entries|])
    }

    /** The entry for a thread, made if need be: the roster, and the place of the entry in it. */
    function Get(id: nat, isCreation: bool, time: Timeval): (g: (Roster, nat))
      requires Valid()
      ensures g.0.Valid() && g.1 < |g.0.entries|
    {
      if AliveAt(id).Some? && !isCreation then (this, alive[AliveAt(id).value])
      else
        var retired := if isCreation then Retire(id, time) else this;
        (retired.Enrol(id, time), |retired.entries|)
    }

    function With(i: nat, e: Entry): (r: Roster)
      requires Valid() && i < |entries|
      ensures r.Valid()
    {
      this.(entries := entries[i := e])
    }

    function AddAlloc(id: nat, num: nat, size: nat, time: Timeval): (r: Roster)
      requires Valid()
      ensures r.Valid()
    {
      var g := Get(id, false, time);
      g.0.With(g.1, Charged(g.0.entries[g.1], num, size))
    }

    /** The place of the entry whose window holds a message number: first among the threads alive, then among all. */
    function Owner(id: nat, num: nat): (i: Option<nat>)
      requires Valid()
      ensures i.Some? ==> i.value < |entries|
    {
      var a := First(View(entries, alive), HasWindow(id, num));
      if a.Some? then Some(alive[a.value])
      else
        var b := First(View(entries, listed), HasWindow(id, num));
        if b.Some? then Some(listed[b.value]) else None
    }

    function AddFree(id: nat, num: nat, size: nat, time: Timeval): (r: Roster)
      requires Valid()
      ensures r.Valid()
    {
      var g := if Owner(id, num).Some? then (this, Owner(id, num).value) else Get(id, false, time);
      g.0.With(g.1, Discharged(g.0.entries[g.1], size))
    }

    function Created(id: nat, num: nat, time: Timeval): (r: Roster)
      requires Valid()
      ensures r.Valid()
    {
      var g := Get(id, true, time);
      g.0.With(g.1, g.0.entries[g.1].(creationMsgNum := num, lastAllocMsgNum := num))
    }

    function Named(id: nat, name: seq<nat>, time: Timeval): (r: Roster)
      requires Valid()
      ensures r.Valid()
    {
      var g := Get(id, false, time);
      g.0.With(g.1, g.0.entries[g.1].(threadName := name))
    }
  }

  function NoRoster(): (r: Roster)
    ensures r.Valid()
  {
    Roster([], [], [])
  }

  function Charged(e: Entry, num: nat, size: nat): (e': Entry) {
    var current := Add64(e.currentSize, size);
    e.(creationMsgNum := if e.creationMsgNum == 0 then num else e.creationMsgNum,
       lastAllocMsgNum := num,
       currentSize := current,
       currentAllocCount := Add32(e.currentAllocCount, 1),
       totalAllocCount := Add32(e.totalAllocCount, 1),
       peakSize := if current > e.peakSize then current else e.peakSize)
  }

  function Discharged(e: Entry, size: nat): (e': Entry) {
    e.(currentSize := Sub64(e.currentSize, size), currentAllocCount := Sub32(e.currentAllocCount, 1))
  }

  /** The `k`-th entry is the first of a list of places whose window holds a number of a thread. */
  ghost predicate IsFirstOwner(entries: seq<Entry>, list: seq<nat>, id: nat, num: nat, k: nat)
    requires InRange(list, |entries|)
  {
    && k < |list| && HasWindow(id, num)(entries[list[k]])
    && forall i :: 0 <= i < k ==> !HasWindow(id, num)(entries[list[i]])
  }

  ghost predicate SomeOwns(entries: seq<Entry>, list: seq<nat>, id: nat, num: nat)
    requires InRange(list, |entries|)
  {
    exists k :: 0 <= k < |list| && HasWindow(id, num)(entries[list[k]])
  }

  /** Whatever the windows are: the search gives the first entry alive whose window holds the number, else the first
      listed one, else none. */
  lemma OwnerExactly(r: Roster, id: nat, num: nat, i: nat)
    requires r.Valid()
    ensures r.Owner(id, num) == Some(i) <==>
      if SomeOwns(r.entries, r.alive, id, num)
      then exists k: nat :: IsFirstOwner(r.entries, r.alive, id, num, k) && r.alive[k] == i
      else exists k: nat :: IsFirstOwner(r.entries, r.listed, id, num, k) && r.listed[k] == i
    ensures r.Owner(id, num).None? <==>
      !SomeOwns(r.entries, r.alive, id, num) && !SomeOwns(r.entries, r.listed, id, num)
  {
    hide First, View;
    FirstOwner(r.entries, r.alive, id, num);
    FirstOwner(r.entries, r.listed, id, num);
  }

  lemma FirstOwner(entries: seq<Entry>, list: seq<nat>, id: nat, num: nat)
    requires InRange(list, |entries|)
    ensures var k := First(View(entries, list), HasWindow(id, num));
      && (k.Some? <==> SomeOwns(entries, list, id, num))
      && (k.Some? ==> k.value < |list|)
      && forall q: nat :: IsFirstOwner(entries, list, id, num, q) <==> k == Some(q)
  {
    var view := View(entries, list);
    var k := First(view, HasWindow(id, num));
    assert forall q :: 0 <= q < |list| ==> view[q] == entries[list[q]];
    forall q: nat ensures IsFirstOwner(entries, list, id, num, q) <==> k == Some(q) {
      if IsFirstOwner(entries, list, id, num, q) {
        assert HasWindow(id, num)(view[q]);
      }
    }
  }

  // ---- A session: the entries made since the lists were last empty ----

  /** The entries of the session are those from `base` on; all of them are listed, and only they are alive. */
  ghost predicate InSession(r: Roster, base: nat) {
    && base <= |r.entries|
    && |r.listed| == |r.entries| - base
    && (forall k :: 0 <= k < |r.listed| ==> r.listed[k] == base + k)
    && (forall p :: p in r.alive ==> base <= p < |r.entries|)
  }

  lemma GetInSession(r: Roster, base: nat, id: nat, isCreation: bool, time: Timeval)
    requires r.Valid() && InSession(r, base)
    ensures InSession(r.Get(id, isCreation, time).0, base) && base <= r.Get(id, isCreation, time).1
  {
    if r.AliveAt(id).Some? { assert r.alive[r.AliveAt(id).value] in r.alive; }
  }

  // ---- Windows ----

  /** An entry owns the operations of its thread whose numbers lie in its window. */
  predicate Owns(e: Entry, o: Operation) {
    e.threadId == o.callerThreadId && e.creationMsgNum <= o.msgNum <= e.lastAllocMsgNum
  }

  /** For each thread id a message number: the last one that said something about its windows. */
  type Numbers = nat -> nat

  function Advanced(now: Numbers, id: nat, num: nat): (later: Numbers) {
    (other: nat) => if other == id then num else now(other)
  }

  /** Windows of the same thread id do not meet, an older entry of an id is not alive, and no window goes past `now`. */
  ghost predicate Windowed(r: Roster, base: nat, now: Numbers) {
    && (forall i :: base <= i < |r.entries| ==>
          && r.entries[i].creationMsgNum <= r.entries[i].lastAllocMsgNum <= now(r.entries[i].threadId)
          && (r.entries[i].creationMsgNum == 0 ==> r.entries[i].lastAllocMsgNum == 0))
    && (forall i, j :: base <= i < j < |r.entries| && r.entries[i].threadId == r.entries[j].threadId ==>
          && i !in r.alive
          && (r.entries[j].creationMsgNum == 0 || r.entries[i].lastAllocMsgNum < r.entries[j].creationMsgNum))
  }

  /** No number is in the windows of two entries of one thread id. */
  lemma WindowsDisjoint(r: Roster, base: nat, now: Numbers, i: nat, j: nat, num: nat)
    requires Windowed(r, base, now) && 0 < num
    requires base <= i < |r.entries| && base <= j < |r.entries| && r.entries[i].threadId == r.entries[j].threadId
    requires r.entries[i].creationMsgNum <= num <= r.entries[i].lastAllocMsgNum
    requires r.entries[j].creationMsgNum <= num <= r.entries[j].lastAllocMsgNum
    ensures i == j
  {
  }

  /** The search by number finds the one entry of the session whose window holds it. */
  lemma OwnerFound(r: Roster, base: nat, i: nat, num: nat)
    requires r.Valid() && InSession(r, base)
    requires base <= i < |r.entries| && r.entries[i].creationMsgNum <= num <= r.entries[i].lastAllocMsgNum
    requires forall j :: base <= j < |r.entries| && HasWindow(r.entries[i].threadId, num)(r.entries[j]) ==> j == i
    ensures r.Owner(r.entries[i].threadId, num) == Some(i)
  {
    var id := r.entries[i].threadId;
    var a := First(View(r.entries, r.alive), HasWindow(id, num));
    if a.Some? {
      assert r.alive[a.value] in r.alive;
      assert HasWindow(id, num)(r.entries[r.alive[a.value]]);
    } else {
      var b := First(View(r.entries, r.listed), HasWindow(id, num));
      assert r.listed[i - base] == i && View(r.entries, r.listed)[i - base] == r.entries[i];
      assert b.Some?;
      assert HasWindow(id, num)(r.entries[r.listed[b.value]]);
    }
  }

  /** Before a new entry is made for an id, no thread of that id is alive. */
  lemma RetireWindowed(r: Roster, base: nat, now: Numbers, id: nat, time: Timeval)
    requires r.Valid() && InSession(r, base) && Windowed(r, base, now)
    ensures var q := r.Retire(id, time);
      && Windowed(q, base, now) && InSession(q, base) && |q.entries| == |r.entries|
      && forall p :: p in q.alive ==> q.entries[p].threadId != id
  {
    if r.AliveAt(id).None? {
      NoneAlive(r, id);
    } else {
      assert r.alive[r.AliveAt(id).value] in r.alive;
    }
  }

  lemma NoneAlive(r: Roster, id: nat)
    requires r.Valid() && r.AliveAt(id).None?
    ensures forall p :: p in r.alive ==> r.entries[p].threadId != id
  {
    forall p | p in r.alive ensures r.entries[p].threadId != id {
      var k :| 0 <= k < |r.alive| && r.alive[k] == p;
      assert View(r.entries, r.alive)[k] == r.entries[p];
    }
  }

  lemma EnrolWindowed(r: Roster, base: nat, now: Numbers, id: nat, time: Timeval)
    requires r.Valid() && InSession(r, base) && Windowed(r, base, now)
    requires forall p :: p in r.alive ==> r.entries[p].threadId != id
    ensures var g := r.Enrol(id, time);
      && Windowed(g, base, now) && InSession(g, base) && |r.entries| in g.alive
      && g.entries[|r.entries|].threadId == id && g.entries[|r.entries|].creationMsgNum == 0
  {
    var g := r.Enrol(id, time);
    assert g.alive[|g.alive| - 1] == |r.entries|;
  }

  /** Getting the entry of a thread keeps the windows; the entry got is the newest of its id. */
  lemma GetWindowed(r: Roster, base: nat, now: Numbers, id: nat, isCreation: bool, time: Timeval)
    requires r.Valid() && InSession(r, base) && Windowed(r, base, now)
    ensures var g := r.Get(id, isCreation, time);
      && Windowed(g.0, base, now) && InSession(g.0, base) && base <= g.1 && g.0.entries[g.1].threadId == id
      && g.1 in g.0.alive
      && (isCreation ==> g.0.entries[g.1].creationMsgNum == 0)
      && (forall i :: base <= i < |g.0.entries| && g.0.entries[i].threadId == id ==> i <= g.1)
  {
    hide Roster.Retire, Roster.Enrol, Roster.AliveAt;
    var g := r.Get(id, isCreation, time);
    if r.AliveAt(id).Some? && !isCreation {
      assert g.1 in r.alive;
    } else {
      if isCreation { RetireWindowed(r, base, now, id, time); } else { NoneAlive(r, id); }
      EnrolWindowed(if isCreation then r.Retire(id, time) else r, base, now, id, time);
      EnrolLast(if isCreation then r.Retire(id, time) else r, id, time);
    }
  }

  lemma EnrolLast(r: Roster, id: nat, time: Timeval)
    requires r.Valid()
    ensures |r.Enrol(id, time).entries| == |r.entries| + 1
  {
  }

  /** The window of the newest entry of an id can grow up to, or start at, a number past all others. */
  lemma GrowWindowed(r: Roster, base: nat, now: Numbers, i: nat, e: Entry, num: nat)
    requires r.Valid() && InSession(r, base) && Windowed(r, base, now) && now(e.threadId) < num
    requires base <= i < |r.entries| && e.threadId == r.entries[i].threadId
    requires forall j :: base <= j < |r.entries| && r.entries[j].threadId == e.threadId ==> j <= i
    requires e.lastAllocMsgNum == num
    requires e.creationMsgNum == if r.entries[i].creationMsgNum == 0 then num else r.entries[i].creationMsgNum
    ensures Windowed(r.With(i, e), base, Advanced(now, e.threadId, num)) && InSession(r.With(i, e), base)
  {
  }

  /** A change that leaves id and window of an entry alone keeps the windows. */
  lemma SameWindowed(r: Roster, base: nat, now: Numbers, i: nat, e: Entry)
    requires r.Valid() && InSession(r, base) && Windowed(r, base, now) && i < |r.entries|
    requires e.threadId == r.entries[i].threadId
    requires e.creationMsgNum == r.entries[i].creationMsgNum && e.lastAllocMsgNum == r.entries[i].lastAllocMsgNum
    ensures Windowed(r.With(i, e), base, now) && InSession(r.With(i, e), base)
  {
  }
}
