/** Which thread entry each operation is charged to; and exactly when the window of that entry holds it, so that a free
    never has to fall back on some entry of the thread. */
module Charging {
  import opened Sequences
  import opened Lists
  import opened Messages
  import opened Operations
  import opened Threads
  import opened Ledger

  /** What the calls so far have said about each thread id: the number of the last allocation, that of the last
      creation, and those of all creations; 0 and none if there was none. */
  datatype Marks = Marks(alloc: nat -> nat, creation: nat -> nat, created: nat -> set<nat>)

  function NoMarks(): (marks: Marks) { Marks((id: nat) => 0, (id: nat) => 0, (id: nat) => {}) }

  function WithAlloc(marks: Marks, id: nat, num: nat): (later: Marks) {
    marks.(alloc := Advanced(marks.alloc, id, num))
  }

  function WithCreation(marks: Marks, id: nat, num: nat): (later: Marks) {
    marks.(creation := Advanced(marks.creation, id, num),
           created := (other: nat) => marks.created(other) + if other == id then {num} else {})
  }

  /** A window goes no further than the last allocation, or is that of a creation alone. */
  predicate WindowFits(e: Entry, marks: Marks) {
    && e.creationMsgNum <= e.lastAllocMsgNum && (e.creationMsgNum == 0 ==> e.lastAllocMsgNum == 0)
    && (e.lastAllocMsgNum <= marks.alloc(e.threadId)
        || (e.creationMsgNum == e.lastAllocMsgNum && e.lastAllocMsgNum in marks.created(e.threadId)))
  }

  /** Only the newest entry of a thread id is alive, and it is the one that the last creation opened, if there was
      one. */
  ghost predicate Shaped(r: Roster, base: nat, marks: Marks) {
    && (forall i :: base <= i < |r.entries| ==> WindowFits(r.entries[i], marks))
    && (forall i, j :: base <= i < j < |r.entries| && r.entries[i].threadId == r.entries[j].threadId ==> i !in r.alive)
    && (forall p :: p in r.alive && p < |r.entries| && marks.creation(r.entries[p].threadId) != 0 ==>
         r.entries[p].creationMsgNum == marks.creation(r.entries[p].threadId))
    && (forall id: nat :: marks.creation(id) == 0 ==> marks.created(id) == {})
    && (forall id: nat :: marks.creation(id) != 0 ==> marks.creation(id) in marks.created(id))
  }

  /** A thread id that was created has an entry that is alive. */
  ghost predicate Manned(r: Roster, marks: Marks) {
    forall id: nat :: marks.creation(id) != 0 ==> exists p ::
      p in r.alive && p < |r.entries| && r.entries[p].threadId == id
  }

  /** An operation lies in the window of the entry it was charged to. */
  predicate Homed(r: Roster, base: nat, marks: Marks, o: Operation, home: nat) {
    && 0 < o.msgNum <= marks.alloc(o.callerThreadId)
    && base <= home < |r.entries| && Owns(r.entries[home], o)
  }

  /** `homes` says for each operation which entry it was charged to. */
  ghost predicate AllHomed(r: Roster, base: nat, marks: Marks, ops: seq<Operation>, homes: seq<nat>) {
    && |homes| == |ops|
    && forall k :: 0 <= k < |ops| && ops[k].allocPtr != 0 ==> Homed(r, base, marks, ops[k], homes[k])
  }

  /** The state of a session in which each allocation has come with a number past that of the creation of its entry. */
  ghost predicate Settled(r: Roster, base: nat, marks: Marks, ops: seq<Operation>, homes: seq<nat>) {
    && r.Valid() && InSession(r, base) && Shaped(r, base, marks) && Manned(r, marks)
    && AllHomed(r, base, marks, ops, homes)
  }

  lemma SettledValid(r: Roster, base: nat, marks: Marks, ops: seq<Operation>, homes: seq<nat>)
    requires Settled(r, base, marks, ops, homes)
    ensures r.Valid() && InSession(r, base) && |homes| == |ops|
  {
  }

  // ---- The search by number ----

  lemma OwnerExists(r: Roster, base: nat, i: nat, num: nat)
    requires r.Valid() && InSession(r, base)
    requires base <= i < |r.entries| && HasWindow(r.entries[i].threadId, num)(r.entries[i])
    ensures r.Owner(r.entries[i].threadId, num).Some?
  {
    assert r.listed[i - base] == i && View(r.entries, r.listed)[i - base] == r.entries[i];
  }

  lemma OwnerNowhere(r: Roster, base: nat, id: nat, num: nat)
    requires r.Valid() && InSession(r, base)
    requires forall j :: base <= j < |r.entries| ==> !HasWindow(id, num)(r.entries[j])
    ensures r.Owner(id, num).None?
  {
    forall k | 0 <= k < |r.alive| ensures !HasWindow(id, num)(View(r.entries, r.alive)[k]) {
      assert r.alive[k] in r.alive;
    }
    forall k | 0 <= k < |r.listed| ensures !HasWindow(id, num)(View(r.entries, r.listed)[k]) {
      assert r.listed[k] == base + k;
    }
  }

  // ---- Windows that stay the same ----

  predicate SameWindow(e: Entry, e': Entry) {
    e.threadId == e'.threadId && e.creationMsgNum == e'.creationMsgNum && e.lastAllocMsgNum == e'.lastAllocMsgNum
  }

  /** What is said about windows stays true while windows and lists stay the same. */
  lemma SameWindowsSettled(r: Roster, r': Roster, base: nat, marks: Marks, ops: seq<Operation>, homes: seq<nat>)
    requires |r'.entries| == |r.entries| && r'.alive == r.alive && r'.listed == r.listed
    requires forall j :: 0 <= j < |r.entries| ==> SameWindow(r.entries[j], r'.entries[j])
    requires Settled(r, base, marks, ops, homes)
    ensures Settled(r', base, marks, ops, homes)
  {
    forall id: nat | marks.creation(id) != 0
      ensures exists p :: p in r'.alive && p < |r'.entries| && r'.entries[p].threadId == id
    {
      var p :| p in r.alive && p < |r.entries| && r.entries[p].threadId == id;
      assert SameWindow(r.entries[p], r'.entries[p]);
    }
    forall k | 0 <= k < |ops| && ops[k].allocPtr != 0 ensures Homed(r', base, marks, ops[k], homes[k]) {
      assert Homed(r, base, marks, ops[k], homes[k]);
    }
  }

  /** Taking an operation off leaves all windows as they are, and falls back on no entry. */
  lemma FreeSettled(r: Roster, base: nat, marks: Marks, ops: seq<Operation>, homes: seq<nat>, k: nat, time: Timeval)
    requires Settled(r, base, marks, ops, homes) && k < |ops| && ops[k].allocPtr != 0
    ensures r.Owner(ops[k].callerThreadId, ops[k].msgNum).Some?
    ensures Settled(r.AddFree(ops[k].callerThreadId, ops[k].msgNum, ops[k].allocSize, time), base, marks,
      ops[k := ops[k].(freed := true)], homes)
  {
    hide Roster.Owner, Roster.Get, Shaped, Manned;
    assert Homed(r, base, marks, ops[k], homes[k]);
    OwnerExists(r, base, homes[k], ops[k].msgNum);
    var r' := r.AddFree(ops[k].callerThreadId, ops[k].msgNum, ops[k].allocSize, time);
    SameWindowsSettled(r, r', base, marks, ops, homes);
    SameNumbersHomed(r', base, marks, ops, ops[k := ops[k].(freed := true)], homes);
  }

  predicate SameIdentity(o: Operation, o': Operation) {
    o'.allocPtr == o.allocPtr && o'.callerThreadId == o.callerThreadId && o'.msgNum == o.msgNum
  }

  lemma SameNumbersHomed(r: Roster, base: nat, marks: Marks, ops: seq<Operation>, ops': seq<Operation>, homes: seq<nat>)
    requires |ops'| == |ops| && forall k :: 0 <= k < |ops| ==> SameIdentity(ops[k], ops'[k])
    requires AllHomed(r, base, marks, ops, homes)
    ensures AllHomed(r, base, marks, ops', homes)
  {
    forall k | 0 <= k < |ops'| && ops'[k].allocPtr != 0 ensures Homed(r, base, marks, ops'[k], homes[k]) {
      assert SameIdentity(ops[k], ops'[k]) && Homed(r, base, marks, ops[k], homes[k]);
    }
  }

  // ---- A new entry ----

  function Appended(r: Roster, e: Entry): (r': Roster) {
    Roster(r.entries + [e], r.listed + [|r.entries|], r.alive + [|r.entries|])
  }

  ghost predicate NoneAliveOf(r: Roster, id: nat) {
    forall p :: p in r.alive && p < |r.entries| ==> r.entries[p].threadId != id
  }

  /** What is known of a roster in which no thread of this id is alive. */
  ghost predicate Vacant(r: Roster, base: nat, marks: Marks, ops: seq<Operation>, homes: seq<nat>, id: nat) {
    && r.Valid() && InSession(r, base) && Shaped(r, base, marks) && AllHomed(r, base, marks, ops, homes)
    && NoneAliveOf(r, id)
    && (forall other: nat :: other != id && marks.creation(other) != 0 ==>
         exists p :: p in r.alive && p < |r.entries| && r.entries[p].threadId == other)
  }

  /** An entry that is new, made for want of one, or opened by a creation. */
  ghost predicate Opens(e: Entry, marks: Marks, later: Marks) {
    && e.creationMsgNum == e.lastAllocMsgNum
    && if e.creationMsgNum == 0 then marks.creation(e.threadId) == 0 && later == marks
       else later == WithCreation(marks, e.threadId, e.creationMsgNum)
  }

  lemma AppendedShaped(r: Roster, base: nat, marks: Marks, ops: seq<Operation>, homes: seq<nat>, e: Entry, later: Marks)
    requires Vacant(r, base, marks, ops, homes, e.threadId) && Opens(e, marks, later)
    ensures Shaped(Appended(r, e), base, later) && InSession(Appended(r, e), base) && Appended(r, e).Valid()
  {
    hide AllHomed;
    var r' := Appended(r, e);
    assert forall p :: p in r'.alive ==> p in r.alive || p == |r.entries|;
    assert forall i :: 0 <= i < |r.entries| ==> r'.entries[i] == r.entries[i];
  }

  lemma AppendedSettled(r: Roster, base: nat, marks: Marks, ops: seq<Operation>, homes: seq<nat>, e: Entry,
    later: Marks)
    requires Vacant(r, base, marks, ops, homes, e.threadId) && Opens(e, marks, later)
    ensures Settled(Appended(r, e), base, later, ops, homes)
  {
    AppendedShaped(r, base, marks, ops, homes, e, later);
    hide Shaped;
    var r' := Appended(r, e);
    assert r'.alive[|r.alive|] == |r.entries|;
    forall id: nat | later.creation(id) != 0
      ensures exists p :: p in r'.alive && p < |r'.entries| && r'.entries[p].threadId == id
    {
      if id == e.threadId {
        assert |r.entries| in r'.alive && r'.entries[|r.entries|].threadId == id;
      } else {
        var p :| p in r.alive && p < |r.entries| && r.entries[p].threadId == id;
        assert p in r'.alive && r'.entries[p].threadId == id;
      }
    }
    forall k | 0 <= k < |ops| && ops[k].allocPtr != 0 ensures Homed(r', base, later, ops[k], homes[k]) {
      assert Homed(r, base, marks, ops[k], homes[k]);
    }
  }

  /** Ending the thread of an id changes no window, and takes no other thread off the list of those alive. */
  lemma RetireParts(r: Roster, base: nat, id: nat, time: Timeval)
    requires r.Valid() && InSession(r, base)
    requires forall i, j :: base <= i < j < |r.entries| && r.entries[i].threadId == r.entries[j].threadId ==>
      i !in r.alive
    ensures var q := r.Retire(id, time);
      && InSession(q, base) && |q.entries| == |r.entries| && NoneAliveOf(q, id)
      && (forall p :: p in q.alive ==> p in r.alive)
      && (forall p :: p in r.alive && p < |r.entries| && r.entries[p].threadId != id ==> p in q.alive)
    ensures var q := r.Retire(id, time);
      forall j :: 0 <= j < |r.entries| ==>
        && SameWindow(r.entries[j], q.entries[j])
        && q.entries[j].currentSize == r.entries[j].currentSize
        && q.entries[j].currentAllocCount == r.entries[j].currentAllocCount
  {
    if r.AliveAt(id).None? {
      NoneAlive(r, id);
    } else {
      assert r.alive[r.AliveAt(id).value] in r.alive;
    }
  }

  /** It leaves the id vacant. */
  lemma RetireVacant(r: Roster, base: nat, marks: Marks, ops: seq<Operation>, homes: seq<nat>, id: nat, time: Timeval)
    requires Settled(r, base, marks, ops, homes)
    ensures Vacant(r.Retire(id, time), base, marks, ops, homes, id)
  {
    hide Roster.Retire, WindowFits;
    var q := r.Retire(id, time);
    RetireParts(r, base, id, time);
    RetiredShaped(r, q, base, marks);
    RetiredManned(r, q, marks, id);
    forall k | 0 <= k < |ops| && ops[k].allocPtr != 0 ensures Homed(q, base, marks, ops[k], homes[k]) {
      assert Homed(r, base, marks, ops[k], homes[k]);
    }
  }

  lemma RetiredShaped(r: Roster, q: Roster, base: nat, marks: Marks)
    requires |q.entries| == |r.entries| && (forall p :: p in q.alive ==> p in r.alive)
    requires forall j :: 0 <= j < |r.entries| ==> SameWindow(r.entries[j], q.entries[j])
    requires Shaped(r, base, marks)
    ensures Shaped(q, base, marks)
  {
    assert forall j :: 0 <= j < |q.entries| ==> SameWindow(r.entries[j], q.entries[j]);
  }

  lemma RetiredManned(r: Roster, q: Roster, marks: Marks, id: nat)
    requires Manned(r, marks) && |q.entries| == |r.entries|
    requires forall j :: 0 <= j < |r.entries| ==> SameWindow(r.entries[j], q.entries[j])
    requires forall p :: p in r.alive && p < |r.entries| && r.entries[p].threadId != id ==> p in q.alive
    ensures forall other: nat :: other != id && marks.creation(other) != 0 ==>
      exists p :: p in q.alive && p < |q.entries| && q.entries[p].threadId == other
  {
    forall other: nat | other != id && marks.creation(other) != 0
      ensures exists p :: p in q.alive && p < |q.entries| && q.entries[p].threadId == other
    {
      var p :| p in r.alive && p < |r.entries| && r.entries[p].threadId == other;
      assert SameWindow(r.entries[p], q.entries[p]);
      assert p in q.alive && q.entries[p].threadId == other;
    }
  }

  /** The entry got for a thread is alive and the newest of its id; nothing else changes. */
  lemma GetSettled(r: Roster, base: nat, marks: Marks, ops: seq<Operation>, homes: seq<nat>, id: nat, time: Timeval)
    requires Settled(r, base, marks, ops, homes)
    ensures var (g, i) := r.Get(id, false, time);
      && Settled(g, base, marks, ops, homes)
      && base <= i && i in g.alive && g.entries[i].threadId == id
      && (forall j :: base <= j < |g.entries| && g.entries[j].threadId == id ==> j <= i)
  {
    hide AllHomed;
    var (g, i) := r.Get(id, false, time);
    if r.AliveAt(id).Some? {
      assert i in r.alive;
    } else {
      NoneAlive(r, id);
      var e := NewEntry(id, time, if r.listed == [] then MainName() else []);
      assert g == Appended(r, e);
      assert NoneAliveOf(r, id) && marks.creation(id) == 0;
      AppendedSettled(r, base, marks, ops, homes, e, marks);
      assert g.alive[|r.alive|] == i;
    }
  }

  lemma GetKeepsEntries(r: Roster, id: nat, isCreation: bool, time: Timeval)
    requires r.Valid()
    ensures var g := r.Get(id, isCreation, time).0;
      && |r.entries| <= |g.entries|
      && (forall i :: 0 <= i < |r.entries| ==>
           SameWindow(r.entries[i], g.entries[i]) && g.entries[i].currentSize == r.entries[i].currentSize
           && g.entries[i].currentAllocCount == r.entries[i].currentAllocCount
           && g.entries[i].peakSize == r.entries[i].peakSize)
      && (forall i :: |r.entries| <= i < |g.entries| ==> exists name :: g.entries[i] == NewEntry(id, time, name))
  {
    var g := r.Get(id, isCreation, time).0;
    forall i | |r.entries| <= i < |g.entries| ensures exists name :: g.entries[i] == NewEntry(id, time, name) {
      assert g.entries[i] == NewEntry(id, time, if r.listed == [] then MainName() else []);
    }
  }

  // ---- An allocation ----

  /** An entry whose window is to grow. */
  ghost predicate Grows(g: Roster, base: nat, marks: Marks, i: nat, e: Entry, num: nat) {
    && base <= i < |g.entries| && i in g.alive && e.threadId == g.entries[i].threadId
    && (forall j :: base <= j < |g.entries| && g.entries[j].threadId == e.threadId ==> j <= i)
    && e.lastAllocMsgNum == num
    && e.creationMsgNum == (if g.entries[i].creationMsgNum == 0 then num else g.entries[i].creationMsgNum)
    && marks.alloc(e.threadId) < num && num !in marks.created(e.threadId) && marks.creation(e.threadId) < num
  }

  lemma GrownShaped(g: Roster, base: nat, marks: Marks, i: nat, e: Entry, num: nat)
    requires g.Valid() && Shaped(g, base, marks) && Grows(g, base, marks, i, e, num)
    ensures Shaped(g.With(i, e), base, WithAlloc(marks, e.threadId, num))
  {
    hide WindowFits;
    var r', later := g.With(i, e), WithAlloc(marks, e.threadId, num);
    assert forall j :: 0 <= j < |g.entries| && j != i ==> r'.entries[j] == g.entries[j];
    forall j | base <= j < |r'.entries| ensures WindowFits(r'.entries[j], later) {
      assert WindowFits(g.entries[j], marks);
      GrownFits(e, g.entries[j], marks, num);
      if j == i { GrownStart(g, base, marks, i, e, num); }
    }
  }

  lemma GrownStart(g: Roster, base: nat, marks: Marks, i: nat, e: Entry, num: nat)
    requires Shaped(g, base, marks) && Grows(g, base, marks, i, e, num)
    ensures 0 < e.creationMsgNum <= num && g.entries[i].lastAllocMsgNum < num
  {
    assert WindowFits(g.entries[i], marks);
  }

  lemma GrownFits(e: Entry, other: Entry, marks: Marks, num: nat)
    requires marks.alloc(e.threadId) < num
    ensures WindowFits(other, marks) ==> WindowFits(other, WithAlloc(marks, e.threadId, num))
    ensures e.lastAllocMsgNum == num && e.creationMsgNum <= num && 0 < e.creationMsgNum ==>
      WindowFits(e, WithAlloc(marks, e.threadId, num))
  {
  }

  lemma GrownManned(g: Roster, marks: Marks, i: nat, e: Entry, num: nat)
    requires g.Valid() && Manned(g, marks) && i < |g.entries| && e.threadId == g.entries[i].threadId
    ensures Manned(g.With(i, e), WithAlloc(marks, e.threadId, num))
  {
    var r', later := g.With(i, e), WithAlloc(marks, e.threadId, num);
    forall id: nat | later.creation(id) != 0
      ensures exists p :: p in r'.alive && p < |r'.entries| && r'.entries[p].threadId == id
    {
      var p :| p in g.alive && p < |g.entries| && g.entries[p].threadId == id;
      assert r'.entries[p].threadId == id;
    }
  }

  /** A window only grows: what it holds stays in it. */
  lemma GrownHomed(g: Roster, base: nat, marks: Marks, ops: seq<Operation>, homes: seq<nat>, i: nat, e: Entry, num: nat)
    requires g.Valid() && Shaped(g, base, marks) && AllHomed(g, base, marks, ops, homes)
    requires Grows(g, base, marks, i, e, num)
    ensures AllHomed(g.With(i, e), base, WithAlloc(marks, e.threadId, num), ops, homes)
  {
    GrownStart(g, base, marks, i, e, num);
    hide Shaped, Grows;
    var r', later := g.With(i, e), WithAlloc(marks, e.threadId, num);
    forall k | 0 <= k < |ops| && ops[k].allocPtr != 0 ensures Homed(r', base, later, ops[k], homes[k]) {
      assert Homed(g, base, marks, ops[k], homes[k]);
    }
  }

  lemma ChargedWindow(e: Entry, num: nat, size: nat)
    ensures var e' := Charged(e, num, size);
      && e'.threadId == e.threadId && e'.lastAllocMsgNum == num
      && e'.creationMsgNum == if e.creationMsgNum == 0 then num else e.creationMsgNum
  {
  }

  /** An allocation whose number is past that of the last creation is charged to an entry whose window then holds it. */
  lemma AllocSettled(r: Roster, base: nat, marks: Marks, ops: seq<Operation>, homes: seq<nat>, o: Operation)
    requires Settled(r, base, marks, ops, homes) && o.allocPtr != 0
    requires marks.alloc(o.callerThreadId) < o.msgNum && o.msgNum !in marks.created(o.callerThreadId)
    requires marks.creation(o.callerThreadId) < o.msgNum
    ensures Settled(r.AddAlloc(o.callerThreadId, o.msgNum, o.allocSize, o.time), base,
      WithAlloc(marks, o.callerThreadId, o.msgNum), ops + [o], homes + [r.Get(o.callerThreadId, false, o.time).1])
  {
    hide Roster.Get, Charged, Shaped, Manned, AllHomed;
    var (g, i) := r.Get(o.callerThreadId, false, o.time);
    var r', later := r.AddAlloc(o.callerThreadId, o.msgNum, o.allocSize, o.time),
      WithAlloc(marks, o.callerThreadId, o.msgNum);
    var e' := Charged(g.entries[i], o.msgNum, o.allocSize);
    GetSettled(r, base, marks, ops, homes, o.callerThreadId, o.time);
    ChargedWindow(g.entries[i], o.msgNum, o.allocSize);
    assert r' == g.With(i, e');
    GrownShaped(g, base, marks, i, e', o.msgNum);
    GrownManned(g, marks, i, e', o.msgNum);
    GrownHomed(g, base, marks, ops, homes, i, e', o.msgNum);
    GrownStart(g, base, marks, i, e', o.msgNum);
    MoreHomed(r', base, later, ops, homes, o, i);
  }

  lemma MoreHomed(r: Roster, base: nat, marks: Marks, ops: seq<Operation>, homes: seq<nat>, o: Operation, home: nat)
    requires AllHomed(r, base, marks, ops, homes) && (o.allocPtr != 0 ==> Homed(r, base, marks, o, home))
    ensures AllHomed(r, base, marks, ops + [o], homes + [home])
  {
  }

  // ---- A thread message ----

  lemma CreatedAppends(r: Roster, id: nat, num: nat, time: Timeval) returns (e: Entry)
    requires r.Valid()
    ensures r.Created(id, num, time) == Appended(r.Retire(id, time), e)
    ensures e.threadId == id && e.creationMsgNum == e.lastAllocMsgNum == num
    ensures e.currentSize == 0 && e.currentAllocCount == 0
  {
    hide Roster.Retire;
    var name := if r.Retire(id, time).listed == [] then MainName() else [];
    e := NewEntry(id, time, name).(creationMsgNum := num, lastAllocMsgNum := num);
  }

  lemma CreatedSettled(r: Roster, base: nat, marks: Marks, ops: seq<Operation>, homes: seq<nat>, id: nat, num: nat,
    time: Timeval)
    requires Settled(r, base, marks, ops, homes) && 0 < num
    ensures Settled(r.Created(id, num, time), base, WithCreation(marks, id, num), ops, homes)
  {
    hide Settled, Vacant, Roster.Retire, Roster.Created;
    SettledValid(r, base, marks, ops, homes);
    var e := CreatedAppends(r, id, num, time);
    RetireVacant(r, base, marks, ops, homes, id, time);
    AppendedSettled(r.Retire(id, time), base, marks, ops, homes, e, WithCreation(marks, id, num));
  }

  lemma NamedSettled(r: Roster, base: nat, marks: Marks, ops: seq<Operation>, homes: seq<nat>, id: nat, name: seq<nat>,
    time: Timeval)
    requires Settled(r, base, marks, ops, homes)
    ensures Settled(r.Named(id, name, time), base, marks, ops, homes)
  {
    hide Roster.Get, Settled;
    SettledValid(r, base, marks, ops, homes);
    var (g, i) := r.Get(id, false, time);
    GetSettled(r, base, marks, ops, homes, id, time);
    SettledValid(g, base, marks, ops, homes);
    SameWindowsSettled(g, r.Named(id, name, time), base, marks, ops, homes);
  }

  // ---- Sessions ----

  /** A ledger at the start of a session: nothing listed and no thread taken to be alive. */
  ghost predicate FreshSession(l: Ledger) {
    l.Valid() && l.book.ops == [] && l.roster.listed == [] && l.roster.alive == []
  }

  /** The thread id and the number of a call that says something about windows: an allocation, or a creation. */
  function About(call: HandlerCall): (about: Option<(nat, nat)>) {
    match call
    case OnMemoryOperation(h, _, ptr, _, _) => if ptr != 0 then Some((h.threadId, h.msgNum)) else None
    case OnThreadOperation(h, id, _) => if h.msgCode == CODE_PTHREAD_CREATE then Some((id, h.msgNum)) else None
    case _ => None
  }

  function Marked(marks: Marks, call: HandlerCall): (later: Marks) {
    if About(call).None? then marks
    else if call.OnMemoryOperation? then WithAlloc(marks, About(call).value.0, About(call).value.1)
    else WithCreation(marks, About(call).value.0, About(call).value.1)
  }

  function MarksOf(calls: seq<HandlerCall>): (marks: Marks) {
    if calls == [] then NoMarks() else Marked(MarksOf(calls[..|calls| - 1]), calls[|calls| - 1])
  }

  /** What every client sees to: one connection, in which a thread allocates in the order of its numbers, a number is
      given out once, and none is 0. */
  predicate InTurn(marks: Marks, call: HandlerCall) {
    && !call.OnNewConnection?
    && (About(call).Some? ==>
         var (id, num) := About(call).value;
         if call.OnMemoryOperation? then marks.alloc(id) < num && num !in marks.created(id) else 0 < num)
  }

  predicate AllInTurn(calls: seq<HandlerCall>) {
    calls == [] || (AllInTurn(calls[..|calls| - 1]) && InTurn(MarksOf(calls[..|calls| - 1]), calls[|calls| - 1]))
  }

  /** The number of an allocation is past that of the creation that opened its entry. */
  predicate Follows(marks: Marks, call: HandlerCall) {
    call.OnMemoryOperation? && call.allocPtr != 0 ==> marks.creation(call.header.threadId) < call.header.msgNum
  }

  predicate AllFollow(calls: seq<HandlerCall>) {
    calls == [] || (AllFollow(calls[..|calls| - 1]) && Follows(MarksOf(calls[..|calls| - 1]), calls[|calls| - 1]))
  }

  /** The entry that an operation is charged to. */
  function Home(l: Ledger, o: Operation): (place: nat)
    requires l.Valid()
  {
    if o.allocPtr == 0 then 0 else l.Taken(o).Get(o.callerThreadId, false, o.time).1
  }

  function HomesAfter(l: Ledger, homes: seq<nat>, call: HandlerCall): (later: seq<nat>)
    requires l.Valid()
  {
    match call
    case OnMemoryOperation(h, size, ptr, num, freePtr) => homes + [Home(l, NewOperation(h, size, ptr, num, freePtr))]
    case OnNewConnection => []
    case _ => homes
  }

  /** The entries that the operations of a run were charged to. */
  function Homes(l: Ledger, calls: seq<HandlerCall>): (homes: seq<nat>)
    requires l.Valid()
  {
    if calls == [] then []
    else HomesAfter(Run(l, calls[..|calls| - 1]), Homes(l, calls[..|calls| - 1]), calls[|calls| - 1])
  }

  lemma TakenSettled(l: Ledger, base: nat, marks: Marks, homes: seq<nat>, o: Operation)
    requires l.Valid() && Settled(l.roster, base, marks, l.book.ops, homes)
    ensures Settled(l.Taken(o), base, marks, l.book.Release(o.freePtr).ops, homes)
  {
    hide Settled, Roster.AddFree;
    var j := l.book.Freed(o.freePtr);
    if j.Some? {
      FreedIsLive(l.book, o.freePtr);
      FreeSettled(l.roster, base, marks, l.book.ops, homes, j.value, o.time);
    }
  }

  lemma AddSettled(l: Ledger, base: nat, marks: Marks, homes: seq<nat>, o: Operation)
    requires l.Valid() && Settled(l.roster, base, marks, l.book.ops, homes)
    requires o.allocPtr != 0 ==>
      && marks.alloc(o.callerThreadId) < o.msgNum && o.msgNum !in marks.created(o.callerThreadId)
      && marks.creation(o.callerThreadId) < o.msgNum
    ensures var later := if o.allocPtr == 0 then marks else WithAlloc(marks, o.callerThreadId, o.msgNum);
      Settled(l.AddMemoryOperation(o).roster, base, later, l.AddMemoryOperation(o).book.ops, homes + [Home(l, o)])
  {
    hide Settled, AllHomed, Roster.AddFree, Roster.AddAlloc, Stats.Record, Ledger.Taken, Roster.Get, Book.Release;
    TakenSettled(l, base, marks, homes, o);
    var ops := l.book.Release(o.freePtr).ops;
    assert l.AddMemoryOperation(o).book.ops == ops + [o];
    if o.allocPtr == 0 {
      IdleSettled(l.Taken(o), base, marks, ops, homes, o);
    } else {
      AllocSettled(l.Taken(o), base, marks, ops, homes, o);
    }
  }

  lemma IdleSettled(r: Roster, base: nat, marks: Marks, ops: seq<Operation>, homes: seq<nat>, o: Operation)
    requires Settled(r, base, marks, ops, homes) && o.allocPtr == 0
    ensures Settled(r, base, marks, ops + [o], homes + [0])
  {
    hide Shaped, Manned, AllHomed;
    MoreHomed(r, base, marks, ops, homes, o, 0);
  }

  lemma AttachSettled(r: Roster, base: nat, marks: Marks, b: Book, trace: Trace, homes: seq<nat>)
    requires b.Valid() && Settled(r, base, marks, b.ops, homes)
    ensures Settled(r, base, marks, b.Attach(trace).ops, homes)
  {
    hide Shaped, Manned, Book.Attach, AllHomed;
    AttachSame(b, trace);
    SameNumbersHomed(r, base, marks, b.ops, b.Attach(trace).ops, homes);
  }

  lemma ThreadSettled(r: Roster, base: nat, marks: Marks, ops: seq<Operation>, homes: seq<nat>, id: nat, num: nat,
    name: seq<nat>, time: Timeval)
    requires r.Valid() && Settled(r, base, marks, ops, homes)
    ensures 0 < num ==> Settled(r.Created(id, num, time), base, WithCreation(marks, id, num), ops, homes)
    ensures Settled(r.Named(id, name, time), base, marks, ops, homes)
    ensures Settled(r.Get(id, false, time).0, base, marks, ops, homes)
  {
    hide Settled, Roster.Created, Roster.Named, Roster.Get;
    if 0 < num { CreatedSettled(r, base, marks, ops, homes, id, num, time); }
    NamedSettled(r, base, marks, ops, homes, id, name, time);
    GetSettled(r, base, marks, ops, homes, id, time);
  }

  /** One call of a session. */
  lemma HandleSettled(l: Ledger, base: nat, marks: Marks, homes: seq<nat>, call: HandlerCall)
    requires l.Valid() && Settled(l.roster, base, marks, l.book.ops, homes) && InTurn(marks, call) &&
      Follows(marks, call)
    ensures var l' := l.Handle(call);
      Settled(l'.roster, base, Marked(marks, call), l'.book.ops, HomesAfter(l, homes, call))
  {
    hide Settled, Roster.Created, Roster.Named, Book.Attach, Roster.Get, Indexed, Stats.Record, Home;
    match call
    case OnMemoryOperation(h, size, ptr, num, freePtr) =>
      AddSettled(l, base, marks, homes, NewOperation(h, size, ptr, num, freePtr));
    case OnThreadOperation(h, id, name) =>
      ThreadSettled(l.roster, base, marks, l.book.ops, homes, id, h.msgNum, name, Timeval(h.timeSec, h.timeUsec));
    case OnBacktrace(origin, addrs) => AttachSettled(l.roster, base, marks, l.book, Trace(origin, addrs), homes);
    case OnSymbolInfos(_) =>
  }

  /** Through every such session each operation stays in the window of the entry it was charged to. */
  lemma {:induction false} SessionSettled(l: Ledger, calls: seq<HandlerCall>)
    requires FreshSession(l) && AllInTurn(calls) && AllFollow(calls)
    ensures var s := Run(l, calls);
      Settled(s.roster, |l.roster.entries|, MarksOf(calls), s.book.ops, Homes(l, calls))
  {
    if calls == [] {
      assert Homes(l, calls) == [];
    } else {
      hide Settled, Ledger.Handle, InTurn, Follows, HomesAfter;
      var front := calls[..|calls| - 1];
      SessionSettled(l, front);
      HandleSettled(Run(l, front), |l.roster.entries|, MarksOf(front), Homes(l, front), calls[|calls| - 1]);
    }
  }

  // ---- The fallback, exactly ----

  /** An operation that has allocated something and is not freed: one that a free may still look for. */
  predicate Holding(o: Operation) { o.allocPtr != 0 && !o.freed }

  /** No free of an operation would have to fall back. */
  ghost predicate NoneLost(l: Ledger)
    requires l.Valid()
  {
    forall k :: 0 <= k < |l.book.ops| && Holding(l.book.ops[k]) ==>
      l.roster.Owner(l.book.ops[k].callerThreadId, l.book.ops[k].msgNum).Some?
  }

  lemma SessionNoneLost(l: Ledger, calls: seq<HandlerCall>)
    requires FreshSession(l) && AllInTurn(calls) && AllFollow(calls)
    ensures NoneLost(Run(l, calls))
  {
    hide Run, Homes, AllInTurn, AllFollow, MarksOf, Roster.Owner, Shaped, Manned;
    SessionSettled(l, calls);
    var s, homes := Run(l, calls), Homes(l, calls);
    forall k | 0 <= k < |s.book.ops| && Holding(s.book.ops[k])
      ensures s.roster.Owner(s.book.ops[k].callerThreadId, s.book.ops[k].msgNum).Some?
    {
      assert Homed(s.roster, |l.roster.entries|, MarksOf(calls), s.book.ops[k], homes[k]);
      OwnerExists(s.roster, |l.roster.entries|, homes[k], s.book.ops[k].msgNum);
    }
  }

  /** An allocation with a number before that of the creation of its entry: no window of its thread holds it. */
  lemma LateAllocationLost(l: Ledger, front: seq<HandlerCall>, call: HandlerCall)
    requires FreshSession(l) && AllInTurn(front) && AllFollow(front)
    requires InTurn(MarksOf(front), call) && !Follows(MarksOf(front), call)
    ensures var s, ops := Run(l, front + [call]), Run(l, front + [call]).book.ops;
      && ops != [] && Holding(ops[|ops| - 1])
      && s.roster.Owner(ops[|ops| - 1].callerThreadId, ops[|ops| - 1].msgNum).None?
  {
    hide Run, Homes, AllInTurn, AllFollow, MarksOf, Roster.Owner, Settled, Roster.AddAlloc, Stats.Record, Ledger.Taken,
      Book.Release;
    var s, marks, homes := Run(l, front), MarksOf(front), Homes(l, front);
    var o := NewOperation(call.header, call.allocSize, call.allocPtr, call.allocNum, call.freePtr);
    SessionSettled(l, front);
    RunSnoc(l, front, call);
    TakenSettled(s, |l.roster.entries|, marks, homes, o);
    ChargedLate(s.Taken(o), |l.roster.entries|, marks, s.book.Release(o.freePtr).ops, homes, o);
  }

  lemma RunSnoc(l: Ledger, calls: seq<HandlerCall>, x: HandlerCall)
    requires l.Valid()
    ensures Run(l, calls + [x]) == Run(l, calls).Handle(x)
    ensures Homes(l, calls + [x]) == HomesAfter(Run(l, calls), Homes(l, calls), x)
  {
    hide Ledger.Handle, HomesAfter;
    assert (calls + [x])[..|calls|] == calls;
  }

  lemma ChargedLate(r: Roster, base: nat, marks: Marks, ops: seq<Operation>, homes: seq<nat>, o: Operation)
    requires Settled(r, base, marks, ops, homes) && marks.alloc(o.callerThreadId) < o.msgNum
    requires o.msgNum !in marks.created(o.callerThreadId) && o.msgNum <= marks.creation(o.callerThreadId)
    ensures r.AddAlloc(o.callerThreadId, o.msgNum, o.allocSize, o.time).Owner(o.callerThreadId, o.msgNum).None?
  {
    hide Roster.Get, AllHomed, Manned, Roster.Owner, WindowFits;
    GetSettled(r, base, marks, ops, homes, o.callerThreadId, o.time);
    var (g, i) := r.Get(o.callerThreadId, false, o.time);
    var r' := r.AddAlloc(o.callerThreadId, o.msgNum, o.allocSize, o.time);
    assert g.entries[i].creationMsgNum == marks.creation(o.callerThreadId);
    forall j | base <= j < |r'.entries| ensures !HasWindow(o.callerThreadId, o.msgNum)(r'.entries[j]) {
      if j != i { assert r'.entries[j] == g.entries[j]; EndsBefore(g.entries[j], marks, o.callerThreadId, o.msgNum); }
    }
    OwnerNowhere(r', base, o.callerThreadId, o.msgNum);
  }

  lemma EndsBefore(e: Entry, marks: Marks, id: nat, num: nat)
    requires WindowFits(e, marks) && marks.alloc(id) < num && num !in marks.created(id)
    ensures !HasWindow(id, num)(e)
  {
  }

  lemma {:induction false} Prefixes(calls: seq<HandlerCall>, n: nat)
    requires n <= |calls|
    ensures AllInTurn(calls) ==> AllInTurn(calls[..n])
    ensures AllFollow(calls) ==> AllFollow(calls[..n])
  {
    if n < |calls| {
      Prefixes(calls[..|calls| - 1], n);
      assert calls[..|calls| - 1][..n] == calls[..n];
    } else {
      assert calls[..n] == calls;
    }
  }

  /** The first allocation that is late. */
  lemma {:induction false} FirstLate(calls: seq<HandlerCall>) returns (n: nat)
    requires AllInTurn(calls) && !AllFollow(calls)
    ensures n < |calls| && AllInTurn(calls[..n]) && AllFollow(calls[..n])
    ensures InTurn(MarksOf(calls[..n]), calls[n]) && !Follows(MarksOf(calls[..n]), calls[n])
  {
    hide InTurn, Follows, MarksOf;
    var front := calls[..|calls| - 1];
    if AllFollow(front) {
      n := |calls| - 1;
    } else {
      n := FirstLate(front);
      assert front[..n] == calls[..n];
    }
  }

  /** The fallback, exactly: at every moment of a session the search by number finds some entry for each operation still
      to be freed, if and only if each allocation has a number past that of the creation that opened its entry. */
  lemma FallbackExactly(l: Ledger, calls: seq<HandlerCall>)
    requires FreshSession(l) && AllInTurn(calls)
    ensures (forall n: nat :: n <= |calls| ==> NoneLost(Run(l, calls[..n]))) <==> AllFollow(calls)
  {
    hide AllInTurn, AllFollow, Run, InTurn, Follows;
    if AllFollow(calls) {
      forall n: nat | n <= |calls| ensures NoneLost(Run(l, calls[..n])) {
        Prefixes(calls, n);
        SessionNoneLost(l, calls[..n]);
      }
    } else {
      var n := FirstLate(calls);
      LateAllocationLost(l, calls[..n], calls[n]);
      assert calls[..n + 1] == calls[..n] + [calls[n]];
      assert !NoneLost(Run(l, calls[..n + 1]));
    }
  }
}
