/** Every operation is charged to one thread entry, and freed from the same one, also when thread ids are used again. */
module Attribution {
  import opened Sequences
  import opened Words
  import opened Lists
  import opened Messages
  import opened Operations
  import opened Threads
  import opened Ledger
  import opened Totals
  import opened Charging

  /** What an entry holds: the operations it owns that allocated something and are not freed. */
  predicate HeldBy(e: Entry, o: Operation) {
    Holding(o) && Owns(e, o)
  }

  function HeldSize(e: Entry): (weight: Operation -> nat) {
    (o: Operation) => if HeldBy(e, o) then o.allocSize else 0
  }

  function HeldMark(e: Entry): (weight: Operation -> nat) {
    (o: Operation) => if HeldBy(e, o) then 1 else 0
  }

  ghost predicate Balanced(e: Entry, ops: seq<Operation>) {
    && e.currentSize == Total(ops, HeldSize(e)) % M64
    && e.currentAllocCount == Total(ops, HeldMark(e)) % M32
  }

  /** The window of an entry begins behind an operation, if it has begun. */
  predicate Beyond(e: Entry, o: Operation) {
    e.threadId == o.callerThreadId && e.creationMsgNum != 0 ==> o.msgNum < e.creationMsgNum
  }

  /** An operation lies in the window of no entry but its own, and before that of an entry that is alive and not its
      own, so that no growth of that window will take it in. */
  ghost predicate Alone(r: Roster, base: nat, o: Operation, home: nat) {
    && (forall i :: base <= i < |r.entries| && Owns(r.entries[i], o) ==> i == home)
    && (forall p :: p in r.alive && base <= p < |r.entries| && p != home ==> Beyond(r.entries[p], o))
  }

  /** That is so of each operation that is not freed. */
  ghost predicate AllAlone(r: Roster, base: nat, ops: seq<Operation>, homes: seq<nat>) {
    && |homes| == |ops|
    && forall k :: 0 <= k < |ops| && Holding(ops[k]) ==> Alone(r, base, ops[k], homes[k])
  }

  ghost predicate AllBalanced(r: Roster, base: nat, ops: seq<Operation>) {
    forall i :: base <= i < |r.entries| ==> Balanced(r.entries[i], ops)
  }

  /** The state of a session in which each operation that is not freed is found where it was charged. */
  ghost predicate Accounted(r: Roster, base: nat, marks: Marks, ops: seq<Operation>, homes: seq<nat>) {
    Settled(r, base, marks, ops, homes) && AllAlone(r, base, ops, homes) && AllBalanced(r, base, ops)
  }

  /** The search by number finds the entry that the operation was charged to. */
  lemma OwnerOf(r: Roster, base: nat, marks: Marks, ops: seq<Operation>, homes: seq<nat>, k: nat)
    requires Accounted(r, base, marks, ops, homes) && k < |ops| && Holding(ops[k])
    ensures r.Owner(ops[k].callerThreadId, ops[k].msgNum) == Some(homes[k])
    ensures base <= homes[k] < |r.entries| && Owns(r.entries[homes[k]], ops[k])
    ensures forall j :: base <= j < |r.entries| && Owns(r.entries[j], ops[k]) ==> j == homes[k]
  {
    hide Balanced, Roster.Owner, Shaped, Manned;
    assert Homed(r, base, marks, ops[k], homes[k]) && Alone(r, base, ops[k], homes[k]);
    var e := r.entries[homes[k]];
    forall j | base <= j < |r.entries| && HasWindow(e.threadId, ops[k].msgNum)(r.entries[j]) ensures j == homes[k] {
      assert Owns(r.entries[j], ops[k]);
    }
    OwnerFound(r, base, homes[k], ops[k].msgNum);
  }

  // ---- A free ----

  lemma FreeBalanced(e: Entry, ops: seq<Operation>, k: nat)
    requires Balanced(e, ops) && k < |ops| && !ops[k].freed
    ensures var ops' := ops[k := ops[k].(freed := true)];
      if HeldBy(e, ops[k]) then Balanced(Discharged(e, ops[k].allocSize), ops') else Balanced(e, ops')
  {
    hide Total;
    var x, size := ops[k].(freed := true), ops[k].allocSize;
    var e' := Discharged(e, size);
    TotalUpdate(ops, k, x, HeldSize(e));
    TotalUpdate(ops, k, x, HeldMark(e));
    if HeldBy(e, ops[k]) {
      ModSub(Total(ops, HeldSize(e)), size, M64);
      ModSub(Total(ops, HeldMark(e)), 1, M32);
      SameWindowTotals(e, e', ops[k := x]);
    }
  }

  lemma SameWindowTotals(e: Entry, e': Entry, ops: seq<Operation>)
    requires SameWindow(e, e')
    ensures Total(ops, HeldSize(e)) == Total(ops, HeldSize(e')) && Total(ops, HeldMark(e)) == Total(ops, HeldMark(e'))
  {
    TotalSame(ops, HeldSize(e), HeldSize(e'));
    TotalSame(ops, HeldMark(e), HeldMark(e'));
  }

  /** What is said about windows stays true while windows stay the same and no more threads are alive. */
  lemma SameWindowsAlone(r: Roster, r': Roster, base: nat, ops: seq<Operation>, homes: seq<nat>)
    requires |r'.entries| == |r.entries| && forall p :: p in r'.alive ==> p in r.alive
    requires forall j :: 0 <= j < |r.entries| ==> SameWindow(r.entries[j], r'.entries[j])
    requires AllAlone(r, base, ops, homes)
    ensures AllAlone(r', base, ops, homes)
  {
    forall k | 0 <= k < |ops| && Holding(ops[k]) ensures Alone(r', base, ops[k], homes[k]) {
      assert Alone(r, base, ops[k], homes[k]);
      forall i | base <= i < |r'.entries| && Owns(r'.entries[i], ops[k]) ensures i == homes[k] {
        assert SameWindow(r.entries[i], r'.entries[i]) && Owns(r.entries[i], ops[k]);
      }
    }
  }

  /** An operation freed, or given its backtrace, is no more in windows than before. */
  lemma FewerAlone(r: Roster, base: nat, ops: seq<Operation>, ops': seq<Operation>, homes: seq<nat>)
    requires |ops'| == |ops|
    requires forall k :: 0 <= k < |ops| ==> SameIdentity(ops[k], ops'[k]) && (ops[k].freed ==> ops'[k].freed)
    requires AllAlone(r, base, ops, homes)
    ensures AllAlone(r, base, ops', homes)
  {
    forall k | 0 <= k < |ops'| && Holding(ops'[k]) ensures Alone(r, base, ops'[k], homes[k]) {
      assert SameIdentity(ops[k], ops'[k]) && Alone(r, base, ops[k], homes[k]);
      forall i | base <= i < |r.entries| && Owns(r.entries[i], ops'[k]) ensures i == homes[k] {
        assert Owns(r.entries[i], ops[k]);
      }
    }
  }

  /** A free is taken off the very entry that was charged. */
  lemma FreeAccounted(r: Roster, base: nat, marks: Marks, ops: seq<Operation>, homes: seq<nat>, k: nat, time: Timeval)
    requires Accounted(r, base, marks, ops, homes) && k < |ops| && Holding(ops[k])
    ensures var r' := r.AddFree(ops[k].callerThreadId, ops[k].msgNum, ops[k].allocSize, time);
      && Accounted(r', base, marks, ops[k := ops[k].(freed := true)], homes)
      && r' == r.With(homes[k], Discharged(r.entries[homes[k]], ops[k].allocSize))
  {
    hide Balanced, Roster.Owner, Roster.Get, Settled, Alone;
    SettledValid(r, base, marks, ops, homes);
    OwnerOf(r, base, marks, ops, homes, k);
    FreeSettled(r, base, marks, ops, homes, k, time);
    var i := homes[k];
    var ops' := ops[k := ops[k].(freed := true)];
    var r' := r.AddFree(ops[k].callerThreadId, ops[k].msgNum, ops[k].allocSize, time);
    assert r' == r.With(i, Discharged(r.entries[i], ops[k].allocSize));
    SameWindowsAlone(r, r', base, ops, homes);
    FewerAlone(r', base, ops, ops', homes);
    forall j | base <= j < |r'.entries| ensures Balanced(r'.entries[j], ops') {
      FreeBalanced(r.entries[j], ops, k);
      if j != i { assert !Owns(r.entries[j], ops[k]); }
    }
  }

  // ---- A new entry ----

  lemma KeepBalanced(e: Entry, e': Entry, ops: seq<Operation>)
    requires Balanced(e, ops) && SameWindow(e, e')
    requires e'.currentSize == e.currentSize && e'.currentAllocCount == e.currentAllocCount
    ensures Balanced(e', ops)
  {
    SameWindowTotals(e, e', ops);
  }

  /** A new entry begins, if it has begun, behind all operations of its id that are not freed. */
  ghost predicate Clear(e: Entry, ops: seq<Operation>) {
    forall k :: 0 <= k < |ops| && Holding(ops[k]) ==> Beyond(e, ops[k])
  }

  lemma AppendedAlone(r: Roster, base: nat, marks: Marks, ops: seq<Operation>, homes: seq<nat>, e: Entry)
    requires InSession(r, base) && AllHomed(r, base, marks, ops, homes) && AllAlone(r, base, ops, homes)
    requires Clear(e, ops) && e.creationMsgNum == e.lastAllocMsgNum
    ensures AllAlone(Appended(r, e), base, ops, homes)
  {
    var r' := Appended(r, e);
    assert forall p :: p in r'.alive ==> p in r.alive || p == |r.entries|;
    forall k | 0 <= k < |ops| && Holding(ops[k]) ensures Alone(r', base, ops[k], homes[k]) {
      assert Homed(r, base, marks, ops[k], homes[k]) && Alone(r, base, ops[k], homes[k]) && Beyond(e, ops[k]);
      forall i | base <= i < |r'.entries| && Owns(r'.entries[i], ops[k]) ensures i == homes[k] {
        assert i < |r.entries| && Owns(r.entries[i], ops[k]);
      }
    }
  }

  lemma AppendedAccounted(r: Roster, base: nat, marks: Marks, ops: seq<Operation>, homes: seq<nat>, e: Entry,
    later: Marks)
    requires Vacant(r, base, marks, ops, homes, e.threadId) && Opens(e, marks, later) && Clear(e, ops)
    requires AllAlone(r, base, ops, homes) && AllBalanced(r, base, ops)
    requires e.currentSize == 0 && e.currentAllocCount == 0
    ensures Accounted(Appended(r, e), base, later, ops, homes)
  {
    hide Settled, Shaped, Balanced, Alone, AllHomed, Clear;
    AppendedSettled(r, base, marks, ops, homes, e, later);
    AppendedAlone(r, base, marks, ops, homes, e);
    var r' := Appended(r, e);
    forall i | base <= i < |r'.entries| ensures Balanced(r'.entries[i], ops) {
      if i < |r.entries| { assert r'.entries[i] == r.entries[i]; } else { NewBalanced(r, base, marks, ops, homes, e); }
    }
  }

  lemma NewBalanced(r: Roster, base: nat, marks: Marks, ops: seq<Operation>, homes: seq<nat>, e: Entry)
    requires AllHomed(r, base, marks, ops, homes) && Clear(e, ops)
    requires e.creationMsgNum == e.lastAllocMsgNum && e.currentSize == 0 && e.currentAllocCount == 0
    ensures Balanced(e, ops)
  {
    forall k | 0 <= k < |ops| ensures !HeldBy(e, ops[k]) {
      if Holding(ops[k]) { assert Homed(r, base, marks, ops[k], homes[k]) && Beyond(e, ops[k]); }
    }
    TotalZero(ops, HeldSize(e));
    TotalZero(ops, HeldMark(e));
  }

  // ---- Getting an entry ----

  /** Ending a thread leaves what its entries hold. */
  lemma RetireAccounted(r: Roster, base: nat, marks: Marks, ops: seq<Operation>, homes: seq<nat>, id: nat,
    time: Timeval)
    requires Accounted(r, base, marks, ops, homes)
    ensures var q := r.Retire(id, time);
      Vacant(q, base, marks, ops, homes, id) && AllAlone(q, base, ops, homes) && AllBalanced(q, base, ops)
  {
    hide Balanced, Alone, Roster.Retire, SameWindow, WindowFits, Manned, AllHomed;
    var q := r.Retire(id, time);
    RetireParts(r, base, id, time);
    RetireVacant(r, base, marks, ops, homes, id, time);
    SameWindowsAlone(r, q, base, ops, homes);
    forall i | base <= i < |q.entries| ensures Balanced(q.entries[i], ops) {
      KeepBalanced(r.entries[i], q.entries[i], ops);
    }
  }

  /** The entry got for a thread is alive and the newest of its id; nothing else changes. */
  lemma GetAccounted(r: Roster, base: nat, marks: Marks, ops: seq<Operation>, homes: seq<nat>, id: nat, time: Timeval)
    requires Accounted(r, base, marks, ops, homes)
    ensures Accounted(r.Get(id, false, time).0, base, marks, ops, homes)
  {
    hide Balanced, Alone, AllHomed, Shaped;
    if r.AliveAt(id).None? {
      NoneAlive(r, id);
      var e := NewEntry(id, time, if r.listed == [] then MainName() else []);
      assert r.Get(id, false, time).0 == Appended(r, e);
      assert NoneAliveOf(r, id) && marks.creation(id) == 0;
      AppendedAccounted(r, base, marks, ops, homes, e, marks);
    }
  }

  // ---- An allocation ----

  /** An operation that allocates nothing is charged to nobody. */
  lemma IdleAccounted(r: Roster, base: nat, marks: Marks, ops: seq<Operation>, homes: seq<nat>, o: Operation)
    requires Accounted(r, base, marks, ops, homes) && o.allocPtr == 0
    ensures Accounted(r, base, marks, ops + [o], homes + [0])
  {
    hide Settled, Alone;
    SettledValid(r, base, marks, ops, homes);
    IdleSettled(r, base, marks, ops, homes, o);
    forall i | base <= i < |r.entries| ensures Balanced(r.entries[i], ops + [o]) {
      OtherBalanced(r.entries[i], ops, o);
    }
  }

  /** Growing the window of the newest entry of a thread takes in no operation received before. */
  lemma GrownOwnsNoMore(g: Roster, base: nat, marks: Marks, i: nat, e: Entry, num: nat, o: Operation, home: nat)
    requires Shaped(g, base, marks) && Grows(g, base, marks, i, e, num)
    requires Homed(g, base, marks, o, home) && Alone(g, base, o, home)
    ensures Owns(e, o) <==> Owns(g.entries[i], o)
  {
    assert WindowFits(g.entries[i], marks);
  }

  lemma GrownAlone(g: Roster, base: nat, marks: Marks, ops: seq<Operation>, homes: seq<nat>, i: nat, e: Entry, num: nat)
    requires g.Valid() && Shaped(g, base, marks) && AllHomed(g, base, marks, ops, homes) &&
      AllAlone(g, base, ops, homes)
    requires Grows(g, base, marks, i, e, num)
    ensures AllAlone(g.With(i, e), base, ops, homes)
  {
    hide Shaped;
    var r' := g.With(i, e);
    assert forall j :: 0 <= j < |g.entries| && j != i ==> r'.entries[j] == g.entries[j];
    forall k | 0 <= k < |ops| && Holding(ops[k]) ensures Alone(r', base, ops[k], homes[k]) {
      assert Homed(g, base, marks, ops[k], homes[k]) && Alone(g, base, ops[k], homes[k]);
      GrownOwnsNoMore(g, base, marks, i, e, num, ops[k], homes[k]);
      forall j | base <= j < |r'.entries| && Owns(r'.entries[j], ops[k]) ensures j == homes[k] {
        assert Owns(g.entries[j], ops[k]);
      }
    }
  }

  /** The new operation lies in the grown window, and in no older one. */
  lemma NewAlone(g: Roster, base: nat, marks: Marks, i: nat, e: Entry, o: Operation)
    requires g.Valid() && Shaped(g, base, marks) && Grows(g, base, marks, i, e, o.msgNum)
    requires o.callerThreadId == e.threadId
    ensures Alone(g.With(i, e), base, o, i) && Owns(e, o)
  {
    var r' := g.With(i, e);
    assert WindowFits(g.entries[i], marks);
    forall j | base <= j < |r'.entries| && Owns(r'.entries[j], o) ensures j == i {
      assert WindowFits(g.entries[j], marks);
    }
    forall p | p in r'.alive && base <= p < |r'.entries| && r'.entries[p].threadId == o.callerThreadId ensures p == i {
      assert p <= i;
    }
  }

  lemma ChargeBalanced(g: Roster, base: nat, marks: Marks, ops: seq<Operation>, homes: seq<nat>, i: nat, o: Operation)
    requires Accounted(g, base, marks, ops, homes) && i < |g.entries|
    requires Grows(g, base, marks, i, Charged(g.entries[i], o.msgNum, o.allocSize), o.msgNum)
    requires g.entries[i].threadId == o.callerThreadId && Holding(o)
    requires Owns(Charged(g.entries[i], o.msgNum, o.allocSize), o)
    ensures Balanced(Charged(g.entries[i], o.msgNum, o.allocSize), ops + [o])
  {
    hide Total, Shaped, Manned, Alone, Homed;
    var e := g.entries[i];
    var e' := Charged(e, o.msgNum, o.allocSize);
    forall k | 0 <= k < |ops| ensures HeldBy(e, ops[k]) == HeldBy(e', ops[k]) {
      if Holding(ops[k]) {
        assert Alone(g, base, ops[k], homes[k]) && Homed(g, base, marks, ops[k], homes[k]);
        GrownOwnsNoMore(g, base, marks, i, e', o.msgNum, ops[k], homes[k]);
      }
    }
    TotalSame(ops, HeldSize(e), HeldSize(e'));
    TotalSame(ops, HeldMark(e), HeldMark(e'));
    TotalAppend(ops, o, HeldSize(e'));
    TotalAppend(ops, o, HeldMark(e'));
    ModAdd(Total(ops, HeldSize(e)), o.allocSize, M64);
    ModAdd(Total(ops, HeldMark(e)), 1, M32);
  }

  lemma OtherBalanced(e: Entry, ops: seq<Operation>, o: Operation)
    requires Balanced(e, ops) && !HeldBy(e, o)
    ensures Balanced(e, ops + [o])
  {
    TotalAppend(ops, o, HeldSize(e));
    TotalAppend(ops, o, HeldMark(e));
  }

  /** An allocation is charged to the newest entry of its thread. */
  lemma AllocAccounted(r: Roster, base: nat, marks: Marks, ops: seq<Operation>, homes: seq<nat>, o: Operation)
    requires Accounted(r, base, marks, ops, homes) && Holding(o)
    requires marks.alloc(o.callerThreadId) < o.msgNum && o.msgNum !in marks.created(o.callerThreadId)
    requires marks.creation(o.callerThreadId) < o.msgNum
    ensures Accounted(r.AddAlloc(o.callerThreadId, o.msgNum, o.allocSize, o.time), base,
      WithAlloc(marks, o.callerThreadId, o.msgNum), ops + [o], homes + [r.Get(o.callerThreadId, false, o.time).1])
  {
    hide Balanced, Roster.Get, Charged, Shaped, Manned, Alone, AllHomed;
    var (g, i) := r.Get(o.callerThreadId, false, o.time);
    var r' := r.AddAlloc(o.callerThreadId, o.msgNum, o.allocSize, o.time);
    var e' := Charged(g.entries[i], o.msgNum, o.allocSize);
    AllocSettled(r, base, marks, ops, homes, o);
    GetSettled(r, base, marks, ops, homes, o.callerThreadId, o.time);
    GetAccounted(r, base, marks, ops, homes, o.callerThreadId, o.time);
    ChargedWindow(g.entries[i], o.msgNum, o.allocSize);
    assert r' == g.With(i, e');
    GrownAlone(g, base, marks, ops, homes, i, e', o.msgNum);
    NewAlone(g, base, marks, i, e', o);
    forall j | base <= j < |r'.entries| ensures Balanced(r'.entries[j], ops + [o]) {
      if j == i {
        ChargeBalanced(g, base, marks, ops, homes, i, o);
      } else {
        NotOwned(r', base, o, i, j);
        OtherBalanced(g.entries[j], ops, o);
      }
    }
  }

  lemma NotOwned(r: Roster, base: nat, o: Operation, home: nat, j: nat)
    requires Alone(r, base, o, home) && base <= j < |r.entries| && j != home
    ensures !Owns(r.entries[j], o)
  {
  }

  // ---- A thread message ----

  /** The number of a creation is past those of the operations of its thread id that are not freed. */
  ghost predicate PassesNone(ops: seq<Operation>, id: nat, num: nat) {
    forall k :: 0 <= k < |ops| && Holding(ops[k]) && ops[k].callerThreadId == id ==> ops[k].msgNum < num
  }

  lemma CreatedAccounted(r: Roster, base: nat, marks: Marks, ops: seq<Operation>, homes: seq<nat>, id: nat, num: nat,
    time: Timeval)
    requires Accounted(r, base, marks, ops, homes) && 0 < num && PassesNone(ops, id, num)
    ensures Accounted(r.Created(id, num, time), base, WithCreation(marks, id, num), ops, homes)
  {
    hide Accounted, Vacant, Roster.Retire, Roster.Created, AllAlone, AllBalanced;
    AccountedValid(r, base, marks, ops, homes);
    var e := CreatedAppends(r, id, num, time);
    RetireAccounted(r, base, marks, ops, homes, id, time);
    AppendedAccounted(r.Retire(id, time), base, marks, ops, homes, e, WithCreation(marks, id, num));
  }

  lemma AccountedValid(r: Roster, base: nat, marks: Marks, ops: seq<Operation>, homes: seq<nat>)
    requires Accounted(r, base, marks, ops, homes)
    ensures r.Valid() && |homes| == |ops|
  {
  }

  lemma NamedAccounted(r: Roster, base: nat, marks: Marks, ops: seq<Operation>, homes: seq<nat>, id: nat,
    name: seq<nat>, time: Timeval)
    requires Accounted(r, base, marks, ops, homes)
    ensures Accounted(r.Named(id, name, time), base, marks, ops, homes)
  {
    hide Balanced, Roster.Get, Settled, Alone;
    SettledValid(r, base, marks, ops, homes);
    var (g, i) := r.Get(id, false, time);
    GetAccounted(r, base, marks, ops, homes, id, time);
    NamedSettled(r, base, marks, ops, homes, id, name, time);
    var r' := r.Named(id, name, time);
    assert r' == g.With(i, g.entries[i].(threadName := name));
    SameWindowsAlone(g, r', base, ops, homes);
    forall j | base <= j < |r'.entries| ensures Balanced(r'.entries[j], ops) {
      KeepBalanced(g.entries[j], r'.entries[j], ops);
    }
  }

  lemma AttachAccounted(r: Roster, base: nat, marks: Marks, b: Book, trace: Trace, homes: seq<nat>)
    requires b.Valid() && Accounted(r, base, marks, b.ops, homes)
    ensures Accounted(r, base, marks, b.Attach(trace).ops, homes)
  {
    hide Settled, Alone;
    var ops, ops' := b.ops, b.Attach(trace).ops;
    AttachSettled(r, base, marks, b, trace, homes);
    AttachSame(b, trace);
    FewerAlone(r, base, ops, ops', homes);
    forall i | base <= i < |r.entries| ensures Balanced(r.entries[i], ops') {
      AttachTotal(b, trace, HeldSize(r.entries[i]));
      AttachTotal(b, trace, HeldMark(r.entries[i]));
    }
  }

  // ---- Whole sessions ----

  /** A creation whose number is past those of the operations of its id that are not freed. */
  ghost predicate Clears(ops: seq<Operation>, call: HandlerCall) {
    call.OnThreadOperation? && call.header.msgCode == CODE_PTHREAD_CREATE ==>
      PassesNone(ops, call.threadId, call.header.msgNum)
  }

  /** The number of an allocation is past that of the creation that opened its entry; that of a creation is past those
      of the allocations of its id that are still held when it comes. */
  ghost predicate NonePassed(l: Ledger, calls: seq<HandlerCall>)
    requires l.Valid()
  {
    calls == [] ||
    var front, last := calls[..|calls| - 1], calls[|calls| - 1];
    NonePassed(l, front) && Follows(MarksOf(front), last) && Clears(Run(l, front).book.ops, last)
  }

  lemma {:induction false} NonePassedFollow(l: Ledger, calls: seq<HandlerCall>)
    requires l.Valid() && NonePassed(l, calls)
    ensures AllFollow(calls)
  {
    if calls == [] {
    } else {
      hide Clears, Follows;
      NonePassedFollow(l, calls[..|calls| - 1]);
    }
  }

  lemma TakenAccounted(l: Ledger, base: nat, marks: Marks, homes: seq<nat>, o: Operation)
    requires l.Valid() && Accounted(l.roster, base, marks, l.book.ops, homes)
    ensures Accounted(l.Taken(o), base, marks, l.book.Release(o.freePtr).ops, homes)
  {
    hide Accounted, Roster.AddFree;
    var j := l.book.Freed(o.freePtr);
    if j.Some? {
      FreedIsLive(l.book, o.freePtr);
      FreeAccounted(l.roster, base, marks, l.book.ops, homes, j.value, o.time);
    }
  }

  lemma AddAccounted(l: Ledger, base: nat, marks: Marks, homes: seq<nat>, o: Operation)
    requires l.Valid() && Accounted(l.roster, base, marks, l.book.ops, homes) && !o.freed && o.backtrace.None?
    requires o.allocPtr != 0 ==>
      && marks.alloc(o.callerThreadId) < o.msgNum && o.msgNum !in marks.created(o.callerThreadId)
      && marks.creation(o.callerThreadId) < o.msgNum
    ensures var later := if o.allocPtr == 0 then marks else WithAlloc(marks, o.callerThreadId, o.msgNum);
      Accounted(l.AddMemoryOperation(o).roster, base, later, l.AddMemoryOperation(o).book.ops, homes + [Home(l, o)])
  {
    hide Accounted, Roster.AddFree, Roster.AddAlloc, Stats.Record, Ledger.Taken, Roster.Get, Book.Release;
    TakenAccounted(l, base, marks, homes, o);
    var ops := l.book.Release(o.freePtr).ops;
    assert l.AddMemoryOperation(o).book.ops == ops + [o];
    if o.allocPtr == 0 {
      IdleAccounted(l.Taken(o), base, marks, ops, homes, o);
    } else {
      AllocAccounted(l.Taken(o), base, marks, ops, homes, o);
    }
  }

  /** One call of a session. */
  lemma HandleAccounted(l: Ledger, base: nat, marks: Marks, homes: seq<nat>, call: HandlerCall)
    requires l.Valid() && Accounted(l.roster, base, marks, l.book.ops, homes)
    requires InTurn(marks, call) && Follows(marks, call) && Clears(l.book.ops, call)
    ensures var l' := l.Handle(call);
      Accounted(l'.roster, base, Marked(marks, call), l'.book.ops, HomesAfter(l, homes, call))
  {
    hide Accounted, Roster.Created, Roster.Named, Book.Attach, Roster.Get, Indexed, Stats.Record, Home, PassesNone;
    match call
    case OnMemoryOperation(h, size, ptr, num, freePtr) =>
      AddAccounted(l, base, marks, homes, NewOperation(h, size, ptr, num, freePtr));
    case OnThreadOperation(h, id, name) =>
      ThreadAccounted(l.roster, base, marks, l.book.ops, homes, id, h.msgNum, name, Timeval(h.timeSec, h.timeUsec));
    case OnBacktrace(origin, addrs) => AttachAccounted(l.roster, base, marks, l.book, Trace(origin, addrs), homes);
    case OnSymbolInfos(_) =>
  }

  lemma ThreadAccounted(r: Roster, base: nat, marks: Marks, ops: seq<Operation>, homes: seq<nat>, id: nat, num: nat,
    name: seq<nat>, time: Timeval)
    requires r.Valid() && Accounted(r, base, marks, ops, homes)
    ensures 0 < num && PassesNone(ops, id, num) ==>
      Accounted(r.Created(id, num, time), base, WithCreation(marks, id, num), ops, homes)
    ensures Accounted(r.Named(id, name, time), base, marks, ops, homes)
    ensures Accounted(r.Get(id, false, time).0, base, marks, ops, homes)
  {
    hide Accounted, Roster.Created, Roster.Named, Roster.Get, PassesNone;
    if 0 < num && PassesNone(ops, id, num) { CreatedAccounted(r, base, marks, ops, homes, id, num, time); }
    NamedAccounted(r, base, marks, ops, homes, id, name, time);
    GetAccounted(r, base, marks, ops, homes, id, time);
  }

  /** Attribution: through every such session each operation that is not freed lies in the window of the entry it was
      charged to and in no other, and each entry's current size and count are those of the operations it holds. */
  lemma {:induction false} SessionAccounted(l: Ledger, calls: seq<HandlerCall>)
    requires FreshSession(l) && AllInTurn(calls) && NonePassed(l, calls)
    ensures var s := Run(l, calls);
      Accounted(s.roster, |l.roster.entries|, MarksOf(calls), s.book.ops, Homes(l, calls))
  {
    if calls == [] {
      assert Homes(l, calls) == [];
    } else {
      hide Accounted, Ledger.Handle, InTurn, Follows, Clears, HomesAfter;
      var front := calls[..|calls| - 1];
      SessionAccounted(l, front);
      HandleAccounted(Run(l, front), |l.roster.entries|, MarksOf(front), Homes(l, front), calls[|calls| - 1]);
    }
  }

  // ---- Sessions in number order ----

  /** Sufficient for both: one connection, whose numbers of allocations and creations increase for each thread id. */
  predicate Increasing(calls: seq<HandlerCall>) {
    if calls == [] then true
    else
      var front, last := calls[..|calls| - 1], calls[|calls| - 1];
      && Increasing(front) && !last.OnNewConnection?
      && (About(last).Some? ==> LastNumbers(front)(About(last).value.0) < About(last).value.1)
  }

  /** For each thread id the number of the last call about it, zero if there was none. */
  function LastNumbers(calls: seq<HandlerCall>): (now: Numbers) {
    if calls == [] then (id: nat) => 0
    else
      var now, about := LastNumbers(calls[..|calls| - 1]), About(calls[|calls| - 1]);
      if about.Some? then Advanced(now, about.value.0, about.value.1) else now
  }

  lemma {:induction false} IncreasingMarks(calls: seq<HandlerCall>)
    requires Increasing(calls)
    ensures AllInTurn(calls) && AllFollow(calls)
    ensures var marks := MarksOf(calls);
      forall id: nat :: marks.alloc(id) <= LastNumbers(calls)(id) && marks.creation(id) <= LastNumbers(calls)(id)
    ensures forall id: nat, num: nat :: num in MarksOf(calls).created(id) ==> num <= LastNumbers(calls)(id)
  {
    if calls == [] {
    } else {
      IncreasingMarks(calls[..|calls| - 1]);
    }
  }

  /** Then none is passed. */
  lemma {:induction false} IncreasingNonePassed(l: Ledger, calls: seq<HandlerCall>)
    requires FreshSession(l) && Increasing(calls)
    ensures AllInTurn(calls) && NonePassed(l, calls)
  {
    IncreasingMarks(calls);
    if calls == [] {
    } else {
      hide Run, Homes, MarksOf, Shaped, Manned, LastNumbers;
      var front, last := calls[..|calls| - 1], calls[|calls| - 1];
      IncreasingNonePassed(l, front);
      IncreasingMarks(front);
      SessionSettled(l, front);
      LastIncreases(calls);
      var s, homes := Run(l, front), Homes(l, front);
      if last.OnThreadOperation? && last.header.msgCode == CODE_PTHREAD_CREATE {
        forall k | 0 <= k < |s.book.ops| && Holding(s.book.ops[k]) && s.book.ops[k].callerThreadId == last.threadId
          ensures s.book.ops[k].msgNum < last.header.msgNum
        {
          assert Homed(s.roster, |l.roster.entries|, MarksOf(front), s.book.ops[k], homes[k]);
        }
      }
    }
  }

  lemma LastIncreases(calls: seq<HandlerCall>)
    requires Increasing(calls) && calls != []
    ensures var front, about := calls[..|calls| - 1], About(calls[|calls| - 1]);
      Increasing(front) && (about.Some? ==> LastNumbers(front)(about.value.0) < about.value.1)
  {
  }

  /** The number of the last memory or thread message, zero if there was none. */
  function LastNumber(calls: seq<HandlerCall>): (num: nat) {
    if calls == [] then 0
    else
      match calls[|calls| - 1]
      case OnMemoryOperation(h, _, _, _, _) => h.msgNum
      case OnThreadOperation(h, _, _) => h.msgNum
      case _ => LastNumber(calls[..|calls| - 1])
  }

  /** One connection, whose memory and thread messages have strictly increasing numbers, none of them zero. */
  predicate InNumberOrder(calls: seq<HandlerCall>) {
    if calls == [] then true
    else
      var front := calls[..|calls| - 1];
      && InNumberOrder(front)
      && match calls[|calls| - 1]
         case OnNewConnection => false
         case OnMemoryOperation(h, _, _, _, _) => LastNumber(front) < h.msgNum
         case OnThreadOperation(h, _, _) => LastNumber(front) < h.msgNum
         case _ => true
  }

  /** A stream in the order of its numbers is one, in particular, for each thread id. */
  lemma {:induction false} NumberOrderIncreases(calls: seq<HandlerCall>)
    requires InNumberOrder(calls)
    ensures Increasing(calls) && forall id: nat :: LastNumbers(calls)(id) <= LastNumber(calls)
  {
    if calls == [] {
    } else {
      NumberOrderIncreases(calls[..|calls| - 1]);
    }
  }

  /** If numbers increase for each thread id, moreover, the windows of an id do not meet at all. */
  lemma {:induction false} SessionWindowed(l: Ledger, calls: seq<HandlerCall>)
    requires FreshSession(l) && Increasing(calls)
    ensures InSession(Run(l, calls).roster, |l.roster.entries|)
    ensures Windowed(Run(l, calls).roster, |l.roster.entries|, LastNumbers(calls))
  {
    if calls == [] {
    } else {
      hide Windowed, InSession, Ledger.Handle;
      var front := calls[..|calls| - 1];
      SessionWindowed(l, front);
      HandleWindowed(Run(l, front), |l.roster.entries|, LastNumbers(front), calls[|calls| - 1]);
    }
  }

  lemma HandleWindowed(l: Ledger, base: nat, now: Numbers, call: HandlerCall)
    requires l.Valid() && InSession(l.roster, base) && Windowed(l.roster, base, now) && !call.OnNewConnection?
    requires About(call).Some? ==> now(About(call).value.0) < About(call).value.1
    ensures var r := l.Handle(call).roster;
      && InSession(r, base)
      && Windowed(r, base, if About(call).Some? then Advanced(now, About(call).value.0, About(call).value.1) else now)
  {
    hide Windowed, InSession, Roster.Get, Indexed, Stats.Record, Book.Add, Book.Attach, Roster.AddFree, Roster.AddAlloc,
      Roster.Created, Roster.Named;
    match call
    case OnMemoryOperation(h, size, ptr, num, freePtr) =>
      var o := NewOperation(h, size, ptr, num, freePtr);
      if l.FreedBy(o).Some? {
        var f := l.FreedBy(o).value;
        FreeWindowed(l.roster, base, now, f.callerThreadId, f.msgNum, f.allocSize, o.time);
      }
      if ptr != 0 { AllocWindowed(l.Taken(o), base, now, h.threadId, h.msgNum, size, o.time); }
    case OnThreadOperation(h, id, name) =>
      var time := Timeval(h.timeSec, h.timeUsec);
      if h.msgCode == CODE_PTHREAD_CREATE {
        CreationWindowed(l.roster, base, now, id, h.msgNum, time);
      } else {
        NameWindowed(l.roster, base, now, id, name, time);
        GetWindowed(l.roster, base, now, id, false, time);
      }
    case _ =>
  }

  lemma FreeWindowed(r: Roster, base: nat, now: Numbers, id: nat, num: nat, size: nat, time: Timeval)
    requires r.Valid() && InSession(r, base) && Windowed(r, base, now)
    ensures InSession(r.AddFree(id, num, size, time), base) && Windowed(r.AddFree(id, num, size, time), base, now)
  {
    hide Windowed, InSession, Roster.Get, Roster.Owner;
    GetWindowed(r, base, now, id, false, time);
    var g := if r.Owner(id, num).Some? then (r, r.Owner(id, num).value) else r.Get(id, false, time);
    SameWindowed(g.0, base, now, g.1, Discharged(g.0.entries[g.1], size));
  }

  lemma AllocWindowed(r: Roster, base: nat, now: Numbers, id: nat, num: nat, size: nat, time: Timeval)
    requires r.Valid() && InSession(r, base) && Windowed(r, base, now) && now(id) < num
    ensures InSession(r.AddAlloc(id, num, size, time), base) &&
      Windowed(r.AddAlloc(id, num, size, time), base, Advanced(now, id, num))
  {
    hide Windowed, InSession, Roster.Get, Charged;
    GetWindowed(r, base, now, id, false, time);
    var (g, i) := r.Get(id, false, time);
    ChargedWindow(g.entries[i], num, size);
    GrowWindowed(g, base, now, i, Charged(g.entries[i], num, size), num);
  }

  lemma CreationWindowed(r: Roster, base: nat, now: Numbers, id: nat, num: nat, time: Timeval)
    requires r.Valid() && InSession(r, base) && Windowed(r, base, now) && now(id) < num
    ensures InSession(r.Created(id, num, time), base) &&
      Windowed(r.Created(id, num, time), base, Advanced(now, id, num))
  {
    hide Windowed, InSession, Roster.Get;
    GetWindowed(r, base, now, id, true, time);
    var (g, i) := r.Get(id, true, time);
    GrowWindowed(g, base, now, i, g.entries[i].(creationMsgNum := num, lastAllocMsgNum := num), num);
  }

  lemma NameWindowed(r: Roster, base: nat, now: Numbers, id: nat, name: seq<nat>, time: Timeval)
    requires r.Valid() && InSession(r, base) && Windowed(r, base, now)
    ensures InSession(r.Named(id, name, time), base) && Windowed(r.Named(id, name, time), base, now)
  {
    hide Windowed, InSession, Roster.Get;
    GetWindowed(r, base, now, id, false, time);
    var (g, i) := r.Get(id, false, time);
    SameWindowed(g, base, now, i, g.entries[i].(threadName := name));
  }

  // ---- What attribution gives ----

  /** A free never falls back on some entry of its thread: the search by number finds the one that was charged. */
  lemma FreeFindsOwner(l: Ledger, calls: seq<HandlerCall>, freePtr: nat)
    requires FreshSession(l) && AllInTurn(calls) && NonePassed(l, calls) && Run(l, calls).book.Freed(freePtr).Some?
    ensures var s, k := Run(l, calls), Run(l, calls).book.Freed(freePtr).value;
      var o := s.book.ops[k];
      var i := s.roster.Owner(o.callerThreadId, o.msgNum);
      && k < |Homes(l, calls)| && i == Some(Homes(l, calls)[k]) && HeldBy(s.roster.entries[i.value], o)
      && forall j :: |l.roster.entries| <= j < |s.roster.entries| && Owns(s.roster.entries[j], o) ==> j == i.value
  {
    hide Homes, Run, AllInTurn, NonePassed, MarksOf, Roster.Owner, Book.Freed;
    var s := Run(l, calls);
    SessionAccounted(l, calls);
    FreedIsLive(s.book, freePtr);
    OwnerOf(s.roster, |l.roster.entries|, MarksOf(calls), s.book.ops, Homes(l, calls), s.book.Freed(freePtr).value);
  }

  /** While less than 2 to the 64 bytes and 2 to the 32 operations are held, the entries are exact: an entry has the
      size and the count of what it holds, so that taking off one of its operations never wraps around. */
  lemma SizesExact(l: Ledger, calls: seq<HandlerCall>, i: nat)
    requires FreshSession(l) && AllInTurn(calls) && NonePassed(l, calls)
    requires |l.roster.entries| <= i < |Run(l, calls).roster.entries|
    ensures var ops, e := Run(l, calls).book.ops, Run(l, calls).roster.entries[i];
      Total(ops, LiveSize) < M64 ==>
        && e.currentSize == Total(ops, HeldSize(e)) <= Total(ops, LiveSize)
        && forall k :: 0 <= k < |ops| && HeldBy(e, ops[k]) ==> ops[k].allocSize <= e.currentSize
    ensures var ops, e := Run(l, calls).book.ops, Run(l, calls).roster.entries[i];
      Total(ops, HeldMark(e)) < M32 ==>
        && e.currentAllocCount == Total(ops, HeldMark(e))
        && forall k :: 0 <= k < |ops| && HeldBy(e, ops[k]) ==> 1 <= e.currentAllocCount
  {
    hide Run, AllInTurn, NonePassed, Homes, MarksOf;
    SessionAccounted(l, calls);
    var s := Run(l, calls);
    assert Balanced(s.roster.entries[i], s.book.ops);
    BalancedExact(s.roster.entries[i], s.book.ops);
  }

  lemma BalancedExact(e: Entry, ops: seq<Operation>)
    requires Balanced(e, ops)
    ensures Total(ops, LiveSize) < M64 ==> e.currentSize == Total(ops, HeldSize(e)) <= Total(ops, LiveSize)
    ensures Total(ops, LiveSize) < M64 ==> forall k :: 0 <= k < |ops| && HeldBy(e, ops[k]) ==>
      ops[k].allocSize <= e.currentSize
    ensures Total(ops, HeldMark(e)) < M32 ==> e.currentAllocCount == Total(ops, HeldMark(e))
    ensures Total(ops, HeldMark(e)) < M32 ==> forall k :: 0 <= k < |ops| && HeldBy(e, ops[k]) ==>
      1 <= e.currentAllocCount
  {
    TotalAtMost(ops, HeldSize(e), LiveSize);
    forall k | 0 <= k < |ops| && HeldBy(e, ops[k])
      ensures ops[k].allocSize <= Total(ops, HeldSize(e)) && 1 <= Total(ops, HeldMark(e))
    {
      TotalAtLeast(ops, k, HeldSize(e));
      TotalAtLeast(ops, k, HeldMark(e));
    }
  }
}
