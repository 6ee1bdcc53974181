/** What the criteria of a filter pass select, in terms of what was received. */
module FilterExact {
  import opened Sequences
  import opened Lists
  import opened Messages
  import opened Operations
  import opened Threads
  import opened Ledger
  import opened Totals
  import opened Filter
  import opened Chunking
  import opened Charging
  import opened Streams
  import opened Holdings

  // ---- Not freed ----

  function NotFreed(): (c: Criteria) { Everything().(notFreedOnly := true) }

  /** What a client sends: a message of a free allocates nothing, any other has an address. */
  predicate FromClient(m: Message) {
    m.MemoryMessage? ==>
      && (m.header.msgCode == CODE_FREE <==> m.allocPtr == 0)
      && (m.header.msgCode == CODE_FREE ==> m.allocSize == 0)
  }

  ghost predicate AllFromClient(ms: seq<Message>) {
    forall i :: 0 <= i < |ms| ==> FromClient(ms[i])
  }

  predicate Clean(o: Operation) {
    && (o.msgCode == CODE_FREE <==> o.allocPtr == 0)
    && (o.msgCode == CODE_FREE ==> o.allocSize == 0)
  }

  ghost predicate AllClean(ops: seq<Operation>) {
    forall k :: 0 <= k < |ops| ==> Clean(ops[k])
  }

  lemma StepClean(l: Ledger, m: Message)
    requires l.Valid() && AllClean(l.book.ops) && Ordinary(m) && FromClient(m)
    ensures AllClean(Run(l, CallsOf(m)).book.ops)
  {
    hide Ledger.Handle, AllClean, Clean, Run, Ordinary, FromClient;
    if m.AppMessage? {
      OpeningOnly(l, m);
    } else {
      assert CallsOf(m) == [CallsOf(m)[0]];
      RunOne(l, CallsOf(m)[0]);
      HandleClean(l, m);
    }
  }

  lemma OpeningOnly(l: Ledger, m: Message)
    requires l.Valid() && Ordinary(m) && m.AppMessage?
    ensures Run(l, CallsOf(m)) == l
  {
    hide Ledger.Handle;
    assert CallsOf(m) == [];
  }

  lemma HandleClean(l: Ledger, m: Message)
    requires l.Valid() && AllClean(l.book.ops) && FromClient(m) && !m.AppMessage?
    ensures AllClean(l.Handle(CallsOf(m)[0]).book.ops)
  {
    hide Book.Release, Book.Attach, Roster.AddFree, Roster.AddAlloc, Stats.Record, Ledger.Taken, Clean;
    match m
    case MemoryMessage(h, size, ptr, num, freePtr) =>
      ReleaseSame(l.book, freePtr);
      ReleasedClean(l.book, freePtr);
      AddedClean(m);
    case ThreadMessage(_, _, _) =>
    case BacktraceMessage(_, origin, addrs) => AttachedClean(l.book, Trace(origin, addrs));
    case SymbolMessage(_, _) =>
  }

  lemma ReleasedClean(b: Book, freePtr: nat)
    requires b.Valid() && AllClean(b.ops)
    ensures AllClean(b.Release(freePtr).ops)
  {
    hide Book.Release;
    ReleaseSame(b, freePtr);
    forall k | 0 <= k < |b.ops| ensures Clean(b.Release(freePtr).ops[k]) { assert Clean(b.ops[k]); }
  }

  lemma AddedClean(m: Message)
    requires m.MemoryMessage? && FromClient(m)
    ensures Clean(NewOperation(m.header, m.allocSize, m.allocPtr, m.allocNum, m.freePtr))
  {
  }

  lemma AttachedClean(b: Book, trace: Trace)
    requires b.Valid() && AllClean(b.ops)
    ensures AllClean(b.Attach(trace).ops)
  {
    hide Book.Attach;
    AttachSame(b, trace);
    forall k | 0 <= k < |b.ops| ensures Clean(b.Attach(trace).ops[k]) { assert Clean(b.ops[k]); }
  }

  lemma {:induction false} LedgerClean(l: Ledger, ms: seq<Message>)
    requires l.Valid() && l.book == NoBook() && AllOrdinary(ms) && AllFromClient(ms)
    ensures AllClean(Feed(l, ms).book.ops)
  {
    hide Feed, Run, Ordinary, Clean, FromClient;
    if ms == [] {
      FeedNothing(l);
    } else {
      var front, last := ms[..|ms| - 1], ms[|ms| - 1];
      assert AllOrdinary(front) && AllFromClient(front);
      LedgerClean(l, front);
      FeedSnoc(l, front, last);
      assert ms == front + [last];
      StepClean(Feed(l, front), last);
    }
  }

  lemma {:induction false} PositionsAlike<T>(s: seq<T>, keep: T -> bool, keep': T -> bool)
    requires forall k :: 0 <= k < |s| ==> keep(s[k]) == keep'(s[k])
    ensures Positions(s, keep) == Positions(s, keep')
  {
    if s == [] {
    } else {
      assert forall k :: 0 <= k < |s| - 1 ==> s[..|s| - 1][k] == s[k];
      PositionsAlike(s[..|s| - 1], keep, keep');
    }
  }

  /** In the ledger of the messages of a client the pass for what is not freed selects, in order, the operations of just
      those messages whose allocation no later one has freed. */
  lemma NotFreedPass(l: Ledger, ms: seq<Message>)
    requires l.Valid() && l.book == NoBook() && AllOrdinary(ms) && AllFromClient(ms)
    ensures var selection, held := Selected(Feed(l, ms).book.ops, NotFreed()), Unfreed(ms);
      |selection| == |held| && forall q :: 0 <= q < |held| ==> StandsFor(selection[q], held[q])
  {
    hide Feed, Unfreed, Ordinary, StandsFor;
    var ops := Feed(l, ms).book.ops;
    LedgerHolds(l, ms);
    LedgerClean(l, ms);
    forall k | 0 <= k < |ops| ensures Accepts(NotFreed())(ops[k]) == Holding(ops[k]) {
      assert Clean(ops[k]);
    }
    PositionsAlike(ops, Accepts(NotFreed()), Holding);
  }

  /** What such a pass adds up is the remaining size of the server. */
  lemma NotFreedRemaining(l: Ledger, ms: seq<Message>, s: Stats)
    requires l.Valid() && l.book == NoBook() && Tallies(l.stats, []) && AllOrdinary(ms) && AllFromClient(ms)
    ensures var found, stats := Scan(s, Selected(Feed(l, ms).book.ops, NotFreed())), Feed(l, ms).stats;
      && found.memoryOperationCount == |Unfreed(ms)|
      && found.totalAllocSize == found.totalRemainingSize == stats.totalRemainingSize
  {
    hide Feed, Unfreed, Ordinary, Scan, Selected, StandsFor, Total, Counts.Of;
    var ops, selection := Feed(l, ms).book.ops, Selected(Feed(l, ms).book.ops, NotFreed());
    NotFreedPass(l, ms);
    LedgerClean(l, ms);
    ScanTallies(s, selection);
    FeedTallies(l, ms);
    NotFreedSizes(ops);
  }

  lemma FeedTallies(l: Ledger, ms: seq<Message>)
    requires l.Valid() && l.book == NoBook() && Tallies(l.stats, [])
    ensures Tallies(Feed(l, ms).stats, Feed(l, ms).book.ops)
  {
    hide Tallies, Run;
    RunTallies(l, Flatten(Steps(ms)));
  }

  lemma NotFreedSizes(ops: seq<Operation>)
    requires AllClean(ops)
    ensures Total(Selected(ops, NotFreed()), SizeOf) == Total(Selected(ops, NotFreed()), LiveSize) ==
      Total(ops, LiveSize)
  {
    hide Total, Selected;
    SelectedTotal(ops, NotFreed(), SizeOf);
    SelectedTotal(ops, NotFreed(), LiveSize);
    forall k | 0 <= k < |ops|
      ensures Weighed(NotFreed(), SizeOf)(ops[k]) == Weighed(NotFreed(), LiveSize)(ops[k]) == LiveSize(ops[k])
    {
      assert Clean(ops[k]);
      NotFreedWeight(ops[k]);
    }
    TotalSame(ops, Weighed(NotFreed(), SizeOf), LiveSize);
    TotalSame(ops, Weighed(NotFreed(), LiveSize), LiveSize);
  }

  lemma NotFreedWeight(o: Operation)
    requires Clean(o)
    ensures Weighed(NotFreed(), SizeOf)(o) == Weighed(NotFreed(), LiveSize)(o) == LiveSize(o)
  {
    assert Accepted(NotFreed(), o) <==> o.msgCode != CODE_FREE && !o.freed;
    assert Weighed(NotFreed(), SizeOf)(o) == if Accepted(NotFreed(), o) then o.allocSize else 0;
    assert Weighed(NotFreed(), LiveSize)(o) == if Accepted(NotFreed(), o) then LiveSize(o) else 0;
  }

  /** A weight counted only for what is accepted. */
  function Weighed(c: Criteria, weight: Operation -> nat): (w: Operation -> nat) {
    (o: Operation) => if Accepted(c, o) then weight(o) else 0
  }

  lemma {:induction false} SelectedTotal(ops: seq<Operation>, c: Criteria, weight: Operation -> nat)
    ensures Total(Selected(ops, c), weight) == Total(ops, Weighed(c, weight))
  {
    if ops == [] {
    } else {
      hide Selected, Accepted;
      var front, o := ops[..|ops| - 1], ops[|ops| - 1];
      SelectedTotal(front, c, weight);
      SelectedSnoc(ops, c);
      if Accepted(c, o) { TotalAppend(Selected(front, c), o, weight); }
    }
  }

  lemma SelectedSnoc(ops: seq<Operation>, c: Criteria)
    requires ops != []
    ensures var front, o := ops[..|ops| - 1], ops[|ops| - 1];
      Selected(ops, c) == if Accepted(c, o) then Selected(front, c) + [o] else Selected(front, c)
  {
    hide Accepted;
    var front, n := ops[..|ops| - 1], |ops| - 1;
    assert View(ops, Positions(front, Accepts(c))) == Selected(front, c);
    if Accepted(c, ops[n]) {
      assert Selected(ops, c) == View(ops, Positions(front, Accepts(c))) + [ops[n]];
    } else {
      assert Positions(ops, Accepts(c)) == Positions(front, Accepts(c));
    }
  }

  // ---- Times ----

  /** A time in microseconds. */
  function Micros(t: Timeval): (n: nat) { t.sec * 1000000 + t.usec }

  predicate Proper(t: Timeval) { t.usec < 1000000 }

  ghost predicate AllProper(ops: seq<Operation>) {
    forall k :: 0 <= k < |ops| ==> Proper(ops[k].time)
  }

  lemma BeforeByMicros(a: Timeval, b: Timeval)
    requires Proper(a) && Proper(b)
    ensures IsBefore(a, b) <==> Micros(a) < Micros(b)
  {
  }

  /** What any criteria select: the operations of the thread asked for, if one is, between the two times, ends included,
      and of these just those that hold memory, if that is asked for. */
  lemma SelectedExactly(ops: seq<Operation>, c: Criteria, k: nat)
    requires k < |ops| && AllProper(ops) && AllClean(ops) && Proper(c.earliest) && Proper(c.latest)
    ensures k in Positions(ops, Accepts(c)) <==>
      && (c.threadId != 0 ==> ops[k].callerThreadId == c.threadId)
      && Micros(c.earliest) <= Micros(ops[k].time)
      && (Micros(c.latest) != 0 ==> Micros(ops[k].time) <= Micros(c.latest))
      && (c.notFreedOnly ==> ops[k].allocPtr != 0 && !ops[k].freed)
  {
    hide Accepted, Positions, Micros, Proper, Clean;
    PositionsExactly(ops, Accepts(c));
    assert Clean(ops[k]) && Proper(ops[k].time);
    AcceptedExactly(ops[k], c);
  }

  lemma AcceptedExactly(o: Operation, c: Criteria)
    requires Clean(o) && Proper(o.time) && Proper(c.earliest) && Proper(c.latest)
    ensures Accepted(c, o) <==>
      && (c.threadId != 0 ==> o.callerThreadId == c.threadId)
      && Micros(c.earliest) <= Micros(o.time)
      && (Micros(c.latest) != 0 ==> Micros(o.time) <= Micros(c.latest))
      && (c.notFreedOnly ==> o.allocPtr != 0 && !o.freed)
  {
    hide IsBefore, IsSet, Micros, Proper;
    BeforeByMicros(o.time, c.earliest);
    BeforeByMicros(c.latest, o.time);
    SetByMicros(c.earliest);
    SetByMicros(c.latest);
  }

  lemma SetByMicros(t: Timeval)
    ensures IsSet(t) <==> Micros(t) != 0
  {
  }

  function UpTo(t: Timeval): (c: Criteria) { Everything().(latest := t) }

  function From(t: Timeval): (c: Criteria) { Everything().(earliest := t) }

  function NextMicro(t: Timeval): (t': Timeval)
    ensures Proper(t) ==> Proper(t') && Micros(t') == Micros(t) + 1
  {
    if t.usec == 999999 then Timeval(t.sec + 1, 0) else Timeval(t.sec, t.usec + 1)
  }

  /** A pass up to a time and one from a microsecond later split the list, whatever is summed. */
  lemma PassesSplit(ops: seq<Operation>, t: Timeval, weight: Operation -> nat)
    requires AllProper(ops) && Proper(t) && IsSet(t)
    ensures Total(Selected(ops, UpTo(t)), weight) +
      Total(Selected(ops, From(NextMicro(t))), weight) == Total(ops, weight)
  {
    hide Total, Selected, IsBefore, Micros;
    var first, rest := Weighed(UpTo(t), weight), Weighed(From(NextMicro(t)), weight);
    SelectedTotal(ops, UpTo(t), weight);
    SelectedTotal(ops, From(NextMicro(t)), weight);
    MicrosSet(NextMicro(t));
    forall k | 0 <= k < |ops| ensures weight(ops[k]) == first(ops[k]) + rest(ops[k]) {
      assert Proper(ops[k].time);
      BeforeByMicros(t, ops[k].time);
      BeforeByMicros(ops[k].time, NextMicro(t));
    }
    TotalSum(ops, weight, first, rest);
  }

  lemma MicrosSet(t: Timeval)
    ensures 0 < Micros(t) <==> IsSet(t)
  {
  }
}
