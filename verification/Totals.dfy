/** The running totals of the ledger are what a pass over the list of operations would find. */
module Totals {
  import opened Sequences
  import opened Words
  import opened Lists
  import opened Messages
  import opened Operations
  import opened Threads
  import opened UsageChart
  import opened Ledger

  function SizeOf(o: Operation): (n: nat) { o.allocSize }

  function FreedSize(o: Operation): (n: nat) { if o.freed then o.allocSize else 0 }

  function LiveSize(o: Operation): (n: nat) { if o.freed then 0 else o.allocSize }

  function AllocMarkOf(o: Operation): (n: nat) { AllocMark(o.msgCode) }

  function FreeMarkOf(o: Operation): (n: nat) { FreeMark(o.msgCode, o.freePtr) }

  function CodeMark(code: nat): (weight: Operation -> nat) {
    (o: Operation) => if o.msgCode == code then 1 else 0
  }

  /** The statistics are those of a list of operations. */
  ghost predicate Tallies(s: Stats, ops: seq<Operation>) {
    && s.memoryOperationCount == |ops|
    && s.totalAllocSize == Total(ops, SizeOf) % M64
    && s.totalFreeSize == Total(ops, FreedSize) % M64
    && s.totalRemainingSize == Total(ops, LiveSize) % M64
    && s.totalAllocCount == Total(ops, AllocMarkOf)
    && s.totalFreeCount == Total(ops, FreeMarkOf)
    && s.totalRemainingCount == s.totalAllocCount - s.totalFreeCount
    && forall code :: CODE_MALLOC <= code <= CODE_PVALLOC ==> s.counts.Of(code) == Total(ops, CodeMark(code))
  }

  /** How a sum over the operations changes with one more operation, and the one it frees. */
  lemma AddTotal(b: Book, o: Operation, weight: Operation -> nat)
    requires b.Valid()
    ensures var j := b.Freed(o.freePtr);
      Total(b.Add(o).ops, weight) + (if j.Some? then weight(b.ops[j.value]) else 0)
      == Total(b.ops, weight) + weight(o) + (if j.Some? then weight(b.ops[j.value].(freed := true)) else 0)
  {
    var r := b.Release(o.freePtr);
    var j := b.Freed(o.freePtr);
    TotalAppend(r.ops, o, weight);
    if j.Some? {
      TotalUpdate(b.ops, j.value, b.ops[j.value].(freed := true), weight);
    }
  }

  /** The sizes part of the statistics. */
  ghost predicate TalliesSizes(s: Stats, ops: seq<Operation>) {
    && s.totalAllocSize == Total(ops, SizeOf) % M64
    && s.totalFreeSize == Total(ops, FreedSize) % M64
    && s.totalRemainingSize == Total(ops, LiveSize) % M64
  }

  lemma AddTalliesSizes(l: Ledger, o: Operation)
    requires l.Valid() && TalliesSizes(l.stats, l.book.ops) && !o.freed
    ensures TalliesSizes(l.AddMemoryOperation(o).stats, l.book.Add(o).ops)
  {
    hide Total, Book.Add, Roster.AddFree, Roster.AddAlloc, Counts.Bump, Add64, Sub64;
    var j := l.book.Freed(o.freePtr);
    if j.Some? { FreedIsLive(l.book, o.freePtr); }
    AddTotal(l.book, o, SizeOf);
    AddTotal(l.book, o, FreedSize);
    AddTotal(l.book, o, LiveSize);
    var freed := if j.Some? then Some(l.book.ops[j.value].allocSize) else None;
    SizesStep(l.stats, l.AddMemoryOperation(o).stats, o.allocSize, freed,
              Total(l.book.ops, SizeOf), Total(l.book.ops, FreedSize), Total(l.book.ops, LiveSize));
  }

  /** The step of the three sizes, when they stand for sums of unbounded integers. */
  lemma SizesStep(s: Stats, s': Stats, size: nat, freed: Option<nat>, allocs: nat, frees: nat, lives: nat)
    requires s.totalAllocSize == allocs % M64 && s.totalFreeSize == frees % M64 && s.totalRemainingSize == lives % M64
    requires freed.Some? ==> freed.value <= lives + size
    requires s'.totalAllocSize == Add64(s.totalAllocSize, size)
    requires s'.totalFreeSize == if freed.Some? then Add64(s.totalFreeSize, freed.value) else s.totalFreeSize
    requires s'.totalRemainingSize ==
      if freed.Some? then Sub64(Add64(s.totalRemainingSize, size), freed.value) else Add64(s.totalRemainingSize, size)
    ensures s'.totalAllocSize == (allocs + size) % M64
    ensures s'.totalFreeSize == (frees + if freed.Some? then freed.value else 0) % M64
    ensures s'.totalRemainingSize == (lives + size - if freed.Some? then freed.value else 0) % M64
  {
    ModAdd(allocs, size, M64);
    ModAdd(lives, size, M64);
    if freed.Some? {
      ModAdd(frees, freed.value, M64);
      ModSub(lives + size, freed.value, M64);
    }
  }

  /** Each operation received keeps the statistics those of the list. */
  lemma AddTallies(l: Ledger, o: Operation)
    requires l.Valid() && Tallies(l.stats, l.book.ops) && !o.freed && o.backtrace.None?
    ensures Tallies(l.AddMemoryOperation(o).stats, l.AddMemoryOperation(o).book.ops)
  {
    hide Total, Book.Add, Roster.AddFree, Roster.AddAlloc, Counts.Bump, Counts.Of, Add64, Sub64;
    var s := l.AddMemoryOperation(o).stats;
    AddTalliesSizes(l, o);
    AddTotal(l.book, o, AllocMarkOf);
    AddTotal(l.book, o, FreeMarkOf);
    forall code | CODE_MALLOC <= code <= CODE_PVALLOC
      ensures s.counts.Of(code) == Total(l.book.Add(o).ops, CodeMark(code))
    {
      AddTotal(l.book, o, CodeMark(code));
    }
    AddLength(l.book, o);
  }

  lemma AddLength(b: Book, o: Operation)
    requires b.Valid()
    ensures |b.Add(o).ops| == |b.ops| + 1
  {
  }

  /** A backtrace changes no sum that does not look at backtraces. */
  lemma AttachTotal(b: Book, trace: Trace, weight: Operation -> nat)
    requires b.Valid() && forall o: Operation :: weight(o) == weight(o.(backtrace := Some(trace)))
    ensures Total(b.Attach(trace).ops, weight) == Total(b.ops, weight)
  {
    if b.Origin(trace.originMsgNum).Some? {
      var j := b.untraced[b.Origin(trace.originMsgNum).value];
      TotalUpdate(b.ops, j, b.ops[j].(backtrace := Some(trace)), weight);
    }
  }

  lemma AttachTallies(s: Stats, b: Book, trace: Trace)
    requires b.Valid() && Tallies(s, b.ops)
    ensures Tallies(s, b.Attach(trace).ops)
  {
    hide Total, Counts.Of;
    AttachTotal(b, trace, SizeOf);
    AttachTotal(b, trace, FreedSize);
    AttachTotal(b, trace, LiveSize);
    AttachTotal(b, trace, AllocMarkOf);
    AttachTotal(b, trace, FreeMarkOf);
    forall code | CODE_MALLOC <= code <= CODE_PVALLOC
      ensures Total(b.Attach(trace).ops, CodeMark(code)) == Total(b.ops, CodeMark(code)) {
      AttachTotal(b, trace, CodeMark(code));
    }
  }

  lemma HandleTallies(l: Ledger, call: HandlerCall)
    requires l.Valid() && Tallies(l.stats, l.book.ops)
    ensures Tallies(l.Handle(call).stats, l.Handle(call).book.ops)
  {
    hide Tallies;
    match call
    case OnNewConnection => TalliesNothing(l.ClearData().Counted().stats);
    case OnMemoryOperation(h, size, ptr, num, freePtr) => AddTallies(l, NewOperation(h, size, ptr, num, freePtr));
    case OnThreadOperation(h, id, name) => TalliesSame(l.stats, l.UpdateThreadInfos(h, id, name).stats, l.book.ops);
    case OnBacktrace(origin, addrs) =>
      AttachTallies(l.stats, l.book, Trace(origin, addrs));
      TalliesSame(l.stats, l.Counted().stats, l.book.Attach(Trace(origin, addrs)).ops);
    case OnSymbolInfos(infos) => TalliesSame(l.stats, l.Counted().stats, l.book.ops);
  }

  /** Incremental equals batch: in every run, new connections included, the statistics kept call by call are those of a
      pass over the list of operations. */
  lemma {:induction false} RunTallies(l: Ledger, calls: seq<HandlerCall>)
    requires l.Valid() && Tallies(l.stats, l.book.ops)
    ensures Tallies(Run(l, calls).stats, Run(l, calls).book.ops)
  {
    hide Tallies, Ledger.Handle;
    if calls == [] {
    } else {
      RunTallies(l, calls[..|calls| - 1]);
      HandleTallies(Run(l, calls[..|calls| - 1]), calls[|calls| - 1]);
    }
  }

  lemma TalliesNothing(s: Stats)
    requires s == NoStats().(messageCount := s.messageCount, peakRemainingSize := s.peakRemainingSize)
    ensures Tallies(s, [])
  {
  }

  lemma TalliesSame(s: Stats, s': Stats, ops: seq<Operation>)
    requires Tallies(s, ops) && s' == s.(messageCount := s'.messageCount)
    ensures Tallies(s', ops)
  {
  }

  /** The fields that a filter pass recomputes. */
  ghost predicate SameTotals(s: Stats, t: Stats) {
    && s.memoryOperationCount == t.memoryOperationCount
    && s.totalAllocSize == t.totalAllocSize && s.totalFreeSize == t.totalFreeSize &&
      s.totalRemainingSize == t.totalRemainingSize
    && s.totalAllocCount == t.totalAllocCount && s.totalFreeCount == t.totalFreeCount &&
      s.totalRemainingCount == t.totalRemainingCount
    && s.counts == t.counts
  }

  lemma TalliesUnique(s: Stats, t: Stats, ops: seq<Operation>)
    requires Tallies(s, ops) && Tallies(t, ops)
    ensures SameTotals(s, t)
  {
    hide Total;
    TalliedCodes(s, ops);
    TalliedCodes(t, ops);
  }

  // ---- Conservation ----

  /** What was allocated is what was freed and what remains, as 64-bit numbers; and what remains is what the operations
      not marked as freed hold. */
  lemma Conservation(calls: seq<HandlerCall>)
    ensures var l := Run(NewLedger(), calls);
      && l.stats.totalRemainingSize == Sub64(l.stats.totalAllocSize, l.stats.totalFreeSize)
      && l.stats.totalRemainingSize == Total(l.book.ops, LiveSize) % M64
  {
    hide Run, Total, Counts.Of;
    RunTalliesFromNew(calls);
    var ops := Run(NewLedger(), calls).book.ops;
    TotalSum(ops, SizeOf, FreedSize, LiveSize);
    Difference(Total(ops, FreedSize), Total(ops, LiveSize));
  }

  lemma RunTalliesFromNew(calls: seq<HandlerCall>)
    ensures Tallies(Run(NewLedger(), calls).stats, Run(NewLedger(), calls).book.ops)
  {
    TalliesNothing(NewLedger().stats);
    RunTallies(NewLedger(), calls);
  }

  lemma Difference(a: nat, b: nat)
    ensures ((a + b) % M64 - a % M64) % M64 == b % M64
  {
    var q := a / M64;
    assert a == q * M64 + a % M64;
    ModSub(a + b, a % M64, M64);
    ModShift(b, q, M64);
    assert a + b - a % M64 == b + q * M64;
  }

  /** The totals of the allocation calls add up. */
  lemma AllocCounts(calls: seq<HandlerCall>)
    ensures var s := Run(NewLedger(), calls).stats;
      s.totalAllocCount == s.counts.malloc + s.counts.calloc + s.counts.realloc + s.counts.posixMemalign
                           + s.counts.alignedAlloc + s.counts.memAlign + s.counts.vAlloc + s.counts.pVAlloc
  {
    hide Run, Total;
    RunTalliesFromNew(calls);
    TalliedCodes(Run(NewLedger(), calls).stats, Run(NewLedger(), calls).book.ops);
    MarksAddUp(Run(NewLedger(), calls).book.ops);
  }

  lemma TalliedCodes(s: Stats, ops: seq<Operation>)
    requires Tallies(s, ops)
    ensures s.counts.malloc == Total(ops, CodeMark(CODE_MALLOC)) && s.counts.calloc == Total(ops, CodeMark(CODE_CALLOC))
    ensures s.counts.realloc == Total(ops, CodeMark(CODE_REALLOC)) && s.counts.free == Total(ops, CodeMark(CODE_FREE))
    ensures s.counts.posixMemalign == Total(ops, CodeMark(CODE_POSIX_MEMALIGN)) &&
      s.counts.alignedAlloc == Total(ops, CodeMark(CODE_ALIGNED_ALLOC))
    ensures s.counts.memAlign == Total(ops, CodeMark(CODE_MEMALIGN)) &&
      s.counts.vAlloc == Total(ops, CodeMark(CODE_VALLOC))
    ensures s.counts.pVAlloc == Total(ops, CodeMark(CODE_PVALLOC))
    ensures s.totalAllocCount == Total(ops, AllocMarkOf)
  {
    hide Total;
    assert s.counts.Of(CODE_MALLOC) == s.counts.malloc && s.counts.Of(CODE_CALLOC) == s.counts.calloc;
    assert s.counts.Of(CODE_REALLOC) == s.counts.realloc && s.counts.Of(CODE_FREE) == s.counts.free;
    assert s.counts.Of(CODE_POSIX_MEMALIGN) == s.counts.posixMemalign &&
      s.counts.Of(CODE_ALIGNED_ALLOC) == s.counts.alignedAlloc;
    assert s.counts.Of(CODE_MEMALIGN) == s.counts.memAlign && s.counts.Of(CODE_VALLOC) == s.counts.vAlloc;
    assert s.counts.Of(CODE_PVALLOC) == s.counts.pVAlloc;
  }

  lemma {:induction false} MarksAddUp(ops: seq<Operation>)
    ensures Total(ops, AllocMarkOf) ==
      Total(ops, CodeMark(CODE_MALLOC)) + Total(ops, CodeMark(CODE_CALLOC)) + Total(ops, CodeMark(CODE_REALLOC))
      + Total(ops, CodeMark(CODE_POSIX_MEMALIGN)) + Total(ops, CodeMark(CODE_ALIGNED_ALLOC)) +
        Total(ops, CodeMark(CODE_MEMALIGN))
      + Total(ops, CodeMark(CODE_VALLOC)) + Total(ops, CodeMark(CODE_PVALLOC))
  {
    if ops == [] {
    } else {
      MarksAddUp(ops[..|ops| - 1]);
    }
  }

  // ---- The remaining count ----

  /** One for an operation that holds memory: an allocation that is not freed. */
  function LiveMark(o: Operation): (n: nat) {
    if IsLive(o) && o.msgCode != CODE_FREE then 1 else 0
  }

  /** What the client sends: only a free or a realloc has something to free, a free always has, and it allocates
      nothing. */
  predicate ClientCall(call: HandlerCall) {
    call.OnMemoryOperation? ==>
      && HasAllocOperation(call.header.msgCode)
      && (call.freePtr != 0 ==> call.header.msgCode == CODE_FREE || call.header.msgCode == CODE_REALLOC)
      && (call.header.msgCode == CODE_FREE ==> call.freePtr != 0 && call.allocPtr == 0 && call.allocSize == 0)
  }

  predicate ClientCalls(calls: seq<HandlerCall>) {
    forall i :: 0 <= i < |calls| ==> ClientCall(calls[i])
  }

  /** The calls since the last new connection that have something to free and find nothing that holds it. */
  function Misses(l: Ledger, calls: seq<HandlerCall>): (n: nat)
    requires l.Valid()
  {
    if calls == [] then 0
    else
      var front, last := calls[..|calls| - 1], calls[|calls| - 1];
      match last
      case OnNewConnection => 0
      case OnMemoryOperation(_, _, _, _, freePtr) =>
        Misses(l, front) + if freePtr != 0 && Run(l, front).book.Freed(freePtr).None? then 1 else 0
      case _ => Misses(l, front)
  }

  /** No operation of a free holds an address. */
  ghost predicate FreesHoldNothing(ops: seq<Operation>) {
    forall i :: 0 <= i < |ops| && ops[i].msgCode == CODE_FREE ==> ops[i].allocPtr == 0
  }

  lemma {:induction false} RemainingCountLaw(calls: seq<HandlerCall>)
    requires ClientCalls(calls)
    ensures var l := Run(NewLedger(), calls);
      && FreesHoldNothing(l.book.ops)
      && l.stats.totalRemainingCount == Total(l.book.ops, LiveMark) - Misses(NewLedger(), calls)
  {
    hide Total, Counts.Bump;
    if calls == [] {
      assert Total<Operation>([], LiveMark) == 0 by { TotalNothing([]); }
    } else {
      var front := calls[..|calls| - 1];
      assert ClientCalls(front);
      RemainingCountLaw(front);
      var before := Run(NewLedger(), front);
      match calls[|calls| - 1]
      case OnNewConnection => TotalNothing([]);
      case OnMemoryOperation(h, size, ptr, num, freePtr) =>
        assert ClientCall(calls[|calls| - 1]);
        RunTalliesFromNew(front);
        CountStep(before, NewOperation(h, size, ptr, num, freePtr));
      case OnThreadOperation(_, _, _) =>
      case OnBacktrace(origin, addrs) => AttachLive(before.book, Trace(origin, addrs));
      case OnSymbolInfos(_) =>
    }
  }

  lemma TotalNothing(ops: seq<Operation>)
    requires ops == []
    ensures Total(ops, LiveMark) == 0
  {
  }

  lemma CountStep(l: Ledger, o: Operation)
    requires l.Valid() && Tallies(l.stats, l.book.ops) && !o.freed && o.backtrace.None? && HasAllocOperation(o.msgCode)
    requires o.freePtr != 0 ==> o.msgCode == CODE_FREE || o.msgCode == CODE_REALLOC
    requires o.msgCode == CODE_FREE ==> o.freePtr != 0 && o.allocPtr == 0
    requires FreesHoldNothing(l.book.ops)
    ensures FreesHoldNothing(l.book.Add(o).ops)
    ensures l.AddMemoryOperation(o).stats.totalRemainingCount == l.stats.totalRemainingCount +
      AllocMarkOf(o) - FreeMarkOf(o)
    ensures Total(l.book.Add(o).ops, LiveMark) == Total(l.book.ops, LiveMark) +
      AllocMarkOf(o) - (if l.book.Freed(o.freePtr).Some? then 1 else 0)
    ensures FreeMarkOf(o) == if o.freePtr != 0 then 1 else 0
  {
    AddTotal(l.book, o, LiveMark);
    if l.book.Freed(o.freePtr).Some? { FreedIsLive(l.book, o.freePtr); }
  }

  lemma AttachLive(b: Book, trace: Trace)
    requires b.Valid() && FreesHoldNothing(b.ops)
    ensures FreesHoldNothing(b.Attach(trace).ops)
    ensures Total(b.Attach(trace).ops, LiveMark) == Total(b.ops, LiveMark)
  {
    if b.Origin(trace.originMsgNum).Some? {
      var j := b.untraced[b.Origin(trace.originMsgNum).value];
      TotalUpdate(b.ops, j, b.ops[j].(backtrace := Some(trace)), LiveMark);
    }
  }

  /** The remaining count is the number of allocations not freed exactly if every free and realloc found its source. */
  lemma RemainingCountExactly(calls: seq<HandlerCall>)
    requires ClientCalls(calls)
    ensures var l := Run(NewLedger(), calls);
      l.stats.totalRemainingCount == Total(l.book.ops, LiveMark) <==> Misses(NewLedger(), calls) == 0
  {
    RemainingCountLaw(calls);
  }

  // ---- Times and messages ----

  function Times(ops: seq<Operation>): (times: seq<Timeval>)
    ensures |times| == |ops|
  {
    seq(|ops|, i requires 0 <= i < |ops| => ops[i].time)
  }

  /** The first time that is set. */
  function FirstSet(times: seq<Timeval>): (t: Timeval) {
    if times == [] then Timeval(0, 0)
    else
      var front := FirstSet(times[..|times| - 1]);
      if front != Timeval(0, 0) then front else times[|times| - 1]
  }

  lemma TimesAdd(b: Book, o: Operation)
    requires b.Valid()
    ensures Times(b.Add(o).ops) == Times(b.ops) + [o.time]
  {
  }

  lemma TimesAttach(b: Book, trace: Trace)
    requires b.Valid()
    ensures Times(b.Attach(trace).ops) == Times(b.ops)
  {
  }

  /** The times shown span the operations received since the data was last cleared. */
  ghost predicate TimesSpan(l: Ledger) {
    var times := Times(l.book.ops);
    && l.stats.startTime == FirstSet(times)
    && l.stats.lastTime == if times == [] then Timeval(0, 0) else times[|times| - 1]
  }

  lemma {:induction false} RunTimes(calls: seq<HandlerCall>)
    ensures TimesSpan(Run(NewLedger(), calls))
  {
    hide Times, Book.Add, Book.Attach, Roster.AddFree, Roster.AddAlloc, Stats.Count, Usage.Update;
    if calls == [] {
    } else {
      RunTimes(calls[..|calls| - 1]);
      var l, last := Run(NewLedger(), calls[..|calls| - 1]), calls[|calls| - 1];
      match last
      case OnMemoryOperation(h, size, ptr, num, freePtr) =>
        var o := NewOperation(h, size, ptr, num, freePtr);
        TimesAdd(l.book, o);
        RecordTimes(l, o);
        assert (Times(l.book.ops) + [o.time])[..|l.book.ops|] == Times(l.book.ops);
      case OnBacktrace(origin, addrs) => TimesAttach(l.book, Trace(origin, addrs));
      case _ =>
    }
  }

  lemma RecordTimes(l: Ledger, o: Operation)
    requires l.Valid()
    ensures var s := l.AddMemoryOperation(o).stats;
      && s.startTime == (if l.stats.startTime == Timeval(0, 0) then o.time else l.stats.startTime) &&
        s.lastTime == o.time
      && s.messageCount == l.stats.messageCount + 1
  {
  }

  /** The calls since the last new connection, that one included. */
  function SinceConnection(calls: seq<HandlerCall>): (n: nat) {
    if calls == [] then 0
    else if calls[|calls| - 1].OnNewConnection? then 1
    else SinceConnection(calls[..|calls| - 1]) + 1
  }

  lemma {:induction false} MessagesCounted(calls: seq<HandlerCall>)
    ensures Run(NewLedger(), calls).stats.messageCount == SinceConnection(calls)
  {
    hide Book.Add, Book.Attach, Roster.AddFree, Roster.AddAlloc, Stats.Record;
    if calls == [] {
    } else {
      MessagesCounted(calls[..|calls| - 1]);
      var l := Run(NewLedger(), calls[..|calls| - 1]);
      match calls[|calls| - 1]
      case OnMemoryOperation(h, size, ptr, num, freePtr) => RecordTimes(l, NewOperation(h, size, ptr, num, freePtr));
      case _ =>
    }
  }
}
