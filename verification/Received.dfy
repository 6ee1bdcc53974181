/** What the ledger keeps of the calls it has received: each operation with all its fields, and the counters. */
module Received {
  import opened Words
  import opened Lists
  import opened Messages
  import opened Operations
  import opened Ledger
  import opened Totals

  /** The memory operations received since the last new connection. */
  function MemoryCalls(calls: seq<HandlerCall>): (memory: seq<HandlerCall>)
    ensures forall k :: 0 <= k < |memory| ==> memory[k].OnMemoryOperation?
  {
    if calls == [] then []
    else
      var front, last := MemoryCalls(calls[..|calls| - 1]), calls[|calls| - 1];
      match last
      case OnNewConnection => []
      case OnMemoryOperation(_, _, _, _, _) => front + [last]
      case _ => front
  }

  /** An operation has every field of the call it was made for. */
  predicate Keeps(o: Operation, call: HandlerCall) {
    && call.OnMemoryOperation?
    && o.time.sec == call.header.timeSec && o.time.usec == call.header.timeUsec
    && o.msgNum == call.header.msgNum && o.msgCode == call.header.msgCode && o.callerThreadId == call.header.threadId
    && o.allocSize == call.allocSize && o.allocPtr == call.allocPtr && o.allocNum == call.allocNum
    && o.freePtr == call.freePtr
  }

  ghost predicate AllKept(ops: seq<Operation>, memory: seq<HandlerCall>) {
    |ops| == |memory| && forall k :: 0 <= k < |ops| ==> Keeps(ops[k], memory[k])
  }

  /** The k-th operation is the k-th memory operation received since the last connection, field by field. */
  lemma {:induction false} OperationsReceived(l: Ledger, calls: seq<HandlerCall>)
    requires l.Valid() && l.book.ops == []
    ensures AllKept(Run(l, calls).book.ops, MemoryCalls(calls))
  {
    if calls == [] {
    } else {
      hide Run;
      var front, last := calls[..|calls| - 1], calls[|calls| - 1];
      OperationsReceived(l, front);
      RunLast(l, calls);
      HandleKept(Run(l, front), MemoryCalls(front), last);
    }
  }

  lemma RunLast(l: Ledger, calls: seq<HandlerCall>)
    requires l.Valid() && calls != []
    ensures Run(l, calls) == Run(l, calls[..|calls| - 1]).Handle(calls[|calls| - 1])
  {
    hide Ledger.Handle;
  }

  lemma HandleKept(l: Ledger, memory: seq<HandlerCall>, call: HandlerCall)
    requires l.Valid() && AllKept(l.book.ops, memory)
    ensures AllKept(l.Handle(call).book.ops,
      match call
      case OnNewConnection => []
      case OnMemoryOperation(_, _, _, _, _) => memory + [call]
      case _ => memory)
  {
    hide Book.Release, Book.Attach, Stats.Record, Ledger.Taken;
    match call
    case OnMemoryOperation(h, size, ptr, num, freePtr) => ReleaseSame(l.book, freePtr);
    case OnBacktrace(origin, addrs) => AttachSame(l.book, Trace(origin, addrs));
    case _ =>
  }

  // ---- The counters ----

  /** One for a call of a function. */
  function CallMark(code: nat): (weight: HandlerCall -> nat) {
    (call: HandlerCall) => if call.OnMemoryOperation? && call.header.msgCode == code then 1 else 0
  }

  /** One for a realloc of something. */
  function ReallocMark(): (weight: HandlerCall -> nat) {
    (call: HandlerCall) =>
      if call.OnMemoryOperation? && call.header.msgCode == CODE_REALLOC && call.freePtr != 0 then 1 else 0
  }

  function CallSize(): (weight: HandlerCall -> nat) {
    (call: HandlerCall) => if call.OnMemoryOperation? then call.allocSize else 0
  }

  function CallCount(calls: seq<HandlerCall>, code: nat): (n: nat) { Total(MemoryCalls(calls), CallMark(code)) }

  lemma {:induction false} TotalAlike<S, T>(s: seq<S>, v: S -> nat, t: seq<T>, w: T -> nat)
    requires |s| == |t| && forall k :: 0 <= k < |s| ==> v(s[k]) == w(t[k])
    ensures Total(s, v) == Total(t, w)
  {
    if s == [] {
    } else {
      TotalAlike(s[..|s| - 1], v, t[..|t| - 1], w);
    }
  }

  lemma CodesReceived(ops: seq<Operation>, memory: seq<HandlerCall>, code: nat)
    requires AllKept(ops, memory)
    ensures Total(ops, CodeMark(code)) == Total(memory, CallMark(code))
  {
    forall k | 0 <= k < |ops| ensures CodeMark(code)(ops[k]) == CallMark(code)(memory[k]) {
      assert Keeps(ops[k], memory[k]);
    }
    TotalAlike(ops, CodeMark(code), memory, CallMark(code));
  }

  /** Each of the nine counters is the number of calls received for its function since the last connection. */
  lemma CountersReceived(calls: seq<HandlerCall>)
    ensures var c := Run(NewLedger(), calls).stats.counts;
      && c.malloc == CallCount(calls, CODE_MALLOC) && c.calloc == CallCount(calls, CODE_CALLOC)
      && c.realloc == CallCount(calls, CODE_REALLOC) && c.free == CallCount(calls, CODE_FREE)
      && c.posixMemalign == CallCount(calls, CODE_POSIX_MEMALIGN)
      && c.alignedAlloc == CallCount(calls, CODE_ALIGNED_ALLOC) && c.memAlign == CallCount(calls, CODE_MEMALIGN)
      && c.vAlloc == CallCount(calls, CODE_VALLOC) && c.pVAlloc == CallCount(calls, CODE_PVALLOC)
  {
    hide Run, Tallies, Total, NewLedger, AllKept;
    var l, memory := Run(NewLedger(), calls), MemoryCalls(calls);
    NothingYet();
    OperationsReceived(NewLedger(), calls);
    RunTalliesFromNew(calls);
    TalliedCodes(l.stats, l.book.ops);
    forall code: nat ensures Total(l.book.ops, CodeMark(code)) == Total(memory, CallMark(code)) {
      CodesReceived(l.book.ops, memory, code);
    }
  }

  lemma NothingYet()
    ensures NewLedger().book.ops == []
  {
  }

  /** The totals in terms of the calls: the operations, the allocation and free calls, and the bytes allocated. */
  lemma TotalsReceived(calls: seq<HandlerCall>)
    ensures var s, memory := Run(NewLedger(), calls).stats, MemoryCalls(calls);
      && s.memoryOperationCount == |memory|
      && s.totalAllocSize == Total(memory, CallSize()) % M64
      && s.totalAllocCount ==
           CallCount(calls, CODE_MALLOC) + CallCount(calls, CODE_CALLOC) + CallCount(calls, CODE_REALLOC)
           + CallCount(calls, CODE_POSIX_MEMALIGN) + CallCount(calls, CODE_ALIGNED_ALLOC)
           + CallCount(calls, CODE_MEMALIGN) + CallCount(calls, CODE_VALLOC) + CallCount(calls, CODE_PVALLOC)
      && s.totalFreeCount == CallCount(calls, CODE_FREE) + Total(memory, ReallocMark())
  {
    hide Run, NewLedger, Total, Counts.Of;
    CountersReceived(calls);
    AllocCounts(calls);
    var l, memory := Run(NewLedger(), calls), MemoryCalls(calls);
    NothingYet();
    OperationsReceived(NewLedger(), calls);
    RunTalliesFromNew(calls);
    forall k | 0 <= k < |memory| ensures SizeOf(l.book.ops[k]) == CallSize()(memory[k]) {
      assert Keeps(l.book.ops[k], memory[k]);
    }
    TotalAlike(l.book.ops, SizeOf, memory, CallSize());
    FreesReceived(l.book.ops, memory);
  }

  lemma {:induction false} FreesReceived(ops: seq<Operation>, memory: seq<HandlerCall>)
    requires AllKept(ops, memory)
    ensures Total(ops, FreeMarkOf) == Total(memory, CallMark(CODE_FREE)) + Total(memory, ReallocMark())
  {
    if ops == [] {
    } else {
      var n := |ops| - 1;
      assert forall k :: 0 <= k < n ==> Keeps(ops[..n][k], memory[..n][k]);
      assert Keeps(ops[n], memory[n]);
      FreesReceived(ops[..n], memory[..n]);
    }
  }
}
