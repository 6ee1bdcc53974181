/** The ledger of the server on values: what each handler call makes of it. The class in Controller.dfy computes these
    functions. */
module Ledger {
  import opened Sequences
  import opened Words
  import opened Messages
  import opened Operations
  import opened Threads
  import opened UsageChart

  /** The calls counted for each of the nine functions. */
  datatype Counts = Counts(malloc: int, calloc: int, realloc: int, free: int, posixMemalign: int, alignedAlloc: int,
    memAlign: int, vAlloc: int, pVAlloc: int) {

    function Of(code: nat): (n: int) {
      if code == CODE_MALLOC then malloc
      else if code == CODE_CALLOC then calloc
      else if code == CODE_REALLOC then realloc
      else if code == CODE_FREE then free
      else if code == CODE_POSIX_MEMALIGN then posixMemalign
      else if code == CODE_ALIGNED_ALLOC then alignedAlloc
      else if code == CODE_MEMALIGN then memAlign
      else if code == CODE_VALLOC then vAlloc
      else if code == CODE_PVALLOC then pVAlloc
      else 0
    }

    function Bump(code: nat): (c: Counts)
      ensures forall other {:trigger c.Of(other)} ::
        c.Of(other) == Of(other) + if other == code && HasAllocOperation(code) then 1 else 0
    {
      if code == CODE_MALLOC then this.(malloc := malloc + 1)
      else if code == CODE_CALLOC then this.(calloc := calloc + 1)
      else if code == CODE_REALLOC then this.(realloc := realloc + 1)
      else if code == CODE_FREE then this.(free := free + 1)
      else if code == CODE_POSIX_MEMALIGN then this.(posixMemalign := posixMemalign + 1)
      else if code == CODE_ALIGNED_ALLOC then this.(alignedAlloc := alignedAlloc + 1)
      else if code == CODE_MEMALIGN then this.(memAlign := memAlign + 1)
      else if code == CODE_VALLOC then this.(vAlloc := vAlloc + 1)
      else if code == CODE_PVALLOC then this.(pVAlloc := pVAlloc + 1)
      else this
    }
  }

  function NoCounts(): (c: Counts) { Counts(0, 0, 0, 0, 0, 0, 0, 0, 0) }

  datatype Stats = Stats(
    messageCount: int, startTime: Timeval, lastTime: Timeval, memoryOperationCount: int,
    totalAllocCount: int, totalAllocSize: nat, totalFreeCount: int, totalFreeSize: nat,
    totalRemainingCount: int, totalRemainingSize: nat, peakRemainingSize: nat,
    usage: Usage, counts: Counts) {

    /** Everything is set back but the peak. */
    function Reset(): (s: Stats) {
      NoStats().(peakRemainingSize := peakRemainingSize)
    }

    function Raise(size: nat): (s: Stats) {
      var remaining := Add64(totalRemainingSize, size);
      this.(memoryOperationCount := memoryOperationCount + 1,
            totalAllocSize := Add64(totalAllocSize, size),
            totalRemainingSize := remaining,
            peakRemainingSize := if remaining > peakRemainingSize then remaining else peakRemainingSize)
    }

    function Lower(size: nat): (s: Stats) {
      this.(totalFreeSize := Add64(totalFreeSize, size), totalRemainingSize := Sub64(totalRemainingSize, size))
    }

    /** The counters of one more call. */
    function Count(code: nat, freePtr: nat): (s: Stats) {
      var allocs := totalAllocCount + AllocMark(code);
      var frees := totalFreeCount + FreeMark(code, freePtr);
      this.(totalAllocCount := allocs, totalFreeCount := frees, totalRemainingCount := allocs - frees,
        counts := counts.Bump(code))
    }

    /** One more operation, and the one it frees, if it frees any. */
    function Record(o: Operation, freed: Option<Operation>): (s: Stats) {
      var timed := this.(messageCount := messageCount + 1, startTime := if startTime == Timeval(0, 0) then o.time
        else startTime, lastTime := o.time);
      var raised := timed.Raise(o.allocSize);
      var lowered := if freed.Some? then raised.Lower(freed.value.allocSize) else raised;
      lowered.(usage := lowered.usage.Update(o.time.sec, lowered.totalRemainingSize)).Count(o.msgCode, o.freePtr)
    }
  }

  function NoStats(): (s: Stats) {
    Stats(0, Timeval(0, 0), Timeval(0, 0), 0, 0, 0, 0, 0, 0, 0, 0, NoUsage(), NoCounts())
  }

  /** One if the call is counted as an allocation. */
  function AllocMark(code: nat): (n: nat) {
    if HasAllocOperation(code) && code != CODE_FREE then 1 else 0
  }

  /** One if the call is counted as a free: a free, or a realloc of something. */
  function FreeMark(code: nat, freePtr: nat): (n: nat) {
    if code == CODE_FREE || (code == CODE_REALLOC && freePtr != 0) then 1 else 0
  }

  datatype Ledger = Ledger(book: Book, symbols: map<nat, SymbolInfos>, roster: Roster, stats: Stats, chart: Chart) {

    ghost predicate Valid() {
      && book.Valid() && Indexed(book)
      && roster.Valid()
    }

    function Counted(): (l: Ledger) {
      this.(stats := stats.(messageCount := stats.messageCount + 1))
    }

    function ClearData(): (l: Ledger)
    {
      Ledger(NoBook(), map[], roster.(listed := []), stats.Reset(), NoChart())
    }

    /** The operation that this one frees, if any. */
    function FreedBy(o: Operation): (freed: Option<Operation>)
      requires book.Valid()
    {
      var j := book.Freed(o.freePtr);
      if j.Some? then Some(book.ops[j.value]) else None
    }

    /** The thread entries when what an operation frees has been taken off. */
    function Taken(o: Operation): (r: Roster)
      requires book.Valid() && roster.Valid()
      ensures r.Valid()
    {
      var freed := FreedBy(o);
      if freed.None? then roster
      else roster.AddFree(freed.value.callerThreadId, freed.value.msgNum, freed.value.allocSize, o.time)
    }

    function AddMemoryOperation(o: Operation): (l: Ledger)
      requires book.Valid() && roster.Valid()
    {
      var charged := if o.allocPtr == 0 then Taken(o)
        else Taken(o).AddAlloc(o.callerThreadId, o.msgNum, o.allocSize, o.time);
      this.(book := book.Add(o), roster := charged, stats := stats.Record(o, FreedBy(o)))
    }

    function UpdateThreadInfos(h: Header, id: nat, name: seq<nat>): (l: Ledger)
      requires roster.Valid()
    {
      var time := Timeval(h.timeSec, h.timeUsec);
      Counted().(roster :=
        if h.msgCode == CODE_PTHREAD_CREATE then roster.Created(id, h.msgNum, time)
        else if h.msgCode == CODE_PTHREAD_SET_NAME then roster.Named(id, name, time)
        else roster.Get(id, false, time).0)
    }

    function AddBacktrace(trace: Trace): (l: Ledger)
      requires book.Valid()
    {
      Counted().(book := book.Attach(trace))
    }

    /** The first symbol sent for an address is the one that stays. */
    function AddSymbolInfos(infos: SymbolInfos): (l: Ledger) {
      Counted().(symbols := if infos.addr in symbols then symbols else symbols[infos.addr := infos])
    }

    function Publish(): (l: Ledger) {
      this.(chart := Tick(stats.usage, chart, stats.startTime.sec, stats.peakRemainingSize))
    }

    function Handle(call: HandlerCall): (l: Ledger)
      requires Valid()
      ensures l.Valid()
    {
      match call
      case OnNewConnection => ClearData().Counted()
      case OnMemoryOperation(h, size, ptr, num, freePtr) =>
        AddIndexed(book, NewOperation(h, size, ptr, num, freePtr));
        AddMemoryOperation(NewOperation(h, size, ptr, num, freePtr))
      case OnThreadOperation(h, id, name) => UpdateThreadInfos(h, id, name)
      case OnBacktrace(origin, addrs) =>
        AttachIndexed(book, Trace(origin, addrs));
        AddBacktrace(Trace(origin, addrs))
      case OnSymbolInfos(infos) => AddSymbolInfos(infos)
    }
  }

  function NewLedger(): (l: Ledger)
    ensures l.Valid()
  {
    Ledger(NoBook(), map[], NoRoster(), NoStats(), NoChart())
  }

  function NewOperation(h: Header, allocSize: nat, allocPtr: nat, allocNum: nat, freePtr: nat): (o: Operation)
    ensures !o.freed && o.backtrace.None?
  {
    Operation(Timeval(h.timeSec, h.timeUsec), h.msgNum, h.msgCode, h.threadId, allocSize, allocPtr, allocNum, freePtr,
      false, None)
  }

  /** A run of handler calls, from any ledger. */
  function Run(l: Ledger, calls: seq<HandlerCall>): (l': Ledger)
    requires l.Valid()
    ensures l'.Valid()
  {
    if calls == [] then l else Run(l, calls[..|calls| - 1]).Handle(calls[|calls| - 1])
  }

  lemma {:induction false} RunConcat(l: Ledger, a: seq<HandlerCall>, b: seq<HandlerCall>)
    requires l.Valid()
    ensures Run(l, a + b) == Run(Run(l, a), b)
  {
    if b == [] {
      assert a + b == a;
    } else {
      assert (a + b)[..|a + b| - 1] == a + b[..|b| - 1];
      RunConcat(l, a, b[..|b| - 1]);
    }
  }
}
