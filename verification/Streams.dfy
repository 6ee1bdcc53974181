/** Lists of messages as a whole: what they say is allocated, which backtrace belongs to which operation; and what the
    ledger makes of them. */
module Streams {
  import opened Sequences
  import opened Lists
  import opened Messages
  import opened Operations
  import opened Threads
  import opened Ledger
  import opened Totals
  import opened Chunking

  predicate Allocates(m: Message, ptr: nat) { m.MemoryMessage? && m.allocPtr == ptr }

  predicate Frees(m: Message, ptr: nat) { m.MemoryMessage? && m.freePtr == ptr }

  /** An address is live once its allocation has been reported, until its free has. */
  predicate LiveIn(ms: seq<Message>, ptr: nat) {
    if ms == [] then false
    else
      var front, last := ms[..|ms| - 1], ms[|ms| - 1];
      Allocates(last, ptr) || (LiveIn(front, ptr) && !Frees(last, ptr))
  }

  /** Allocations and frees of an address alternate, and an allocation comes first; a realloc that stays in place is a
      free and then an allocation. */
  predicate Alternates(ms: seq<Message>, ptr: nat) {
    if ms == [] then true
    else
      var front, last := ms[..|ms| - 1], ms[|ms| - 1];
      && Alternates(front, ptr)
      && (Allocates(last, ptr) ==> !LiveIn(front, ptr) || Frees(last, ptr))
      && (Frees(last, ptr) ==> LiveIn(front, ptr))
  }

  lemma LiveSnoc(ms: seq<Message>, m: Message, ptr: nat)
    ensures LiveIn(ms + [m], ptr) == (Allocates(m, ptr) || (LiveIn(ms, ptr) && !Frees(m, ptr)))
    ensures Alternates(ms + [m], ptr) ==
            (&& Alternates(ms, ptr)
             && (Allocates(m, ptr) ==> !LiveIn(ms, ptr) || Frees(m, ptr))
             && (Frees(m, ptr) ==> LiveIn(ms, ptr)))
  {
    assert (ms + [m])[..|ms|] == ms;
  }

  /** Nothing in it restarts the server, and what allocates is an allocation. */
  predicate Ordinary(m: Message) {
    match m
    case AppMessage(h) => h.msgCode != CODE_INIT
    case MemoryMessage(h, _, ptr, _, _) => ptr != 0 ==> HasAllocOperation(h.msgCode)
    case _ => true
  }

  ghost predicate AllOrdinary(ms: seq<Message>) {
    forall i :: 0 <= i < |ms| ==> Ordinary(ms[i])
  }

  // ---- The ledger of a list of messages ----

  function Feed(l: Ledger, ms: seq<Message>): (l': Ledger)
    requires l.Valid()
    ensures l'.Valid()
  {
    Run(l, Flatten(Steps(ms)))
  }

  lemma FeedSnoc(l: Ledger, ms: seq<Message>, m: Message)
    requires l.Valid()
    ensures Feed(l, ms + [m]) == Run(Feed(l, ms), CallsOf(m))
  {
    assert Steps(ms + [m]) == Steps(ms) + [CallsOf(m)];
    FlattenSnoc(Steps(ms), CallsOf(m));
    RunConcat(l, Flatten(Steps(ms)), CallsOf(m));
  }

  lemma FeedNothing(l: Ledger)
    requires l.Valid()
    ensures Feed(l, []) == l
  {
  }

  lemma RunOne(l: Ledger, call: HandlerCall)
    requires l.Valid()
    ensures Run(l, [call]) == l.Handle(call) && Run(l, []) == l
  {
    hide Ledger.Handle;
    assert [call][..0] == [];
  }

  // ---- The ledger shows what is live ----

  function HolderMark(ptr: nat): (weight: Operation -> nat) {
    (o: Operation) => if o.allocPtr == ptr && !o.freed then 1 else 0
  }

  /** How many operations of the ledger hold an address that is not freed. */
  function Holders(l: Ledger, ptr: nat): (n: nat) { Total(l.book.ops, HolderMark(ptr)) }

  ghost predicate Coded(ops: seq<Operation>) {
    forall k :: 0 <= k < |ops| && ops[k].allocPtr != 0 ==> HasAllocOperation(ops[k].msgCode)
  }

  /** What holds an address is found when it is freed. */
  lemma HolderFound(b: Book, ptr: nat)
    requires b.Valid() && Indexed(b) && Coded(b.ops) && ptr != 0 && 0 < Total(b.ops, HolderMark(ptr))
    ensures b.Freed(ptr).Some?
  {
    FreedIsFullScanExactly(b, ptr);
    SomeHolder(b.ops, ptr);
  }

  lemma {:induction false} SomeHolder(ops: seq<Operation>, ptr: nat)
    requires 0 < Total(ops, HolderMark(ptr))
    ensures Last(ops, Holds(ptr)).Some?
  {
    var front, last := ops[..|ops| - 1], ops[|ops| - 1];
    if HolderMark(ptr)(last) == 0 {
      SomeHolder(front, ptr);
    }
  }

  lemma AddHolders(l: Ledger, o: Operation, ptr: nat, live: bool)
    requires l.Valid() && Coded(l.book.ops) && ptr != 0
    requires o.allocPtr != 0 ==> HasAllocOperation(o.msgCode)
    requires !o.freed && o.backtrace.None?
    requires Holders(l, ptr) == if live then 1 else 0
    requires o.allocPtr == ptr ==> !live || o.freePtr == ptr
    requires o.freePtr == ptr ==> live
    ensures Total(l.book.Add(o).ops, HolderMark(ptr)) == if o.allocPtr == ptr || (live && o.freePtr != ptr) then 1
      else 0
    ensures Coded(l.book.Add(o).ops)
  {
    hide Total;
    AddTotal(l.book, o, HolderMark(ptr));
    if o.freePtr == ptr { HolderFound(l.book, ptr); }
    if l.book.Freed(o.freePtr).Some? { FreedIsLive(l.book, o.freePtr); }
  }

  lemma AttachHolders(b: Book, trace: Trace, ptr: nat)
    requires b.Valid() && Coded(b.ops)
    ensures Total(b.Attach(trace).ops, HolderMark(ptr)) == Total(b.ops, HolderMark(ptr))
    ensures Coded(b.Attach(trace).ops)
  {
    AttachTotal(b, trace, HolderMark(ptr));
  }

  lemma FeedOne(l: Ledger, m: Message, ptr: nat, live: bool)
    requires l.Valid() && Coded(l.book.ops) && ptr != 0 && Ordinary(m)
    requires Holders(l, ptr) == if live then 1 else 0
    requires Allocates(m, ptr) ==> !live || Frees(m, ptr)
    requires Frees(m, ptr) ==> live
    ensures var l' := Run(l, CallsOf(m));
      Coded(l'.book.ops) && Holders(l', ptr) == if Allocates(m, ptr) || (live && !Frees(m, ptr)) then 1 else 0
  {
    hide Total, Book.Add, Book.Attach, Roster.AddFree, Roster.AddAlloc, Stats.Record, Run, Coded;
    if CallsOf(m) != [] {
      RunOne(l, CallsOf(m)[0]);
      assert CallsOf(m) == [CallsOf(m)[0]];
    } else {
      RunOne(l, OnNewConnection);
    }
    match m
    case AppMessage(_) =>
    case MemoryMessage(h, size, p, num, freePtr) => AddHolders(l, NewOperation(h, size, p, num, freePtr), ptr, live);
    case ThreadMessage(_, _, _) =>
    case BacktraceMessage(_, origin, addrs) => AttachHolders(l.book, Trace(origin, addrs), ptr);
    case SymbolMessage(_, _) =>
  }

  /** In the ledger of a list of messages that alternates on an address, one operation holds that address if it is live,
      and none if it is not. */
  lemma {:induction false} LedgerShowsLive(l: Ledger, ms: seq<Message>, ptr: nat)
    requires l.Valid() && l.book == NoBook() && ptr != 0 && AllOrdinary(ms) && Alternates(ms, ptr)
    ensures Coded(Feed(l, ms).book.ops)
    ensures Holders(Feed(l, ms), ptr) == if LiveIn(ms, ptr) then 1 else 0
  {
    hide Feed, Run, Ordinary;
    if ms == [] {
      FeedNothing(l);
    } else {
      var front, last := ms[..|ms| - 1], ms[|ms| - 1];
      assert AllOrdinary(front);
      LedgerShowsLive(l, front, ptr);
      FeedSnoc(l, front, last);
      assert ms == front + [last];
      FeedOne(Feed(l, front), last, ptr, LiveIn(front, ptr));
    }
  }

  // ---- Backtraces ----

  /** The numbers of the memory messages, in order. */
  function MemoryNums(ms: seq<Message>): (nums: seq<nat>) {
    if ms == [] then []
    else
      var front, last := ms[..|ms| - 1], ms[|ms| - 1];
      MemoryNums(front) + if last.MemoryMessage? then [last.header.msgNum] else []
  }

  /** The backtrace sent for a message number. */
  function TraceFor(ms: seq<Message>, num: nat): (trace: Option<Trace>) {
    if ms == [] then None
    else
      var front, last := ms[..|ms| - 1], ms[|ms| - 1];
      if last.BacktraceMessage? && last.originMsgNum == num then Some(Trace(num, last.addrs)) else TraceFor(front, num)
  }

  /** Memory messages have different numbers; a backtrace comes after its operation, and at most once. */
  predicate Traceable(ms: seq<Message>) {
    if ms == [] then true
    else
      var front, last := ms[..|ms| - 1], ms[|ms| - 1];
      && Traceable(front)
      && (last.MemoryMessage? ==> last.header.msgNum !in MemoryNums(front))
      && (last.BacktraceMessage? ==> last.originMsgNum in MemoryNums(front) && TraceFor(front, last.originMsgNum).None?)
  }

  lemma TraceForSnoc(ms: seq<Message>, m: Message, n: nat)
    ensures MemoryNums(ms + [m]) == MemoryNums(ms) + if m.MemoryMessage? then [m.header.msgNum] else []
    ensures TraceFor(ms + [m], n) ==
            if m.BacktraceMessage? && m.originMsgNum == n then Some(Trace(n, m.addrs)) else TraceFor(ms, n)
    ensures Traceable(ms + [m]) ==
            (&& Traceable(ms)
             && (m.MemoryMessage? ==> m.header.msgNum !in MemoryNums(ms))
             && (m.BacktraceMessage? ==> m.originMsgNum in MemoryNums(ms) && TraceFor(ms, m.originMsgNum).None?))
  {
    assert (ms + [m])[..|ms|] == ms;
  }

  // ---- The opening of a connection in front ----

  /** A message that is not about memory at the head of a list says nothing about what the rest says. */
  lemma {:induction false} HeadSilent(ms: seq<Message>, ptr: nat, num: nat)
    requires ms != [] && ms[0].AppMessage?
    ensures LiveIn(ms, ptr) == LiveIn(ms[1..], ptr) && Alternates(ms, ptr) == Alternates(ms[1..], ptr)
    ensures MemoryNums(ms) == MemoryNums(ms[1..]) && TraceFor(ms, num) == TraceFor(ms[1..], num)
  {
    var front, last := ms[..|ms| - 1], ms[|ms| - 1];
    if front == [] {
      assert ms[1..] == [];
    } else {
      HeadSilent(front, ptr, num);
      assert ms[1..] == front[1..] + [last];
      LiveSnoc(front[1..], last, ptr);
      TraceForSnoc(front[1..], last, num);
    }
  }

  lemma {:induction false} HeadTraceable(ms: seq<Message>)
    requires ms != [] && ms[0].AppMessage?
    ensures Traceable(ms) == Traceable(ms[1..])
  {
    hide MemoryNums, TraceFor;
    var front, last := ms[..|ms| - 1], ms[|ms| - 1];
    if front == [] {
      assert ms[1..] == [];
    } else {
      HeadTraceable(front);
      HeadSilent(front, 0, if last.BacktraceMessage? then last.originMsgNum else 0);
      assert ms[1..] == front[1..] + [last];
      TraceForSnoc(front[1..], last, 0);
    }
  }

  /** The operations of the ledger are those of the messages, each with the backtrace that was sent for it, if any. */
  ghost predicate Traced(ops: seq<Operation>, ms: seq<Message>) {
    && |ops| == |MemoryNums(ms)|
    && forall k :: 0 <= k < |ops| ==>
      ops[k].msgNum == MemoryNums(ms)[k] && ops[k].backtrace == TraceFor(ms, ops[k].msgNum)
  }

  lemma {:induction false} TraceableNums(ms: seq<Message>)
    requires Traceable(ms)
    ensures forall i, j :: 0 <= i < j < |MemoryNums(ms)| ==> MemoryNums(ms)[i] != MemoryNums(ms)[j]
    ensures forall num :: TraceFor(ms, num).Some? ==> num in MemoryNums(ms)
  {
    if ms == [] {
    } else {
      TraceableNums(ms[..|ms| - 1]);
    }
  }

  lemma AddTraced(b: Book, o: Operation, front: seq<Message>, ms: seq<Message>)
    requires b.Valid() && Traced(b.ops, front) && Traceable(ms) && ms != [] && front == ms[..|ms| - 1]
    requires ms[|ms| - 1].MemoryMessage? && ms[|ms| - 1].header.msgNum == o.msgNum && o.backtrace.None?
    ensures Traced(b.Add(o).ops, ms)
  {
    hide Book.Release;
    TraceableNums(front);
    ReleaseSame(b, o.freePtr);
    var ops := b.Add(o).ops;
    assert ops == b.Release(o.freePtr).ops + [o];
    forall k | 0 <= k < |ops| ensures ops[k].msgNum == MemoryNums(ms)[k] &&
      ops[k].backtrace == TraceFor(ms, ops[k].msgNum) {
      if k < |b.ops| { assert ops[k].msgNum == b.ops[k].msgNum; }
    }
  }

  /** The search for the operation of a backtrace does not miss. */
  lemma OriginFound(b: Book, num: nat, k: nat)
    requires b.Valid() && Indexed(b) && k < |b.ops| && b.ops[k].msgNum == num && IsUntraced(b.ops[k])
    requires forall i :: 0 <= i < |b.ops| && i != k ==> b.ops[i].msgNum != num
    ensures b.Origin(num).Some? && b.untraced[b.Origin(num).value] == k
  {
    LastThroughIndex(b.ops, IsUntraced, Numbered(num));
    var found := Last(b.ops, x => IsUntraced(x) && Numbered(num)(x));
    assert found == Some(k);
  }

  lemma AttachTraced(b: Book, trace: Trace, front: seq<Message>, ms: seq<Message>)
    requires b.Valid() && Indexed(b) && Traced(b.ops, front) && Traceable(ms) && ms != [] && front == ms[..|ms| - 1]
    requires var last := ms[|ms| - 1]; last.BacktraceMessage? && trace == Trace(last.originMsgNum, last.addrs)
    ensures b.Origin(trace.originMsgNum).Some?
    ensures Traced(b.Attach(trace).ops, ms)
  {
    hide Indexed, Book.Origin;
    var num := trace.originMsgNum;
    TraceableNums(front);
    var k :| 0 <= k < |MemoryNums(front)| && MemoryNums(front)[k] == num;
    OriginFound(b, num, k);
    var ops := b.Attach(trace).ops;
    assert ops == b.ops[k := b.ops[k].(backtrace := Some(trace))];
    forall i | 0 <= i < |ops| ensures ops[i].msgNum == MemoryNums(ms)[i] &&
      ops[i].backtrace == TraceFor(ms, ops[i].msgNum) {
      assert ops[i].msgNum == b.ops[i].msgNum;
    }
  }

  lemma SameTraced(ops: seq<Operation>, front: seq<Message>, ms: seq<Message>)
    requires Traced(ops, front) && ms != [] && front == ms[..|ms| - 1]
    requires !ms[|ms| - 1].MemoryMessage? && !ms[|ms| - 1].BacktraceMessage?
    ensures Traced(ops, ms)
  {
  }

  /** Every backtrace sent ends up at the operation it was sent for, and the operations have no others. */
  lemma {:induction false} BacktracesAttached(l: Ledger, ms: seq<Message>)
    requires l.Valid() && l.book == NoBook() && AllOrdinary(ms) && Traceable(ms)
    ensures Traced(Feed(l, ms).book.ops, ms)
  {
    hide Feed, Run, Ordinary, Traced, Book.Add, Book.Attach, Roster.AddFree, Roster.AddAlloc, Stats.Record;
    if ms == [] {
      FeedNothing(l);
      NothingTraced();
    } else {
      var front, last := ms[..|ms| - 1], ms[|ms| - 1];
      assert AllOrdinary(front);
      BacktracesAttached(l, front);
      FeedSnoc(l, front, last);
      assert ms == front + [last];
      StepTraced(Feed(l, front), front, ms);
    }
  }

  lemma StepTraced(l: Ledger, front: seq<Message>, ms: seq<Message>)
    requires l.Valid() && Traced(l.book.ops, front) && Traceable(ms) && ms != [] && front == ms[..|ms| - 1] &&
      Ordinary(ms[|ms| - 1])
    ensures Traced(Run(l, CallsOf(ms[|ms| - 1])).book.ops, ms)
  {
    hide Run, Ordinary, Traced, Traceable, Book.Add, Book.Attach, Roster.AddFree, Roster.AddAlloc, Stats.Record;
    var last := ms[|ms| - 1];
    if CallsOf(last) != [] {
      RunOne(l, CallsOf(last)[0]);
      assert CallsOf(last) == [CallsOf(last)[0]];
    } else {
      RunOne(l, OnNewConnection);
    }
    match last
    case AppMessage(_) => OrdinaryApp(last); SameTraced(l.book.ops, front, ms);
    case MemoryMessage(h, size, p, num, freePtr) => AddTraced(l.book, NewOperation(h, size, p, num, freePtr), front,
      ms);
    case ThreadMessage(_, _, _) => SameTraced(l.book.ops, front, ms);
    case BacktraceMessage(_, origin, addrs) => AttachTraced(l.book, Trace(origin, addrs), front, ms);
    case SymbolMessage(_, _) => SameTraced(l.book.ops, front, ms);
  }

  lemma NothingTraced()
    ensures Traced([], [])
  {
  }

  lemma OrdinaryApp(m: Message)
    requires Ordinary(m) && m.AppMessage?
    ensures CallsOf(m) == []
  {
  }
}
