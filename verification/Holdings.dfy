/** Which allocations of a list of messages have not been freed by those behind them; and that these are the operations
    that the ledger holds. */
module Holdings {
  import opened Sequences
  import opened Lists
  import opened Messages
  import opened Operations
  import opened Threads
  import opened Ledger
  import opened Charging
  import opened Streams

  function Allocating(ptr: nat): (keep: Message -> bool) {
    (m: Message) => m.MemoryMessage? && m.allocPtr == ptr
  }

  /** A free takes back the last allocation of its address that has not been freed. */
  function WithoutLast(held: seq<Message>, ptr: nat): (rest: seq<Message>) {
    var q := Last(held, Allocating(ptr));
    if ptr == 0 || q.None? then held else Without(held, q.value)
  }

  /** The allocations that have not been freed, in order. */
  function Unfreed(ms: seq<Message>): (held: seq<Message>) {
    if ms == [] then []
    else
      var front, last := Unfreed(ms[..|ms| - 1]), ms[|ms| - 1];
      if !last.MemoryMessage? then front
      else WithoutLast(front, last.freePtr) + if last.allocPtr != 0 then [last] else []
  }

  /** The operation that a message has become, field by field. */
  predicate StandsFor(o: Operation, m: Message) {
    && m.MemoryMessage?
    && o.time.sec == m.header.timeSec && o.time.usec == m.header.timeUsec
    && o.msgNum == m.header.msgNum && o.msgCode == m.header.msgCode && o.callerThreadId == m.header.threadId
    && o.allocSize == m.allocSize && o.allocPtr == m.allocPtr && o.allocNum == m.allocNum && o.freePtr == m.freePtr
  }

  /** The operations not freed are those of these messages, in order. */
  ghost predicate Shows(ops: seq<Operation>, held: seq<Message>) {
    var places := Positions(ops, Holding);
    |places| == |held| && forall q :: 0 <= q < |held| ==> StandsFor(ops[places[q]], held[q])
  }

  /** What a free finds is the operation of the last of those messages that allocated the address. */
  lemma FreedIsLast(b: Book, held: seq<Message>, ptr: nat)
    requires b.Valid() && Indexed(b) && Coded(b.ops) && Shows(b.ops, held) && ptr != 0
    ensures var q, places := Last(held, Allocating(ptr)), Positions(b.ops, Holding);
      |places| == |held| && b.Freed(ptr) == if q.Some? then Some(places[q.value]) else None
  {
    hide Book.Freed, Indexed;
    var view := View(b.ops, Positions(b.ops, Holding));
    FreedIsFullScanExactly(b, ptr);
    LastThroughIndex(b.ops, Holding, Holds(ptr));
    LastSame(b.ops, (o: Operation) => Holding(o) && Holds(ptr)(o), Holds(ptr));
    HoldsAlike(b.ops, held, ptr);
    LastAlike(view, Holds(ptr), held, Allocating(ptr));
  }

  lemma ReleaseShows(b: Book, held: seq<Message>, ptr: nat)
    requires b.Valid() && Indexed(b) && Coded(b.ops) && Shows(b.ops, held)
    ensures Shows(b.Release(ptr).ops, WithoutLast(held, ptr)) && Coded(b.Release(ptr).ops)
  {
    ReleaseSame(b, ptr);
    if ptr != 0 && b.Freed(ptr).Some? {
      FreedIsLast(b, held, ptr);
      FreedIsLive(b, ptr);
      ReleaseDrops(b.ops, held, Last(held, Allocating(ptr)).value);
    } else if ptr != 0 {
      FreedIsLast(b, held, ptr);
    }
  }

  lemma ReleaseDrops(ops: seq<Operation>, held: seq<Message>, q: nat)
    requires Shows(ops, held) && q < |held|
    ensures var j := Positions(ops, Holding)[q];
      Shows(ops[j := ops[j].(freed := true)], Without(held, q))
  {
    var places := Positions(ops, Holding);
    var j := places[q];
    PositionsExactly(ops, Holding);
    assert j in places;
    var ops' := ops[j := ops[j].(freed := true)];
    PositionsDrop(ops, j, ops'[j], Holding, q);
    forall k | 0 <= k < |held| - 1 ensures StandsFor(ops'[Without(places, q)[k]], Without(held, q)[k]) {
      assert Without(places, q)[k] == places[if k < q then k else k + 1];
      assert Without(held, q)[k] == held[if k < q then k else k + 1];
    }
  }

  lemma HoldsAlike(ops: seq<Operation>, held: seq<Message>, ptr: nat)
    requires Shows(ops, held) && ptr != 0
    ensures var view := View(ops, Positions(ops, Holding));
      |view| == |held| && forall q :: 0 <= q < |held| ==> Holds(ptr)(view[q]) == Allocating(ptr)(held[q])
  {
    PositionsExactly(ops, Holding);
    var places := Positions(ops, Holding);
    forall q | 0 <= q < |held| ensures Holds(ptr)(View(ops, places)[q]) == Allocating(ptr)(held[q]) {
      assert places[q] in places && StandsFor(ops[places[q]], held[q]);
    }
  }

  lemma {:induction false} LastAlike<S, T>(s: seq<S>, keep: S -> bool, t: seq<T>, keep': T -> bool)
    requires |s| == |t| && forall k :: 0 <= k < |s| ==> keep(s[k]) == keep'(t[k])
    ensures Last(s, keep) == Last(t, keep')
  {
    if s == [] {
    } else {
      LastAlike(s[..|s| - 1], keep, t[..|t| - 1], keep');
    }
  }

  lemma {:induction false} LastSame<T>(s: seq<T>, keep: T -> bool, keep': T -> bool)
    requires forall x :: keep(x) == keep'(x)
    ensures Last(s, keep) == Last(s, keep')
  {
    LastAlike(s, keep, s, keep');
  }

  lemma AddShows(b: Book, held: seq<Message>, m: Message, o: Operation)
    requires b.Valid() && Indexed(b) && Coded(b.ops) && Shows(b.ops, held)
    requires StandsFor(o, m) && o.freePtr == m.freePtr && !o.freed && (o.allocPtr != 0 ==> HasAllocOperation(o.msgCode))
    ensures Coded(b.Add(o).ops)
    ensures Shows(b.Add(o).ops, WithoutLast(held, m.freePtr) + if m.allocPtr != 0 then [m] else [])
  {
    hide Book.Release, WithoutLast;
    ReleaseShows(b, held, m.freePtr);
    PositionsAppend(b.Release(m.freePtr).ops, o, Holding);
    assert b.Add(o).ops == b.Release(m.freePtr).ops + [o];
  }

  lemma AttachShows(b: Book, held: seq<Message>, trace: Trace)
    requires b.Valid() && Coded(b.ops) && Shows(b.ops, held)
    ensures Coded(b.Attach(trace).ops) && Shows(b.Attach(trace).ops, held)
  {
    if b.Origin(trace.originMsgNum).Some? {
      var j := b.untraced[b.Origin(trace.originMsgNum).value];
      PositionsSame(b.ops, j, b.ops[j].(backtrace := Some(trace)), Holding);
    }
  }

  lemma StepShows(l: Ledger, held: seq<Message>, m: Message)
    requires l.Valid() && Coded(l.book.ops) && Shows(l.book.ops, held) && Ordinary(m)
    ensures var ops := Run(l, CallsOf(m)).book.ops;
      && Coded(ops)
      && Shows(ops, if !m.MemoryMessage? then held
                    else WithoutLast(held, m.freePtr) + if m.allocPtr != 0 then [m] else [])
  {
    hide Shows, WithoutLast, Coded, Book.Add, Book.Attach, Roster.AddFree, Roster.AddAlloc, Stats.Record, Run;
    if CallsOf(m) != [] {
      RunOne(l, CallsOf(m)[0]);
      assert CallsOf(m) == [CallsOf(m)[0]];
    } else {
      RunOne(l, OnNewConnection);
    }
    match m
    case AppMessage(_) =>
    case MemoryMessage(h, size, p, num, freePtr) => AddShows(l.book, held, m, NewOperation(h, size, p, num, freePtr));
    case ThreadMessage(_, _, _) =>
    case BacktraceMessage(_, origin, addrs) => AttachShows(l.book, held, Trace(origin, addrs));
    case SymbolMessage(_, _) =>
  }

  /** What the ledger of a list of messages holds are the allocations that the list has not freed. */
  lemma {:induction false} LedgerHolds(l: Ledger, ms: seq<Message>)
    requires l.Valid() && l.book == NoBook() && AllOrdinary(ms)
    ensures Coded(Feed(l, ms).book.ops) && Shows(Feed(l, ms).book.ops, Unfreed(ms))
  {
    hide Feed, Run, Ordinary;
    if ms == [] {
      FeedNothing(l);
    } else {
      hide Shows, WithoutLast, Coded;
      var front, last := ms[..|ms| - 1], ms[|ms| - 1];
      assert AllOrdinary(front);
      LedgerHolds(l, front);
      FeedSnoc(l, front, last);
      assert ms == front + [last];
      StepShows(Feed(l, front), Unfreed(front), last);
    }
  }

  /** Therefore a number is past those of the operations held for a thread id if it is past those of the messages. */
  lemma PassesNoneHeld(ops: seq<Operation>, held: seq<Message>, id: nat, num: nat)
    requires Shows(ops, held)
    ensures (forall k :: 0 <= k < |ops| && Holding(ops[k]) && ops[k].callerThreadId == id ==> ops[k].msgNum < num) <==>
            (forall q :: 0 <= q < |held| && held[q].header.threadId == id ==> held[q].header.msgNum < num)
  {
    PositionsExactly(ops, Holding);
    var places := Positions(ops, Holding);
    forall k | 0 <= k < |ops| && Holding(ops[k])
      ensures exists q ::
        && 0 <= q < |held|
        && held[q].header.threadId == ops[k].callerThreadId && held[q].header.msgNum == ops[k].msgNum
    {
      var q :| 0 <= q < |places| && places[q] == k;
      assert StandsFor(ops[places[q]], held[q]);
    }
    forall q | 0 <= q < |held|
      ensures places[q] in places && StandsFor(ops[places[q]], held[q])
    {
    }
  }

  /** A first message that is no memory message changes nothing. */
  lemma {:induction false} UnfreedBehind(ms: seq<Message>)
    requires ms != [] && !ms[0].MemoryMessage?
    ensures Unfreed(ms) == Unfreed(ms[1..])
  {
    if |ms| == 1 {
      assert ms[..0] == [] && ms[1..] == [];
    } else {
      var front := ms[..|ms| - 1];
      UnfreedBehind(front);
      assert ms[1..][..|ms| - 2] == front[1..];
    }
  }
}
