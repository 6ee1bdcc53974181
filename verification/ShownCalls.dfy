/** End to end: what the server shows is what the program called for. */
module ShownCalls {
  import opened Packed
  import opened Sequences
  import opened Lists
  import opened Messages
  import opened Framing
  import opened Chunking
  import opened Operations
  import opened Ledger
  import opened Charging
  import opened Streams
  import opened Holdings
  import opened Interleaving
  import opened ClientStream
  import opened ClientHeap
  import opened Pipeline
  import opened Contents

  // ---- Who got an address ----

  /** The call gets an address from the allocator. */
  predicate Gets(call: Call, ptr: nat) {
    match call
    case Alloc(_, _, _, p) => p == ptr
    case Resize(_, _, _, p) => p == ptr
    case _ => false
  }

  /** The last call that got an address, and its thread. */
  function LastGet(steps: seq<Step>, ptr: nat): (got: Option<(nat, Call)>) {
    if steps == [] then None
    else
      var last := steps[|steps| - 1];
      if last.Enter? && Gets(last.call, ptr) then Some((last.self, last.call)) else LastGet(steps[..|steps| - 1], ptr)
  }

  /** The last message that reports an address as allocated. */
  function LastAlloc(ms: seq<Message>, ptr: nat): (m: Option<Message>) {
    if ms == [] then None
    else if Allocates(ms[|ms| - 1], ptr) then Some(ms[|ms| - 1])
    else LastAlloc(ms[..|ms| - 1], ptr)
  }

  lemma LastAllocSnoc(ms: seq<Message>, m: Message, ptr: nat)
    ensures LastAlloc(ms + [m], ptr) == if Allocates(m, ptr) then Some(m) else LastAlloc(ms, ptr)
  {
    assert (ms + [m])[..|ms|] == ms;
  }

  lemma {:induction false} LastAllocBehind(ms: seq<Message>, ptr: nat)
    requires ms != [] && !ms[0].MemoryMessage?
    ensures LastAlloc(ms, ptr) == LastAlloc(ms[1..], ptr)
  {
    if |ms| == 1 {
      assert ms[..0] == [] && ms[1..] == [];
    } else {
      LastAllocBehind(ms[..|ms| - 1], ptr);
      assert ms[1..][..|ms| - 2] == ms[..|ms| - 1][1..];
    }
  }

  function CallIn(phase: Phase): (call: Option<Call>) {
    if phase.Idle? then None else Some(phase.call)
  }

  predicate BeforeReport(phase: Phase) { phase.Acting? || phase.Reporting? }

  /** A message is the report of a call of a thread. */
  predicate ReportsGet(m: Option<Message>, got: (nat, Call)) {
    m.Some? && m.value.header.threadId == got.0 && Describes(m.value, got.1)
  }

  /** Who has an address, or is getting it, got it last; and once that is reported, the last report says so. */
  ghost predicate Sourced(s: Sys, steps: seq<Step>, ptr: nat) {
    && (forall self: nat :: CallIn(s.At(self)).Some? && Gets(CallIn(s.At(self)).value, ptr) ==>
         GotLast(s.At(self), self, LastGet(steps, ptr), LastAlloc(s.sent, ptr)))
    && (ptr in s.held ==> LastGet(steps, ptr).Some? && ReportsGet(LastAlloc(s.sent, ptr), LastGet(steps, ptr).value))
  }

  predicate GotLast(phase: Phase, self: nat, got: Option<(nat, Call)>, report: Option<Message>) {
    && CallIn(phase).Some? && got == Some((self, CallIn(phase).value))
    && (BeforeReport(phase) || ReportsGet(report, (self, CallIn(phase).value)))
  }

  lemma GettingClaims(phase: Phase, ptr: nat)
    requires CallIn(phase).Some? && Gets(CallIn(phase).value, ptr)
    ensures ClaimOf(phase, ptr) in {Unreported, Shown}
  {
  }

  /** No two threads, nor a thread and the program, have the same address. */
  lemma OneGets(s: Sys, self: nat, ptr: nat)
    requires Placed(s, ptr) && CallIn(s.At(self)).Some? && Gets(CallIn(s.At(self)).value, ptr)
    ensures ptr !in s.held && ptr in s.heap
    ensures forall other: nat :: other != self && CallIn(s.At(other)).Some? ==> !Gets(CallIn(s.At(other)).value, ptr)
  {
    hide LiveIn, Alternates, ClaimOf;
    GettingClaims(s.At(self), ptr);
    forall other: nat | other != self && CallIn(s.At(other)).Some? ensures !Gets(CallIn(s.At(other)).value, ptr) {
      if Gets(CallIn(s.At(other)).value, ptr) { GettingClaims(s.At(other), ptr); }
      assert Compatible(ClaimOf(s.At(self), ptr), ClaimOf(s.At(other), ptr));
    }
  }

  lemma LastGetSnoc(steps: seq<Step>, step: Step, ptr: nat)
    ensures LastGet(steps + [step], ptr) ==
      if step.Enter? && Gets(step.call, ptr) then Some((step.self, step.call)) else LastGet(steps, ptr)
  {
    assert (steps + [step])[..|steps|] == steps;
  }

  lemma EnterSourced(s: Sys, steps: seq<Step>, step: Step, ptr: nat)
    requires Sourced(s, steps, ptr) && Placed(s, ptr) && step.Enter? && s.Next(step).Some? && ptr != 0
    ensures Sourced(s.Next(step).value, steps + [step], ptr)
  {
    hide LiveIn, Alternates, Placed, LastGet, LastAlloc, CallFits, ReportsGet;
    var self, s' := step.self, s.Next(step).value;
    LastGetSnoc(steps, step, ptr);
    if Gets(step.call, ptr) {
      FreshGet(s, step, ptr);
    }
    forall other: nat | CallIn(s'.At(other)).Some? && Gets(CallIn(s'.At(other)).value, ptr)
      ensures GotLast(s'.At(other), other, LastGet(steps + [step], ptr), LastAlloc(s'.sent, ptr))
    {
      if other != self { assert s'.At(other) == s.At(other); }
    }
  }

  /** What a call gets nobody has, but for a resize in place of what the program had. */
  lemma FreshGet(s: Sys, step: Step, ptr: nat)
    requires Placed(s, ptr) && step.Enter? && s.Next(step).Some? && Gets(step.call, ptr) && ptr != 0
    ensures forall other: nat :: CallIn(s.At(other)).Some? ==> !Gets(CallIn(s.At(other)).value, ptr)
    ensures ptr !in s.Next(step).value.held
  {
    hide LiveIn, Alternates, ClaimOf, CallFits;
    if ptr in s.held {
      forall other: nat | CallIn(s.At(other)).Some? ensures !Gets(CallIn(s.At(other)).value, ptr) {
        assert ClaimOf(s.At(other), ptr) == NoClaim;
        if Gets(CallIn(s.At(other)).value, ptr) { GettingClaims(s.At(other), ptr); }
      }
    } else {
      forall other: nat | CallIn(s.At(other)).Some? ensures !Gets(CallIn(s.At(other)).value, ptr) {
        if Gets(CallIn(s.At(other)).value, ptr) { GettingClaims(s.At(other), ptr); }
        assert ClaimFits(ClaimOf(s.At(other), ptr), ptr in s.heap, LiveIn(s.sent, ptr));
      }
    }
  }

  lemma SendSourced(s: Sys, steps: seq<Step>, step: Step, ptr: nat)
    requires Sourced(s, steps, ptr) && Placed(s, ptr) && Sane(s) && step.Send? && s.Next(step).Some? && ptr != 0
    ensures Sourced(s.Next(step).value, steps + [step], ptr)
  {
    hide LiveIn, Alternates, Placed, LastGet, LastAlloc, CallFits, Encode, WellFormed, ReportsGet;
    var self, s' := step.self, s.Next(step).value;
    assert PhaseSane(self, s.At(self));
    LastGetSnoc(steps, step, ptr);
    var m := s'.sent[|s.sent|];
    assert s'.sent == s.sent + [m];
    LastAllocSnoc(s.sent, m, ptr);
    SentAllocates(s.At(self), self, m, ptr);
    if Allocates(m, ptr) { OneGets(s, self, ptr); }
    forall other: nat | CallIn(s'.At(other)).Some? && Gets(CallIn(s'.At(other)).value, ptr)
      ensures GotLast(s'.At(other), other, LastGet(steps + [step], ptr), LastAlloc(s'.sent, ptr))
    {
      if other != self { assert s'.At(other) == s.At(other); }
    }
  }

  lemma SentAllocates(phase: Phase, self: nat, m: Message, ptr: nat)
    requires PhaseSane(self, phase) && Waiting(phase) == Some(m) && ptr != 0
    ensures Allocates(m, ptr) <==> phase.Reporting? && Gets(phase.call, ptr)
    ensures phase.Reporting? ==> ReportsGet(Some(m), (self, phase.call))
  {
    if phase.Reporting? {
      ReportDescribes(phase.call, m.header.timeSec, m.header.timeUsec, self, m.header.msgNum);
    }
  }

  lemma OtherSourced(s: Sys, steps: seq<Step>, step: Step, ptr: nat)
    requires Sourced(s, steps, ptr) && Placed(s, ptr) && Sane(s) && s.Next(step).Some? && ptr != 0
    requires !step.Enter? && !step.Send? && !step.Open?
    ensures Sourced(s.Next(step).value, steps + [step], ptr)
  {
    hide LiveIn, Alternates, Placed, LastGet, LastAlloc, CallFits, Encode, WellFormed, ReportsGet, ExtraFits, Report,
      Follow;
    var self, s' := step.self, s.Next(step).value;
    LastGetSnoc(steps, step, ptr);
    assert s'.sent == s.sent;
    forall other: nat | CallIn(s'.At(other)).Some? && Gets(CallIn(s'.At(other)).value, ptr)
      ensures GotLast(s'.At(other), other, LastGet(steps + [step], ptr), LastAlloc(s'.sent, ptr))
    {
      if other != self { assert s'.At(other) == s.At(other); }
    }
    if step.Return? && ptr in s'.held && ptr !in s.held {
      assert Gets(s.At(self).call, ptr);
    }
  }

  lemma OpenSourced(s: Sys, steps: seq<Step>, step: Step, ptr: nat)
    requires Sourced(s, steps, ptr) && Sane(s) && s.Next(step).Some? && step.Open?
    ensures Sourced(s.Next(step).value, steps + [step], ptr)
  {
    hide LastGet, LastAlloc, Encode, WellFormed, ReportsGet;
    var s' := s.Next(step).value;
    StepOpens(s, step);
    LastGetSnoc(steps, step, ptr);
    LastAllocBehind(s'.sent, ptr);
    assert s'.sent[1..] == s.sent;
    forall other: nat | CallIn(s'.At(other)).Some? && Gets(CallIn(s'.At(other)).value, ptr)
      ensures GotLast(s'.At(other), other, LastGet(steps + [step], ptr), LastAlloc(s'.sent, ptr))
    {
      assert s'.At(other) == s.At(other);
    }
  }

  lemma StartSourced(ptr: nat)
    ensures Sourced(Start(), [], ptr)
  {
  }

  lemma {:induction false} RunSourced(steps: seq<Step>, ptr: nat)
    requires Exec(Start(), steps).Some? && InOrder(Start(), steps, ptr) && ptr != 0
    ensures Sourced(Exec(Start(), steps).value, steps, ptr)
  {
    hide Start, Sys.Next, Placed, Overtakes, Sane, Numbering, Ordered, OpeningFirst, TracesKept, Linked, Sourced;
    if steps == [] {
      StartSourced(ptr);
    } else {
      var front, step := steps[..|steps| - 1], steps[|steps| - 1];
      assert steps == front + [step];
      RunSourced(front, ptr);
      RunPlaced(front, ptr);
      RunKept(front);
      var s := Exec(Start(), front).value;
      match step
      case Enter(_, _) => EnterSourced(s, front, step, ptr);
      case Send(_) => SendSourced(s, front, step, ptr);
      case Open(_, _, _, _) => OpenSourced(s, front, step, ptr);
      case _ => OtherSourced(s, front, step, ptr);
    }
  }

  // ---- On the server ----

  /** In a list that alternates on an address, the allocation of it that is not freed is the last one. */
  lemma {:induction false} UnfreedIsLast(ms: seq<Message>, ptr: nat)
    requires Alternates(ms, ptr) && ptr != 0
    ensures LiveIn(ms, ptr) ==> LastAlloc(ms, ptr).Some? && HeldOnce(Unfreed(ms), ptr, LastAlloc(ms, ptr).value)
    ensures !LiveIn(ms, ptr) ==> forall q :: 0 <= q < |Unfreed(ms)| ==> !Allocates(Unfreed(ms)[q], ptr)
  {
    if ms == [] {
    } else {
      UnfreedIsLast(ms[..|ms| - 1], ptr);
      hide Alternates, LiveIn, LastAlloc, Unfreed, WithoutLast;
      var front, last := ms[..|ms| - 1], ms[|ms| - 1];
      assert ms == front + [last];
      LiveSnoc(front, last, ptr);
      LastAllocSnoc(front, last, ptr);
      UnfreedSnoc(front, last);
      if last.MemoryMessage? { HeldStep(Unfreed(front), last, ptr, LiveIn(front, ptr), LastAlloc(front, ptr)); }
    }
  }

  lemma UnfreedSnoc(ms: seq<Message>, m: Message)
    ensures Unfreed(ms + [m]) ==
      if !m.MemoryMessage? then Unfreed(ms)
      else WithoutLast(Unfreed(ms), m.freePtr) + if m.allocPtr != 0 then [m] else []
    ensures forall q :: 0 <= q < |Unfreed(ms)| ==> Unfreed(ms)[q].MemoryMessage?
  {
    assert (ms + [m])[..|ms|] == ms;
    AllMemory(ms);
  }

  lemma {:induction false} AllMemory(ms: seq<Message>)
    ensures forall q :: 0 <= q < |Unfreed(ms)| ==> Unfreed(ms)[q].MemoryMessage?
  {
    if ms == [] {
    } else {
      AllMemory(ms[..|ms| - 1]);
    }
  }

  /** One of these messages, and only one, is about the address. */
  ghost predicate HeldOnce(held: seq<Message>, ptr: nat, m: Message) {
    exists q: nat :: HeldAt(held, ptr, m, q)
  }

  ghost predicate HeldAt(held: seq<Message>, ptr: nat, m: Message, q: nat) {
    && q < |held| && held[q] == m && Allocates(m, ptr)
    && forall p :: 0 <= p < |held| && p != q ==> !Allocates(held[p], ptr)
  }

  lemma HeldStep(held: seq<Message>, m: Message, ptr: nat, live: bool, last: Option<Message>)
    requires m.MemoryMessage? && ptr != 0 && forall q :: 0 <= q < |held| ==> held[q].MemoryMessage?
    requires live ==> last.Some? && HeldOnce(held, ptr, last.value)
    requires !live ==> forall q :: 0 <= q < |held| ==> !Allocates(held[q], ptr)
    requires (Allocates(m, ptr) ==> !live || Frees(m, ptr)) && (Frees(m, ptr) ==> live)
    ensures var held' := WithoutLast(held, m.freePtr) + if m.allocPtr != 0 then [m] else [];
      if Allocates(m, ptr) then HeldOnce(held', ptr, m)
      else if live && !Frees(m, ptr) then HeldOnce(held', ptr, last.value)
      else forall q :: 0 <= q < |held'| ==> !Allocates(held'[q], ptr)
  {
    var rest, tail := WithoutLast(held, m.freePtr), if m.allocPtr != 0 then [m] else [];
    RestHeld(held, m.freePtr, ptr, live, last);
    if Allocates(m, ptr) {
      assert HeldAt(rest + tail, ptr, m, |rest|);
    } else if live && !Frees(m, ptr) {
      var q: nat :| HeldAt(rest, ptr, last.value, q);
      assert HeldAt(rest + tail, ptr, last.value, q);
    }
  }

  lemma RestHeld(held: seq<Message>, freePtr: nat, ptr: nat, live: bool, last: Option<Message>)
    requires ptr != 0 && forall q :: 0 <= q < |held| ==> held[q].MemoryMessage?
    requires live ==> last.Some? && HeldOnce(held, ptr, last.value)
    requires !live ==> forall q :: 0 <= q < |held| ==> !Allocates(held[q], ptr)
    ensures var rest := WithoutLast(held, freePtr);
      if live && freePtr != ptr then HeldOnce(rest, ptr, last.value)
      else forall q :: 0 <= q < |rest| ==> !Allocates(rest[q], ptr)
  {
    var rest, gone := WithoutLast(held, freePtr), Last(held, Allocating(freePtr));
    if live {
      var q: nat :| HeldAt(held, ptr, last.value, q);
      if freePtr == ptr {
        assert gone == Some(q) by { assert Allocating(ptr)(held[q]); }
        assert rest == Without(held, q);
      } else if freePtr != 0 && gone.Some? {
        assert gone.value != q;
        assert HeldAt(rest, ptr, last.value, if q < gone.value then q else q - 1);
      }
    }
  }

  /** The operation that holds an address has what the last report of that address said. */
  lemma ShownIsLast(l: Ledger, ms: seq<Message>, ptr: nat, k: nat)
    requires l.Valid() && l.book == NoBook() && AllOrdinary(ms) && Alternates(ms, ptr) && ptr != 0
    requires k < |Feed(l, ms).book.ops| && Holds(ptr)(Feed(l, ms).book.ops[k])
    ensures LastAlloc(ms, ptr).Some? && StandsFor(Feed(l, ms).book.ops[k], LastAlloc(ms, ptr).value)
  {
    hide Feed, Unfreed, Ordinary, Alternates, LiveIn, LastAlloc;
    LedgerHolds(l, ms);
    UnfreedIsLast(ms, ptr);
    AllMemory(ms);
    var ops, held := Feed(l, ms).book.ops, Unfreed(ms);
    var places := Positions(ops, Holding);
    PositionsExactly(ops, Holding);
    assert k in places;
    var q :| 0 <= q < |places| && places[q] == k;
    assert StandsFor(ops[k], held[q]) && held[q].allocPtr == ptr;
    var p: nat :| HeldAt(held, ptr, LastAlloc(ms, ptr).value, p);
    assert Allocates(held[q], ptr);
  }

  /** What an operation shows of a call. */
  predicate ShowsCall(o: Operation, self: nat, call: Call) {
    match call
    case Alloc(code, size, num, ptr) =>
      && o.callerThreadId == self && o.msgCode == code && o.allocSize == size && o.allocNum == num
      && o.allocPtr == ptr && o.freePtr == 0
    case Resize(source, size, num, ptr) =>
      && o.callerThreadId == self && o.msgCode == CODE_REALLOC && o.allocSize == size && o.allocNum == num
      && o.allocPtr == ptr && o.freePtr == source
    case Release(ptr) => o.callerThreadId == self && o.msgCode == CODE_FREE && o.freePtr == ptr
    case ThreadCall(_, _, _) => false
  }

  /** What the server is fed when everything the client wrote has been read. */
  lemma ServerFed(l: Ledger, steps: seq<Step>, chunks: seq<seq<byte>>)
    requires l.Valid() && Exec(Start(), steps).Some? && Exec(Start(), steps).value.link.init
    requires ReadUp(Exec(Start(), steps).value, chunks)
    ensures var sent, opened' := Exec(Start(), steps).value.sent, l.Handle(OnNewConnection);
      && AllWellFormed(sent) && sent != [] && IsOpening(sent[0]) && Delivered(sent) != []
      && AllOrdinary(Delivered(sent)[1..]) && opened'.book == NoBook()
      && ServerAfter(l, chunks) == Feed(opened', Delivered(sent)[1..])
  {
    hide Exec, Start, Sane, Numbering, Ordered, TracesKept, Ordinary, WellFormed, Receive, Run, ReadUp, Linked;
    RunKept(steps);
    SentOrdinary(steps);
    StreamIsWhole(steps);
    ReadUpDelivers(steps, chunks);
    var ms := Delivered(Exec(Start(), steps).value.sent);
    DeliveredFirst(Exec(Start(), steps).value.sent);
    OpeningClears(l, ms);
  }

  lemma DeliveredAlternates(sent: seq<Message>, ptr: nat)
    requires AllWellFormed(sent) && sent != [] && IsOpening(sent[0]) && Alternates(sent, ptr)
    ensures Delivered(sent) != [] && Alternates(Delivered(sent)[1..], ptr)
  {
    hide Alternates, LiveIn, WellFormed;
    DeliveredLive(sent, ptr);
    DeliveredFirst(sent);
    HeadSilent(Delivered(sent), ptr, 0);
  }

  /** End to end: when everything the client wrote has been read, the operation that the server shows for an address of
      the program has the function, the size and the count of the call that got the address last, and its thread. */
  lemma ServerShowsCall(l: Ledger, steps: seq<Step>, chunks: seq<seq<byte>>, ptr: nat)
    requires l.Valid() && Exec(Start(), steps).Some? && Exec(Start(), steps).value.link.init
    requires InOrder(Start(), steps, ptr) && ptr != 0 && ReadUp(Exec(Start(), steps).value, chunks)
    requires ptr in Exec(Start(), steps).value.held
    ensures LastGet(steps, ptr).Some? && Holders(ServerAfter(l, chunks), ptr) == 1
    ensures var ops, got := ServerAfter(l, chunks).book.ops, LastGet(steps, ptr).value;
      forall k :: 0 <= k < |ops| && Holds(ptr)(ops[k]) ==> ShowsCall(ops[k], got.0, got.1)
  {
    hide *;
    var s := Exec(Start(), steps).value;
    RunSourced(steps, ptr);
    SourcedHeld(s, steps, ptr);
    ReportsAlternateExactly(steps, ptr);
    ServerShowsOnRecord(l, steps, chunks, ptr);
    HeldOnRecord(s, ptr);
    ServerFed(l, steps, chunks);
    DeliveredAlternates(s.sent, ptr);
    DeliveredLastAlloc(s.sent, ptr);
    LastGets(steps, ptr);
    var ops := ServerAfter(l, chunks).book.ops;
    forall k | 0 <= k < |ops| && Holds(ptr)(ops[k])
      ensures ShowsCall(ops[k], LastGet(steps, ptr).value.0, LastGet(steps, ptr).value.1)
    {
      ShownIsLast(l.Handle(OnNewConnection), Delivered(s.sent)[1..], ptr, k);
      SaysCall(ops[k], LastAlloc(s.sent, ptr), LastGet(steps, ptr).value, ptr);
    }
  }

  lemma SourcedHeld(s: Sys, steps: seq<Step>, ptr: nat)
    requires Sourced(s, steps, ptr) && ptr in s.held
    ensures LastGet(steps, ptr).Some? && ReportsGet(LastAlloc(s.sent, ptr), LastGet(steps, ptr).value)
  {
  }

  lemma HeldOnRecord(s: Sys, ptr: nat)
    requires ptr in s.held
    ensures OnRecord(s, ptr)
  {
  }

  lemma DeliveredLastAlloc(sent: seq<Message>, ptr: nat)
    requires AllWellFormed(sent) && sent != [] && IsOpening(sent[0])
    ensures Delivered(sent) != [] && LastAlloc(Delivered(sent)[1..], ptr) == LastAlloc(sent, ptr)
  {
    hide WellFormed, LastAlloc;
    DeliveredFirst(sent);
    LastAllocBehind(Delivered(sent), ptr);
    if Held(sent) == 1 {
      var last := sent[|sent| - 1];
      assert WellFormed(last);
      HeldNoAlloc(last);
      assert sent == Delivered(sent) + [last];
      LastAllocSnoc(Delivered(sent), last, ptr);
    } else {
      assert Delivered(sent) == sent;
    }
  }

  lemma HeldNoAlloc(m: Message)
    requires WellFormed(m) && KindOf(m.header.msgCode) == Backtrace
    ensures m.BacktraceMessage?
  {
  }

  lemma {:induction false} LastGets(steps: seq<Step>, ptr: nat)
    requires LastGet(steps, ptr).Some?
    ensures Gets(LastGet(steps, ptr).value.1, ptr)
  {
    var last := steps[|steps| - 1];
    if !(last.Enter? && Gets(last.call, ptr)) {
      LastGets(steps[..|steps| - 1], ptr);
    }
  }

  lemma SaysCall(o: Operation, m: Option<Message>, got: (nat, Call), ptr: nat)
    requires ReportsGet(m, got) && StandsFor(o, m.value) && Gets(got.1, ptr)
    ensures ShowsCall(o, got.0, got.1)
  {
  }

  // ---- All operations shown ----

  /** A memory message is kept as an operation, the k-th as the k-th, with all it says. */
  lemma {:induction false} MemoryMessages(l: Ledger, ms: seq<Message>)
    requires l.Valid() && l.book == NoBook() && AllOrdinary(ms)
    ensures var ops, memory := Feed(l, ms).book.ops, InMemory(ms);
      |ops| == |memory| && forall k :: 0 <= k < |ops| ==> StandsFor(ops[k], memory[k])
  {
    hide Feed, Run, Ordinary, StandsFor;
    if ms == [] {
      FeedNothing(l);
    } else {
      var front, last := ms[..|ms| - 1], ms[|ms| - 1];
      assert AllOrdinary(front);
      MemoryMessages(l, front);
      FeedSnoc(l, front, last);
      assert ms == front + [last];
      StepKeepsAll(Feed(l, front), InMemory(front), last);
    }
  }

  function InMemory(ms: seq<Message>): (memory: seq<Message>)
    ensures forall k :: 0 <= k < |memory| ==> memory[k] in ms && memory[k].MemoryMessage?
  {
    if ms == [] then []
    else
      var front, last := ms[..|ms| - 1], ms[|ms| - 1];
      InMemory(front) + if last.MemoryMessage? then [last] else []
  }

  lemma StepKeepsAll(l: Ledger, memory: seq<Message>, m: Message)
    requires l.Valid() && Ordinary(m) && |l.book.ops| == |memory|
    requires forall k :: 0 <= k < |memory| ==> StandsFor(l.book.ops[k], memory[k])
    ensures var ops, memory' := Run(l, CallsOf(m)).book.ops, memory + if m.MemoryMessage? then [m] else [];
      |ops| == |memory'| && forall k :: 0 <= k < |ops| ==> StandsFor(ops[k], memory'[k])
  {
    hide Run, StandsFor, Ledger.Handle, Ordinary;
    if CallsOf(m) == [] {
      RunOne(l, OnNewConnection);
    } else {
      RunOne(l, CallsOf(m)[0]);
      assert CallsOf(m) == [CallsOf(m)[0]];
      HandleKeepsAll(l, memory, m);
    }
  }

  lemma HandleKeepsAll(l: Ledger, memory: seq<Message>, m: Message)
    requires l.Valid() && Ordinary(m) && |l.book.ops| == |memory| && CallsOf(m) != []
    requires forall k :: 0 <= k < |memory| ==> StandsFor(l.book.ops[k], memory[k])
    ensures var ops, memory' := l.Handle(CallsOf(m)[0]).book.ops, memory + if m.MemoryMessage? then [m] else [];
      |ops| == |memory'| && forall k :: 0 <= k < |ops| ==> StandsFor(ops[k], memory'[k])
  {
    hide Book.Release, Book.Attach, Stats.Record, Ledger.Taken, StandsFor;
    match m
    case AppMessage(_) =>
    case MemoryMessage(h, size, ptr, num, freePtr) =>
      ReleaseSame(l.book, freePtr);
      StillStand(l.book.ops, l.book.Release(freePtr).ops, memory);
      NewStands(m, NewOperation(h, size, ptr, num, freePtr));
    case ThreadMessage(_, _, _) =>
    case BacktraceMessage(_, origin, addrs) =>
      AttachSame(l.book, Trace(origin, addrs));
      StillStand(l.book.ops, l.book.Attach(Trace(origin, addrs)).ops, memory);
    case SymbolMessage(_, _) =>
  }

  lemma StillStand(ops: seq<Operation>, ops': seq<Operation>, memory: seq<Message>)
    requires |ops| == |ops'| == |memory|
    requires forall k :: 0 <= k < |ops| ==>
      ops'[k] == ops[k].(freed := ops'[k].freed, backtrace := ops'[k].backtrace)
    requires forall k :: 0 <= k < |memory| ==> StandsFor(ops[k], memory[k])
    ensures forall k :: 0 <= k < |memory| ==> StandsFor(ops'[k], memory[k])
  {
  }

  lemma NewStands(m: Message, o: Operation)
    requires m.MemoryMessage? && o == NewOperation(m.header, m.allocSize, m.allocPtr, m.allocNum, m.freePtr)
    ensures StandsFor(o, m)
  {
  }

  /** End to end: every operation that the server shows, freed or not, shows a call that a thread of the client had
      entered when it stamped the message of that number. */
  lemma ServerShowsCalls(l: Ledger, steps: seq<Step>, chunks: seq<seq<byte>>, k: nat)
    requires l.Valid() && Exec(Start(), steps).Some? && Exec(Start(), steps).value.link.init
    requires ReadUp(Exec(Start(), steps).value, chunks) && k < |ServerAfter(l, chunks).book.ops|
    ensures var o := ServerAfter(l, chunks).book.ops[k];
      exists j: nat :: ShowsStep(o, steps, j)
  {
    hide *;
    ServerFed(l, steps, chunks);
    var sent, ops := Exec(Start(), steps).value.sent, ServerAfter(l, chunks).book.ops;
    var ms := Delivered(sent)[1..];
    MessagesTell(steps);
    MemoryMessages(l.Handle(OnNewConnection), ms);
    DeliveredIn(sent, InMemory(ms)[k]);
    StampShown(ops[k], InMemory(ms)[k], steps);
  }

  lemma DeliveredIn(sent: seq<Message>, m: Message)
    requires Delivered(sent) != [] && m in Delivered(sent)[1..]
    ensures m in sent
  {
  }

  ghost predicate ShowsStep(o: Operation, steps: seq<Step>, j: nat) {
    && j < |steps| && steps[j].StampReport? && o.msgNum == Stampings(steps[..j + 1])
    && o.time == Timeval(steps[j].sec, steps[j].usec)
    && LastCall(steps[..j], steps[j].self).Some?
    && ShowsCall(o, steps[j].self, LastCall(steps[..j], steps[j].self).value)
  }

  lemma StampShown(o: Operation, m: Message, steps: seq<Step>)
    requires StandsFor(o, m) && Accounted(m, steps)
    ensures exists j: nat :: ShowsStep(o, steps, j)
  {
    hide LastCall, Stampings;
    var j: nat :| MadeBy(m, steps, j);
    assert ShowsStep(o, steps, j);
  }
}
