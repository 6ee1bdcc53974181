/** End to end: what a server that reads everything a client wrote shows of the client's memory. */
module Pipeline {
  import opened Packed
  import opened Sequences
  import opened Messages
  import opened Framing
  import opened Chunking
  import opened Transfer
  import opened Delivery
  import opened Operations
  import opened Ledger
  import opened Streams
  import opened Interleaving
  import opened ClientStream
  import opened ClientHeap

  /** What the client has written once it has disposed of its connection. */
  function Written(s: Sys): (writes: seq<seq<byte>>) {
    s.link.Close().writes
  }

  /** All that was written is read: write by write, or in any reads but the last of at least 467 bytes. */
  ghost predicate AllRead(writes: seq<seq<byte>>, chunks: seq<seq<byte>>) {
    || chunks == NonEmpty(writes)
    || (Flatten(chunks) == Flatten(writes) && AtLeast(chunks, 467))
  }

  ghost predicate ReadUp(s: Sys, chunks: seq<seq<byte>>) {
    AllRead(Written(s), chunks)
  }

  /** The ledger of a server that was in any state before it got these reads. */
  function ServerAfter(l: Ledger, chunks: seq<seq<byte>>): (l': Ledger)
    requires l.Valid()
  {
    Run(l, Flatten(Receive([], chunks).steps))
  }

  /** The messages that get through: all but a backtrace at the very end. */
  function Delivered(ms: seq<Message>): (delivered: seq<Message>) {
    ms[..|ms| - Held(ms)]
  }

  /** Everything a session sends gets through but a backtrace at the very end. */
  lemma SessionReadUp(before: seq<Message>, fd: int, app: Message, after: seq<Message>, chunks: seq<seq<byte>>)
    requires AllWellFormed(before) && WellFormed(app) && KindOf(app.header.msgCode) == App && AllWellFormed(after) &&
      0 < fd
    requires Held(before) == 0 && AllRead(Session(before, fd, app, after).writes, chunks)
    ensures Receive([], chunks).steps == Steps(Delivered(SessionMessages(before, app, after)))
  {
    hide Encode, EncodeAll, WellFormed, Receive, NonEmpty, Session, Flatten, Ready, KindOf, Held;
    var ms := SessionMessages(before, app, after);
    if chunks == NonEmpty(Session(before, fd, app, after).writes) {
      SessionDelivered(before, fd, app, after);
    } else {
      SessionWrites(before, fd, app, after);
      SessionFlatten(before, app, after);
      ImagesFlatten(SessionGroups(before, app, after));
      LongReadsCount(ms, chunks);
      ReadInFullExactly(ms, chunks);
      ReadyAll(ms);
    }
  }

  /** What is written under an interleaving is a session too. */
  lemma ReadUpDelivers(steps: seq<Step>, chunks: seq<seq<byte>>)
    requires Exec(Start(), steps).Some? && Exec(Start(), steps).value.link.init &&
      ReadUp(Exec(Start(), steps).value, chunks)
    ensures Receive([], chunks).steps == Steps(Delivered(Exec(Start(), steps).value.sent))
  {
    hide Exec, Start, Sane, Numbering, Ordered, TracesKept, Encode, Receive, NonEmpty, SendAll, SendAllSafe, Link.Close,
      Link.Open,
         AllRead;
    RunKept(steps);
    var s := Exec(Start(), steps).value;
    var app, before, after := s.sent[0], s.sent[1..s.early + 1], s.sent[s.early + 1..];
    assert SessionMessages(before, app, after) == s.sent;
    assert Session(before, s.link.socket, app, after) == s.link.Close();
    if before != [] { assert WellFormed(s.sent[s.early]) && before[|before| - 1] == s.sent[s.early]; }
    assert Held(before) == 0;
    SessionReadUp(before, s.link.socket, app, after, chunks);
  }

  /** The opening clears the server's data. */
  lemma OpeningClears(l: Ledger, ms: seq<Message>)
    requires l.Valid() && ms != [] && IsOpening(ms[0])
    ensures var opened' := l.Handle(OnNewConnection);
      opened'.book == NoBook() && Feed(l, ms) == Feed(opened', ms[1..])
  {
    hide Run, Ledger.Handle;
    var app := ms[0];
    assert Steps(ms) == [CallsOf(app)] + Steps(ms[1..]);
    FlattenConcat([CallsOf(app)], Steps(ms[1..]));
    FlattenOne(CallsOf(app));
    RunConcat(l, CallsOf(app), Flatten(Steps(ms[1..])));
    RunOne(l, OnNewConnection);
    ClearedBook(l);
  }

  lemma ClearedBook(l: Ledger)
    requires l.Valid()
    ensures l.Handle(OnNewConnection).book == NoBook()
  {
  }

  /** A backtrace at the end says nothing about what is live. */
  lemma DeliveredLive(ms: seq<Message>, ptr: nat)
    requires AllWellFormed(ms)
    ensures LiveIn(Delivered(ms), ptr) == LiveIn(ms, ptr) && (Alternates(ms, ptr) ==> Alternates(Delivered(ms), ptr))
    ensures Traceable(ms) ==> Traceable(Delivered(ms))
  {
    hide MemoryNums, TraceFor;
    if Held(ms) == 1 {
      var last := ms[|ms| - 1];
      assert WellFormed(last) && last.BacktraceMessage?;
      assert ms == Delivered(ms) + [last];
      LiveSnoc(Delivered(ms), last, ptr);
    } else {
      assert Delivered(ms) == ms;
    }
  }

  // ---- The theorem ----

  /** Whatever the server has seen before, whatever the interleaving of the client's threads, before the opening and
      after it: when everything the client wrote has been read, the server shows an address as not freed, and then once,
      just if it is on record. */
  lemma ServerShowsOnRecord(l: Ledger, steps: seq<Step>, chunks: seq<seq<byte>>, ptr: nat)
    requires l.Valid() && Exec(Start(), steps).Some? && Exec(Start(), steps).value.link.init
    requires InOrder(Start(), steps, ptr) && ptr != 0 && ReadUp(Exec(Start(), steps).value, chunks)
    ensures Holders(ServerAfter(l, chunks), ptr) == if OnRecord(Exec(Start(), steps).value, ptr) then 1 else 0
  {
    hide Exec, Start, Sane, Numbering, Ordered, TracesKept, Alternates, LiveIn, Ordinary, OnRecord, InOrder, WellFormed,
         Receive, Run, ReadUp;
    RunKept(steps);
    SentOrdinary(steps);
    ReportsAlternateExactly(steps, ptr);
    LiveExactly(steps, ptr);
    ReadUpDelivers(steps, chunks);
    ShownLive(l, Exec(Start(), steps).value.sent, chunks, ptr);
  }

  lemma ShownLive(l: Ledger, sent: seq<Message>, chunks: seq<seq<byte>>, ptr: nat)
    requires l.Valid() && ptr != 0 && AllWellFormed(sent) && sent != [] && IsOpening(sent[0])
    requires Receive([], chunks).steps == Steps(Delivered(sent))
    requires Alternates(sent, ptr) && forall i :: 1 <= i < |sent| ==> Ordinary(sent[i])
    ensures Holders(ServerAfter(l, chunks), ptr) == if LiveIn(sent, ptr) then 1 else 0
  {
    hide Alternates, LiveIn, Ordinary, Receive, Run, WellFormed, Steps;
    var ms := Delivered(sent);
    DeliveredLive(sent, ptr);
    DeliveredFirst(sent);
    HeadSilent(ms, ptr, 0);
    OpeningClears(l, ms);
    LedgerShowsLive(l.Handle(OnNewConnection), ms[1..], ptr);
    assert ServerAfter(l, chunks) == Feed(l, ms);
  }

  lemma DeliveredFirst(ms: seq<Message>)
    requires AllWellFormed(ms) && ms != [] && IsOpening(ms[0])
    ensures Delivered(ms) != [] && Delivered(ms)[0] == ms[0] && Delivered(ms) <= ms
  {
  }

  /** And every operation it shows is one that was sent, with its own backtrace, if one was sent and got through. */
  lemma ServerShowsTraces(l: Ledger, steps: seq<Step>, chunks: seq<seq<byte>>)
    requires l.Valid() && Exec(Start(), steps).Some? && Exec(Start(), steps).value.link.init
    requires ReadUp(Exec(Start(), steps).value, chunks)
    ensures Traced(ServerAfter(l, chunks).book.ops, Delivered(Exec(Start(), steps).value.sent))
  {
    hide Exec, Start, Sane, Numbering, Ordered, Alternates, LiveIn, Ordinary, Traceable, TraceFor, MemoryNums,
      WellFormed,
         Receive, Run, ReadUp;
    var s := Exec(Start(), steps).value;
    RunKept(steps);
    SentOrdinary(steps);
    ReadUpDelivers(steps, chunks);
    var ms := Delivered(s.sent);
    DeliveredLive(s.sent, 0);
    DeliveredFirst(s.sent);
    HeadTraceable(ms);
    OpeningClears(l, ms);
    BacktracesAttached(l.Handle(OnNewConnection), ms[1..]);
    HeadSilentTraced(Feed(l.Handle(OnNewConnection), ms[1..]).book.ops, ms);
  }

  lemma HeadSilentTraced(ops: seq<Operation>, ms: seq<Message>)
    requires ms != [] && ms[0].AppMessage? && Traced(ops, ms[1..])
    ensures Traced(ops, ms)
  {
    hide MemoryNums, TraceFor;
    HeadSilent(ms, 0, 0);
    forall k | 0 <= k < |ops| ensures ops[k].msgNum == MemoryNums(ms)[k] &&
      ops[k].backtrace == TraceFor(ms, ops[k].msgNum) {
      HeadSilent(ms, 0, ops[k].msgNum);
    }
  }
}
