/** What every interleaving of the client's threads keeps: numbers, their order by thread, backtraces, whole
    messages. */
module ClientStream {
  import opened Sequences
  import opened Messages
  import opened Operations
  import opened Transfer
  import opened Streams
  import opened Interleaving

  // ---- What a thread carries ----

  /** The messages a thread has stamped are well formed and carry its own identity. */
  predicate PhaseSane(self: nat, phase: Phase) {
    match phase
    case Idle => true
    case Acting(call) => CallFits(call) && Is64(self)
    case Reporting(call, m) =>
      && CallFits(call) && Is64(self) && WellFormed(m) && Is32(m.header.msgNum)
      && m == Report(call, m.header.timeSec, m.header.timeUsec, self, m.header.msgNum)
    case Reported(call, origin, _) => CallFits(call) && Is64(self) && !call.ThreadCall? && Is32(origin)
    case Following(call, origin, m) =>
      && CallFits(call) && Is64(self) && !call.ThreadCall? && Is32(origin) && WellFormed(m) && m.header.threadId == self
      && (m.SymbolMessage? || (m.BacktraceMessage? && m.originMsgNum == origin))
  }

  ghost predicate Sane(s: Sys) {
    && s.msgNum <= MAX_INT && (s.link.init <==> s.link.socket != NO_SOCKET)
    && forall self: nat :: PhaseSane(self, s.At(self))
  }

  lemma ReportFits(call: Call, sec: nat, usec: nat, self: nat, n: nat)
    requires CallFits(call) && Is64(sec) && Is64(usec) && Is64(self) && Is32(n)
    ensures WellFormed(Report(call, sec, usec, self, n))
  {
  }

  lemma FollowFits(extra: Extra, origin: nat, sec: nat, usec: nat, self: nat, n: nat)
    requires ExtraFits(extra) && Is32(origin) && Is64(sec) && Is64(usec) && Is64(self) && Is32(n)
    ensures WellFormed(Follow(extra, origin, sec, usec, self, n))
  {
  }

  lemma SelfSane(s: Sys, step: Step)
    requires s.msgNum <= MAX_INT && PhaseSane(step.self, s.At(step.self)) && s.Next(step).Some? && !step.Open?
    ensures PhaseSane(step.self, s.Next(step).value.At(step.self))
  {
    hide WellFormed, CallFits, ExtraFits, Encode, Link.SendSafe;
    match step {
      case StampReport(self, sec, usec) => ReportFits(s.At(self).call, sec, usec, self, s.msgNum + 1);
      case StampFollow(self, sec, usec, extra) => FollowFits(extra, s.At(self).origin, sec, usec, self, s.msgNum + 1);
      case _ =>
    }
  }

  lemma SaneStep(s: Sys, step: Step)
    requires Sane(s) && s.Next(step).Some?
    ensures Sane(s.Next(step).value)
  {
    hide WellFormed, CallFits, ExtraFits, Encode, PhaseSane;
    var s' := s.Next(step).value;
    if step.Open? { StepOpens(s, step); } else { SelfSane(s, step); StepMoves(s, step); StampBound(s, step); }
    forall other: nat ensures PhaseSane(other, s'.At(other)) {
      assert PhaseSane(other, s.At(other));
      if other != step.self { assert s'.At(other) == s.At(other); }
    }
  }

  lemma StampBound(s: Sys, step: Step)
    requires s.msgNum <= MAX_INT && s.Next(step).Some?
    ensures s.Next(step).value.msgNum <= MAX_INT
  {
    hide WellFormed, CallFits, ExtraFits, Encode, Link.SendSafe, Link.Open, Report, Follow;
  }

  // ---- Numbers ----

  /** The number of the message a thread has stamped and not sent. */
  function Carried(phase: Phase): (n: Option<nat>) {
    match phase
    case Reporting(_, m) => Some(m.header.msgNum)
    case Following(_, _, m) => Some(m.header.msgNum)
    case _ => None
  }

  ghost predicate InSent(ms: seq<Message>, n: nat) {
    exists i :: 0 <= i < |ms| && ms[i].header.msgNum == n
  }

  ghost predicate InFlight(s: Sys, n: nat) {
    exists self: nat :: Carried(s.At(self)) == Some(n)
  }

  /** Each number given out is in one place: with one message sent, or with one thread that has yet to send it. */
  ghost predicate Numbering(s: Sys) {
    && (forall i :: 0 <= i < |s.sent| ==> 1 <= s.sent[i].header.msgNum <= s.msgNum)
    && (forall i, j :: 0 <= i < j < |s.sent| ==> s.sent[i].header.msgNum != s.sent[j].header.msgNum)
    && (forall self: nat :: Carried(s.At(self)).Some? ==>
         1 <= Carried(s.At(self)).value <= s.msgNum && !InSent(s.sent, Carried(s.At(self)).value))
    && (forall self: nat, other: nat :: self != other && Carried(s.At(self)).Some? ==>
      Carried(s.At(self)) != Carried(s.At(other)))
    && (forall n: nat :: 1 <= n <= s.msgNum ==> InSent(s.sent, n) || InFlight(s, n))
  }

  /** Where the messages of the hooks begin: behind the opening, if there has been one. */
  function Lead(s: Sys): (k: nat) { if s.link.init then 1 else 0 }

  /** From `from` on, messages of one thread are in the order of their numbers. */
  ghost predicate ThreadsInOrder(ms: seq<Message>, from: nat) {
    forall i, j :: from <= i < j < |ms| && ms[i].header.threadId == ms[j].header.threadId ==>
      ms[i].header.msgNum < ms[j].header.msgNum
  }

  /** The hooks of one thread send in the order of their numbers. */
  ghost predicate Ordered(s: Sys) {
    && ThreadsInOrder(s.sent, Lead(s))
    && (forall self: nat, i ::
         Carried(s.At(self)).Some? && Lead(s) <= i < |s.sent| && s.sent[i].header.threadId == self ==>
           s.sent[i].header.msgNum < Carried(s.At(self)).value)
  }

  predicate IsOpening(m: Message) { m.AppMessage? && m.header.msgCode == CODE_INIT }

  /** Before the connection is open there are no backtraces. The opening goes first; its number is past those of what
      was sent before it, and before those of what its thread sends after it. */
  ghost predicate OpeningFirst(s: Sys) {
    if !s.link.init then
      && (forall self: nat :: !s.At(self).Following?)
      && (forall i :: 0 <= i < |s.sent| ==> !s.sent[i].BacktraceMessage?)
    else
      && s.early < |s.sent| && IsOpening(s.sent[0])
      && (forall i :: 1 <= i <= s.early ==>
        s.sent[i].header.msgNum < s.sent[0].header.msgNum && !s.sent[i].BacktraceMessage?)
      && (forall i :: s.early < i < |s.sent| && s.sent[i].header.threadId == s.sent[0].header.threadId ==>
           s.sent[0].header.msgNum < s.sent[i].header.msgNum)
      && (Carried(s.At(s.sent[0].header.threadId)).Some? ==>
        s.sent[0].header.msgNum < Carried(s.At(s.sent[0].header.threadId)).value)
      && s.sent[0].header.msgNum <= s.msgNum
  }

  /** What opening the connection does. */
  ghost predicate Opens(s: Sys, self: nat, s': Sys) {
    && !s.link.init && s'.link.init && s'.link.socket != NO_SOCKET && s.At(self).Idle?
    && (forall other: nat :: s'.At(other) == s.At(other))
    && s'.msgNum == s.msgNum + 1 && s'.early == |s.sent| && (s'.heap, s'.held) == (s.heap, s.held)
    && s'.sent != [] && s'.sent == [s'.sent[0]] + s.sent
    && IsOpening(s'.sent[0]) && s'.sent[0].header.threadId == self && s'.sent[0].header.msgNum == s'.msgNum
  }

  lemma StepOpens(s: Sys, step: Step)
    requires Sane(s) && step.Open? && s.Next(step).Some?
    ensures Opens(s, step.self, s.Next(step).value)
  {
    hide WellFormed, Encode;
  }

  /** What another step does to what the numbers are about: it stamps, it sends, or it does neither. */
  ghost predicate Moves(s: Sys, self: nat, s': Sys) {
    && s'.early == s.early && s'.link.init == s.link.init && s'.link.socket == s.link.socket
    && (forall other: nat :: other != self ==> s'.At(other) == s.At(other))
    && match Carried(s'.At(self))
       case Some(n) => s.At(self) != s'.At(self) && Carried(s.At(self)).None? && n == s.msgNum + 1 == s'.msgNum &&
         s'.sent == s.sent
       case None =>
         && s'.msgNum == s.msgNum
         && match s.At(self)
            case Reporting(_, m) => s'.sent == s.sent + [m]
            case Following(_, _, m) => s'.sent == s.sent + [m]
            case _ => s'.sent == s.sent
  }

  lemma StepMoves(s: Sys, step: Step)
    requires s.Next(step).Some? && !step.Open?
    ensures Moves(s, step.self, s.Next(step).value)
  {
    hide WellFormed, CallFits, ExtraFits, Encode;
  }

  lemma InSentSnoc(ms: seq<Message>, m: Message, n: nat)
    ensures InSent(ms + [m], n) <==> InSent(ms, n) || m.header.msgNum == n
  {
    if InSent(ms, n) {
      var i :| 0 <= i < |ms| && ms[i].header.msgNum == n;
      assert (ms + [m])[i].header.msgNum == n;
    }
    if m.header.msgNum == n {
      assert (ms + [m])[|ms|].header.msgNum == n;
    }
    if InSent(ms + [m], n) && m.header.msgNum != n {
      var i :| 0 <= i < |ms + [m]| && (ms + [m])[i].header.msgNum == n;
      assert ms[i].header.msgNum == n;
    }
  }

  lemma NumberedStep(s: Sys, self: nat, s': Sys)
    requires Numbering(s) && Moves(s, self, s')
    ensures Numbering(s')
  {
    hide InSent;
    if Carried(s'.At(self)).Some? {
      StampNumbered(s, self, s');
    } else if Carried(s.At(self)).Some? {
      SendNumbered(s, self, s', s'.sent[|s'.sent| - 1]);
    } else {
      forall n: nat | 1 <= n <= s.msgNum && InFlight(s, n) ensures InFlight(s', n) {
        var other: nat :| Carried(s.At(other)) == Some(n);
        assert Carried(s'.At(other)) == Some(n);
      }
    }
  }

  lemma StampNumbered(s: Sys, self: nat, s': Sys)
    requires Numbering(s) && Moves(s, self, s') && Carried(s'.At(self)).Some?
    ensures Numbering(s')
  {
    var n' := s.msgNum + 1;
    assert !InSent(s.sent, n');
    forall n: nat | 1 <= n <= s'.msgNum ensures InSent(s'.sent, n) || InFlight(s', n) {
      if n == n' {
        assert Carried(s'.At(self)) == Some(n);
      } else if InFlight(s, n) {
        var other: nat :| Carried(s.At(other)) == Some(n);
        assert Carried(s'.At(other)) == Some(n);
      }
    }
  }

  lemma SendNumbered(s: Sys, self: nat, s': Sys, m: Message)
    requires Numbering(s) && Moves(s, self, s') && Carried(s'.At(self)).None?
    requires Carried(s.At(self)) == Some(m.header.msgNum) && s'.sent == s.sent + [m]
    ensures Numbering(s')
  {
    forall n: nat ensures InSent(s'.sent, n) <==> InSent(s.sent, n) || n == m.header.msgNum {
      InSentSnoc(s.sent, m, n);
    }
    forall i | 0 <= i < |s.sent| ensures s.sent[i].header.msgNum != m.header.msgNum {
      assert !InSent(s.sent, m.header.msgNum);
    }
    hide InSent;
    forall n: nat | 1 <= n <= s'.msgNum ensures InSent(s'.sent, n) || InFlight(s', n) {
      if !InSent(s.sent, n) && n != m.header.msgNum {
        var other: nat :| Carried(s.At(other)) == Some(n);
        assert Carried(s'.At(other)) == Some(n);
      }
    }
  }

  lemma OpenNumbered(s: Sys, self: nat, s': Sys)
    requires Numbering(s) && Opens(s, self, s')
    ensures Numbering(s')
  {
    var m := s'.sent[0];
    forall n: nat ensures InSent(s'.sent, n) <==> InSent(s.sent, n) || n == m.header.msgNum {
      InSentCons(s.sent, m, n);
    }
    assert forall i :: 0 < i < |s'.sent| ==> s'.sent[i] == s.sent[i - 1];
    hide InSent;
    forall n: nat | 1 <= n <= s'.msgNum ensures InSent(s'.sent, n) || InFlight(s', n) {
      if !InSent(s.sent, n) && n != m.header.msgNum {
        var other: nat :| Carried(s.At(other)) == Some(n);
        assert Carried(s'.At(other)) == Some(n);
      }
    }
  }

  lemma InSentCons(ms: seq<Message>, m: Message, n: nat)
    ensures InSent([m] + ms, n) <==> InSent(ms, n) || m.header.msgNum == n
  {
    var all := [m] + ms;
    if InSent(ms, n) {
      var i :| 0 <= i < |ms| && ms[i].header.msgNum == n;
      assert all[i + 1].header.msgNum == n;
    }
    if m.header.msgNum == n {
      assert all[0].header.msgNum == n;
    }
    if InSent(all, n) && m.header.msgNum != n {
      var i :| 0 <= i < |all| && all[i].header.msgNum == n;
      assert ms[i - 1].header.msgNum == n;
    }
  }

  lemma OrderedStep(s: Sys, self: nat, s': Sys)
    requires Numbering(s) && Ordered(s) && Sane(s) && Moves(s, self, s')
    ensures Ordered(s')
  {
    hide InSent;
    assert PhaseSane(self, s.At(self));
  }

  lemma OpenOrdered(s: Sys, self: nat, s': Sys)
    requires Ordered(s) && Opens(s, self, s')
    ensures Ordered(s')
  {
    assert forall i :: 0 < i < |s'.sent| ==> s'.sent[i] == s.sent[i - 1];
  }

  lemma OpeningFirstStep(s: Sys, step: Step)
    requires OpeningFirst(s) && Numbering(s) && Sane(s) && s.Next(step).Some? && !step.Open?
    ensures OpeningFirst(s.Next(step).value)
  {
    hide InSent, WellFormed, Encode, CallFits, ExtraFits;
    var self, s' := step.self, s.Next(step).value;
    StepMoves(s, step);
    assert PhaseSane(self, s.At(self));
    if !s.link.init {
      forall other: nat ensures !s'.At(other).Following? {
        if other != self { assert s'.At(other) == s.At(other); }
      }
    } else if self != s.sent[0].header.threadId {
      assert s'.At(s.sent[0].header.threadId) == s.At(s.sent[0].header.threadId);
    }
  }

  lemma OpenOpeningFirst(s: Sys, self: nat, s': Sys)
    requires OpeningFirst(s) && Numbering(s) && Opens(s, self, s')
    ensures OpeningFirst(s')
  {
    assert forall i :: 0 < i < |s'.sent| ==> s'.sent[i] == s.sent[i - 1];
    assert s'.At(self) == s.At(self);
  }

  // ---- Backtraces ----

  function OriginOf(phase: Phase): (n: Option<nat>) {
    match phase
    case Reported(_, origin, _) => Some(origin)
    case Following(_, origin, _) => Some(origin)
    case _ => None
  }

  /** The backtrace of the call has not been sent. */
  predicate Untraced(phase: Phase) {
    match phase
    case Reported(_, _, traced) => !traced
    case Following(_, _, m) => m.BacktraceMessage?
    case _ => false
  }

  ghost predicate TracesKept(s: Sys) {
    && Traceable(s.sent)
    && (forall self: nat :: OriginOf(s.At(self)).Some? ==>
         var origin := OriginOf(s.At(self)).value;
         origin in MemoryNums(s.sent) && (Untraced(s.At(self)) ==> TraceFor(s.sent, origin).None?))
    && (forall self: nat, other: nat :: self != other && OriginOf(s.At(self)).Some? ==>
      OriginOf(s.At(self)) != OriginOf(s.At(other)))
  }

  lemma {:induction false} MemoryNumsSent(ms: seq<Message>, n: nat)
    requires n in MemoryNums(ms)
    ensures InSent(ms, n)
  {
    var front, last := ms[..|ms| - 1], ms[|ms| - 1];
    if last.MemoryMessage? && last.header.msgNum == n {
      assert ms[|ms| - 1].header.msgNum == n;
    } else {
      MemoryNumsSent(front, n);
      InSentSnoc(front, last, n);
      assert ms == front + [last];
    }
  }

  lemma ReportMemory(call: Call, m: Message)
    requires m == Report(call, m.header.timeSec, m.header.timeUsec, m.header.threadId, m.header.msgNum)
    ensures m.MemoryMessage? <==> !call.ThreadCall?
    ensures !m.BacktraceMessage? && !m.SymbolMessage?
  {
  }

  /** Sending a report: its number is a new origin, unless it reports a thread call. */
  lemma ReportTraces(s: Sys, self: nat, m: Message, s': Sys)
    requires TracesKept(s) && Numbering(s) && Carried(s.At(self)) == Some(m.header.msgNum) && s.At(self).Reporting?
    requires !m.BacktraceMessage? && s'.sent == s.sent + [m]
    requires forall other: nat :: other != self ==> s'.At(other) == s.At(other)
    requires OriginOf(s'.At(self)) == if m.MemoryMessage? then Some(m.header.msgNum) else None
    ensures TracesKept(s')
  {
    var n := m.header.msgNum;
    TraceableNums(s.sent);
    if n in MemoryNums(s.sent) { MemoryNumsSent(s.sent, n); }
    hide MemoryNums, TraceFor, Traceable, Untraced, InSent;
    forall k: nat ensures TraceFor(s'.sent, k) == TraceFor(s.sent, k) { TraceForSnoc(s.sent, m, k); }
    TraceForSnoc(s.sent, m, n);
    assert TraceFor(s.sent, n).None?;
  }

  lemma FollowTraces(s: Sys, self: nat, m: Message, s': Sys)
    requires TracesKept(s) && s.At(self).Following? && s.At(self).follow == m
    requires m.SymbolMessage? || (m.BacktraceMessage? && m.originMsgNum == s.At(self).origin)
    requires forall other: nat :: other != self ==> s'.At(other) == s.At(other)
    requires s'.sent == s.sent + [m] && OriginOf(s'.At(self)) == OriginOf(s.At(self)) && !Untraced(s'.At(self))
    ensures TracesKept(s')
  {
    hide MemoryNums, TraceFor, Traceable;
    assert OriginOf(s.At(self)) == Some(s.At(self).origin);
    assert m.BacktraceMessage? ==> Untraced(s.At(self));
    forall k: nat ensures TraceFor(s'.sent, k) == if m.BacktraceMessage? && m.originMsgNum == k then
      Some(Trace(k, m.addrs)) else TraceFor(s.sent, k) {
      TraceForSnoc(s.sent, m, k);
    }
    TraceForSnoc(s.sent, m, 0);
  }

  lemma TracesStep(s: Sys, step: Step)
    requires TracesKept(s) && Numbering(s) && Sane(s) && s.Next(step).Some? && !step.Open?
    ensures TracesKept(s.Next(step).value)
  {
    hide Numbering, MemoryNums, TraceFor, Traceable, Encode, CallFits, ExtraFits, WellFormed;
    var self, s' := step.self, s.Next(step).value;
    assert PhaseSane(self, s.At(self));
    match s.At(self)
    case Reporting(call, m) =>
      ReportMemory(call, m);
      ReportTraces(s, self, m, s');
    case Following(call, origin, m) => FollowTraces(s, self, m, s');
    case _ => StepMoves(s, step);
  }

  lemma OpenTraces(s: Sys, self: nat, s': Sys)
    requires TracesKept(s) && Opens(s, self, s')
    ensures TracesKept(s')
  {
    hide MemoryNums, TraceFor, Traceable, Untraced;
    assert s'.sent[1..] == s.sent;
    HeadTraceable(s'.sent);
    HeadSilent(s'.sent, 0, 0);
    forall n: nat ensures TraceFor(s'.sent, n) == TraceFor(s.sent, n) { HeadSilent(s'.sent, 0, n); }
  }

  // ---- The connection ----

  /** What was handed to the connection is the stream of the messages sent: some before the opening, the opening, the
      others. */
  ghost predicate Linked(s: Sys) {
    && AllWellFormed(s.sent)
    && if !s.link.init then s.link == SendAllSafe(NewLink(), s.sent)
       else
         && s.early < |s.sent| && 0 < s.link.socket
         && s.link == SendAll(SendAllSafe(NewLink(), s.sent[1..s.early + 1]).Open(Some(s.link.socket),
           Encode(s.sent[0])), s.sent[s.early + 1..])
  }

  lemma LinkedSend(s: Sys, m: Message)
    requires Linked(s) && (s.link.init <==> s.link.socket != NO_SOCKET) && WellFormed(m)
    ensures Linked(s.Transmit(m))
  {
    hide Encode, WellFormed;
    var ms, ms' := s.sent, s.sent + [m];
    if s.link.init {
      SlicesSnoc(ms, m, 1, s.early + 1);
    } else {
      assert ms'[..|ms|] == ms;
    }
  }

  lemma LinkedStep(s: Sys, step: Step)
    requires Linked(s) && Sane(s) && s.Next(step).Some? && !step.Open?
    ensures Linked(s.Next(step).value)
  {
    hide Encode, WellFormed, SendAll, SendAllSafe, CallFits, ExtraFits, Report, Follow, Link.SendSafe, Link.Open;
    match s.At(step.self)
    case Reporting(_, m) => if step.Send? { LinkedSend(s, m); }
    case Following(_, _, m) => if step.Send? { LinkedSend(s, m); }
    case _ =>
  }

  lemma OpenLinked(s: Sys, step: Step)
    requires Linked(s) && Sane(s) && step.Open? && s.Next(step).Some?
    ensures Linked(s.Next(step).value)
  {
    hide Encode, WellFormed, SendAllSafe;
    StepOpens(s, step);
    var s' := s.Next(step).value;
    assert s'.sent[1..s'.early + 1] == s.sent && s'.sent[s'.early + 1..] == [];
    forall i | 0 <= i < |s'.sent| ensures WellFormed(s'.sent[i]) { if 0 < i { assert s'.sent[i] == s.sent[i - 1]; } }
  }

  // ---- All runs ----

  ghost predicate Kept(s: Sys) {
    Sane(s) && Numbering(s) && Ordered(s) && OpeningFirst(s) && TracesKept(s) && Linked(s)
  }

  lemma StepKept(s: Sys, step: Step)
    requires Kept(s) && s.Next(step).Some?
    ensures Kept(s.Next(step).value)
  {
    hide Sys.Next, Sane, Numbering, Ordered, OpeningFirst, TracesKept, Linked, Moves, Opens;
    var self, s' := step.self, s.Next(step).value;
    SaneStep(s, step);
    if step.Open? {
      StepOpens(s, step);
      OpenNumbered(s, self, s');
      OpenOrdered(s, self, s');
      OpenOpeningFirst(s, self, s');
      OpenTraces(s, self, s');
      OpenLinked(s, step);
    } else {
      StepMoves(s, step);
      NumberedStep(s, self, s');
      OrderedStep(s, self, s');
      OpeningFirstStep(s, step);
      TracesStep(s, step);
      LinkedStep(s, step);
    }
  }

  lemma {:induction false} RunKept(steps: seq<Step>)
    requires Exec(Start(), steps).Some?
    ensures Kept(Exec(Start(), steps).value)
  {
    hide Sys.Next, Kept;
    if steps == [] {
      assert Kept(Start()) by { StartKept(); }
    } else {
      RunKept(steps[..|steps| - 1]);
      StepKept(Exec(Start(), steps[..|steps| - 1]).value, steps[|steps| - 1]);
    }
  }

  lemma StartKept()
    ensures Kept(Start())
  {
  }

  /** Every number given out is with one message sent or one thread, and no other is anywhere. */
  lemma NumbersExactlyOnce(steps: seq<Step>)
    requires Exec(Start(), steps).Some?
    ensures var s := Exec(Start(), steps).value;
      && (forall n: nat :: InSent(s.sent, n) || InFlight(s, n) <==> 1 <= n <= s.msgNum)
      && (forall n: nat :: !(InSent(s.sent, n) && InFlight(s, n)))
      && (forall i, j :: 0 <= i < j < |s.sent| ==> s.sent[i].header.msgNum != s.sent[j].header.msgNum)
      && (forall self: nat, other: nat :: self != other && Carried(s.At(self)).Some? ==>
        Carried(s.At(self)) != Carried(s.At(other)))
  {
    RunKept(steps);
    hide Exec, Sane, Ordered, OpeningFirst, TracesKept, Linked;
  }

  /** Without the opening, the messages of each thread are in the stream in the order of their numbers. */
  lemma ThreadOrder(steps: seq<Step>)
    requires Exec(Start(), steps).Some?
    ensures var s := Exec(Start(), steps).value; ThreadsInOrder(s.sent, Lead(s))
  {
    RunKept(steps);
    hide Exec, Sane, Numbering, ThreadsInOrder, OpeningFirst, TracesKept, Linked;
  }

  /** With the opening they are if and only if the thread that opened the connection had sent nothing before. */
  lemma ThreadOrderExactly(steps: seq<Step>)
    requires Exec(Start(), steps).Some? && Exec(Start(), steps).value.link.init
    ensures var s := Exec(Start(), steps).value;
      && s.early < |s.sent|
      && (ThreadsInOrder(s.sent, 0) <==>
        forall i :: 1 <= i <= s.early ==> s.sent[i].header.threadId != s.sent[0].header.threadId)
  {
    RunKept(steps);
    hide Exec, Sane, Numbering, TracesKept, Linked;
    var s := Exec(Start(), steps).value;
    if ThreadsInOrder(s.sent, 0) {
      forall i | 1 <= i <= s.early ensures s.sent[i].header.threadId != s.sent[0].header.threadId {
        assert !(s.sent[0].header.msgNum < s.sent[i].header.msgNum);
      }
    }
  }

  /** While no thread is between stamp and send, the messages sent are as many as the numbers given out. */
  lemma QuietCount(steps: seq<Step>)
    requires Exec(Start(), steps).Some?
    requires forall self: nat :: Carried(Exec(Start(), steps).value.At(self)).None?
    ensures var s := Exec(Start(), steps).value; |s.sent| == s.msgNum
  {
    RunKept(steps);
    hide Exec, Sane, Numbering, Ordered, OpeningFirst, TracesKept, Linked;
    NumberedCount(Exec(Start(), steps).value);
  }

  lemma NumberedCount(s: Sys)
    requires Numbering(s) && forall self: nat :: Carried(s.At(self)).None?
    ensures |s.sent| == s.msgNum
  {
    hide Carried;
    var nums := SentNums(s.sent);
    forall n: nat ensures n in nums <==> 1 <= n <= s.msgNum {
      if n in nums { var i :| 0 <= i < |nums| && nums[i] == n; }
      if 1 <= n <= s.msgNum {
        assert !InFlight(s, n);
        var i :| 0 <= i < |s.sent| && s.sent[i].header.msgNum == n;
        assert nums[i] == n;
      }
    }
    CountDistinct(nums, s.msgNum);
  }

  function SentNums(ms: seq<Message>): (nums: seq<nat>)
    ensures |nums| == |ms|
  {
    seq(|ms|, i requires 0 <= i < |ms| => ms[i].header.msgNum)
  }

  lemma {:induction false} CountDistinct(nums: seq<nat>, n: nat)
    requires forall i, j :: 0 <= i < j < |nums| ==> nums[i] != nums[j]
    requires forall k: nat :: k in nums <==> 1 <= k <= n
    ensures |nums| == n
    decreases n
  {
    if n == 0 {
      assert forall i :: 0 <= i < |nums| ==> nums[i] in nums;
    } else {
      assert n in nums;
      var i :| 0 <= i < |nums| && nums[i] == n;
      var rest := nums[..i] + nums[i + 1..];
      forall k: nat ensures k in rest <==> 1 <= k <= n - 1 {
        if k in rest { assert k in nums; }
        if 1 <= k <= n - 1 {
          assert k in nums;
          var j :| 0 <= j < |nums| && nums[j] == k;
          assert k == if j < i then rest[j] else rest[j - 1];
        }
      }
      CountDistinct(rest, n - 1);
    }
  }

  /** What has been written and what waits in a buffer are together the bytes of the messages sent: whole messages, in
      order. The transfer buffer is never full. */
  lemma StreamIsWhole(steps: seq<Step>)
    requires Exec(Start(), steps).Some?
    ensures var s := Exec(Start(), steps).value;
      && AllWellFormed(s.sent)
      && (s.link.init ==> Flatten(s.link.writes) + s.link.pending == EncodeAll(s.sent))
      && (s.link.init ==> |s.link.pending| < Transfer.BUFFER_SIZE)
      && (!s.link.init ==> s.link.writes == [] && s.link.preInit == EncodeAll(s.sent))
  {
    RunKept(steps);
    hide Exec, Sane, Numbering, Ordered, OpeningFirst, TracesKept, EncodeAll, WellFormed, SendAll;
    var s := Exec(Start(), steps).value;
    if s.link.init {
      LinkWhole(s);
    } else {
      SendAllSafePreInit(NewLink(), s.sent);
      assert [] + EncodeAll(s.sent) == EncodeAll(s.sent);
    }
  }

  lemma LinkWhole(s: Sys)
    requires Linked(s) && s.link.init
    ensures Flatten(s.link.writes) + s.link.pending == EncodeAll(s.sent) && |s.link.pending| < Transfer.BUFFER_SIZE
  {
    hide Encode, EncodeAll, WellFormed, SendAll, SendAllSafe, Batch, Flatten, TotalLength, Link.Open, GroupImages;
    var app, before, after := s.sent[0], s.sent[1..s.early + 1], s.sent[s.early + 1..];
    var opening := OpeningGroups(before, app);
    var b := Batch(after);
    OpenWrites(before, s.link.socket, app);
    SendAllIsBatch(SendAllSafe(NewLink(), before).Open(Some(s.link.socket), Encode(app)), after);
    BatchKeepsAll(after);
    BatchBounds(after);
    EncodeAllLength(b.waiting);
    ImagesJoin(opening, b.written);
    ImagesFlatten(opening + b.written);
    OpeningFlatten(before, app);
    FlattenConcat(opening, b.written);
    EncodeAllConcat(Flatten(opening + b.written), b.waiting);
    assert s.sent == ([app] + before) + (Flatten(b.written) + b.waiting);
    assert ([app] + before) + (Flatten(b.written) + b.waiting) == ([app] + before + Flatten(b.written)) + b.waiting;
  }
}
