/** What the messages of a client say: each is made by one stamp of the run, and tells what its thread was called
    for. */
module Contents {
  import opened Sequences
  import opened Messages
  import opened Interleaving
  import opened ClientStream

  // ---- The run, step by step ----

  predicate IsStamp(step: Step) { step.Open? || step.StampReport? || step.StampFollow? }

  /** The stamps of a run. */
  function Stampings(steps: seq<Step>): (n: nat) {
    if steps == [] then 0
    else Stampings(steps[..|steps| - 1]) + if IsStamp(steps[|steps| - 1]) then 1 else 0
  }

  /** The call that a thread has entered last. */
  function LastCall(steps: seq<Step>, self: nat): (call: Option<Call>) {
    if steps == [] then None
    else
      var last := steps[|steps| - 1];
      if last.Enter? && last.self == self then Some(last.call) else LastCall(steps[..|steps| - 1], self)
  }

  /** Which stamp of the run was the last report of a thread. */
  function LastReport(steps: seq<Step>, self: nat): (n: nat) {
    if steps == [] then 0
    else
      var last := steps[|steps| - 1];
      if last.StampReport? && last.self == self then Stampings(steps) else LastReport(steps[..|steps| - 1], self)
  }

  // ---- What a message says ----

  /** The message tells of a call: the function, the size, the count, the address it got and the one it gave back. */
  predicate Describes(m: Message, call: Call) {
    match call
    case Alloc(code, size, num, ptr) =>
      && m.MemoryMessage? && m.header.msgCode == code
      && m.allocSize == size && m.allocNum == num && m.allocPtr == ptr && m.freePtr == 0
    case Release(ptr) =>
      && m.MemoryMessage? && m.header.msgCode == CODE_FREE
      && m.allocSize == 0 && m.allocNum == 0 && m.allocPtr == 0 && m.freePtr == ptr
    case Resize(source, size, num, ptr) =>
      && m.MemoryMessage? && m.header.msgCode == CODE_REALLOC
      && m.allocSize == size && m.allocNum == num && m.allocPtr == ptr && m.freePtr == source
    case ThreadCall(code, id, name) =>
      m.ThreadMessage? && m.header.msgCode == code && m.threadId == id && m.threadName == name
  }

  /** The message carries what follows a report. */
  predicate Carries(m: Message, extra: Extra, origin: nat) {
    match extra
    case Addresses(addrs) =>
      m.BacktraceMessage? && m.header.msgCode == CODE_BACKTRACE && m.originMsgNum == origin && m.addrs == addrs
    case Symbols(infos) => m.SymbolMessage? && m.header.msgCode == CODE_SYMBOL_INFOS && m.infos == infos
  }

  predicate IsFrom(m: Message, self: nat, sec: nat, usec: nat) {
    m.header.threadId == self && m.header.timeSec == sec && m.header.timeUsec == usec
  }

  /** What a stamp makes, after the steps before it. */
  predicate Makes(step: Step, before: seq<Step>, m: Message) {
    match step
    case Open(self, _, sec, usec) => IsFrom(m, self, sec, usec) && m.AppMessage? && m.header.msgCode == CODE_INIT
    case StampReport(self, sec, usec) =>
      IsFrom(m, self, sec, usec) && LastCall(before, self).Some? && Describes(m, LastCall(before, self).value)
    case StampFollow(self, sec, usec, extra) =>
      IsFrom(m, self, sec, usec) && Carries(m, extra, LastReport(before, self))
    case _ => false
  }

  /** The message has the thread and the time of the k-th step, a stamp, and its place among the stamps for a number;
      and it says what there was to say. */
  ghost predicate MadeBy(m: Message, steps: seq<Step>, k: nat) {
    k < |steps| && m.header.msgNum == Stampings(steps[..k + 1]) && Makes(steps[k], steps[..k], m)
  }

  ghost predicate Accounted(m: Message, steps: seq<Step>) {
    exists k: nat :: MadeBy(m, steps, k)
  }

  lemma StillAccounted(m: Message, steps: seq<Step>, step: Step)
    requires Accounted(m, steps)
    ensures Accounted(m, steps + [step])
  {
    var k: nat :| MadeBy(m, steps, k);
    assert (steps + [step])[..k + 1] == steps[..k + 1] && (steps + [step])[..k] == steps[..k];
    assert MadeBy(m, steps + [step], k);
  }

  // ---- All runs ----

  ghost predicate PhaseAccounted(phase: Phase, self: nat, steps: seq<Step>) {
    match phase
    case Idle => true
    case Acting(call) => LastCall(steps, self) == Some(call)
    case Reporting(call, m) =>
      LastCall(steps, self) == Some(call) && Accounted(m, steps) && m.header.msgNum == LastReport(steps, self)
    case Reported(call, origin, _) => LastCall(steps, self) == Some(call) && origin == LastReport(steps, self)
    case Following(call, origin, m) =>
      LastCall(steps, self) == Some(call) && Accounted(m, steps) && origin == LastReport(steps, self)
  }

  ghost predicate AllAccounted(s: Sys, steps: seq<Step>) {
    && s.msgNum == Stampings(steps)
    && (forall i :: 0 <= i < |s.sent| ==> Accounted(s.sent[i], steps))
    && (forall self: nat :: PhaseAccounted(s.At(self), self, steps))
  }

  lemma ReportDescribes(call: Call, sec: nat, usec: nat, self: nat, n: nat)
    ensures var m := Report(call, sec, usec, self, n);
      Describes(m, call) && IsFrom(m, self, sec, usec) && m.header.msgNum == n
  {
  }

  lemma FollowCarries(extra: Extra, origin: nat, sec: nat, usec: nat, self: nat, n: nat)
    ensures var m := Follow(extra, origin, sec, usec, self, n);
      Carries(m, extra, origin) && IsFrom(m, self, sec, usec) && m.header.msgNum == n
  {
  }

  lemma MoreSteps(steps: seq<Step>, step: Step)
    ensures Stampings(steps + [step]) == Stampings(steps) + if IsStamp(step) then 1 else 0
    ensures forall self: nat ::
      LastCall(steps + [step], self) ==
        (if step.Enter? && step.self == self then Some(step.call) else LastCall(steps, self))
    ensures forall self: nat ::
      LastReport(steps + [step], self) ==
        (if step.StampReport? && step.self == self then Stampings(steps + [step]) else LastReport(steps, self))
  {
    assert (steps + [step])[..|steps|] == steps;
  }

  /** A message just stamped is made by the step that stamped it. */
  lemma JustStamped(m: Message, steps: seq<Step>, step: Step)
    requires IsStamp(step) && m.header.msgNum == Stampings(steps) + 1 && Makes(step, steps, m)
    ensures Accounted(m, steps + [step])
  {
    var all, k := steps + [step], |steps|;
    assert all[..k] == steps && all[..k + 1] == all && all[k] == step;
    MoreSteps(steps, step);
    assert MadeBy(m, all, k);
  }

  lemma OpenAccounted(s: Sys, steps: seq<Step>, step: Step)
    requires AllAccounted(s, steps) && step.Open? && s.Next(step).Some?
    ensures AllAccounted(s.Next(step).value, steps + [step])
  {
    hide Encode, WellFormed, Accounted, Stampings, LastCall, LastReport;
    var s', all := s.Next(step).value, steps + [step];
    MoreSteps(steps, step);
    JustStamped(s'.sent[0], steps, step);
    forall i | 0 <= i < |s'.sent| ensures Accounted(s'.sent[i], all) {
      if 0 < i { StillAccounted(s.sent[i - 1], steps, step); }
    }
    forall self: nat ensures PhaseAccounted(s'.At(self), self, all) {
      assert PhaseAccounted(s.At(self), self, steps) && s'.At(self) == s.At(self);
      PhaseStays(s.At(self), self, steps, step);
    }
  }

  /** A step of another thread, or an opening, says nothing else of a thread. */
  lemma PhaseStays(phase: Phase, self: nat, steps: seq<Step>, step: Step)
    requires PhaseAccounted(phase, self, steps) && (step.self != self || step.Open?)
    ensures PhaseAccounted(phase, self, steps + [step])
  {
    hide Accounted, Stampings, LastCall, LastReport;
    MoreSteps(steps, step);
    match phase
    case Reporting(_, m) => StillAccounted(m, steps, step);
    case Following(_, _, m) => StillAccounted(m, steps, step);
    case _ =>
  }

  lemma OwnAccounted(s: Sys, steps: seq<Step>, step: Step)
    requires AllAccounted(s, steps) && !step.Open? && s.Next(step).Some?
    ensures PhaseAccounted(s.Next(step).value.At(step.self), step.self, steps + [step])
  {
    hide Encode, WellFormed, Accounted, Stampings, LastCall, LastReport, Describes, Carries, CallFits, ExtraFits,
      Report,
      Follow, IsFrom;
    var self := step.self;
    assert PhaseAccounted(s.At(self), self, steps);
    MoreSteps(steps, step);
    match step
    case StampReport(_, sec, usec) =>
      ReportDescribes(s.At(self).call, sec, usec, self, s.msgNum + 1);
      JustStamped(Report(s.At(self).call, sec, usec, self, s.msgNum + 1), steps, step);
    case StampFollow(_, sec, usec, extra) =>
      FollowCarries(extra, s.At(self).origin, sec, usec, self, s.msgNum + 1);
      JustStamped(Follow(extra, s.At(self).origin, sec, usec, self, s.msgNum + 1), steps, step);
    case _ =>
  }

  lemma MoveAccounted(s: Sys, steps: seq<Step>, step: Step)
    requires AllAccounted(s, steps) && Sane(s) && !step.Open? && s.Next(step).Some?
    ensures AllAccounted(s.Next(step).value, steps + [step])
  {
    hide Sys.Next, PhaseAccounted, Accounted, Stampings, LastCall, LastReport, Sane;
    var s', all := s.Next(step).value, steps + [step];
    MoreSteps(steps, step);
    SentOrSame(s, step);
    OwnAccounted(s, steps, step);
    forall i | 0 <= i < |s'.sent| ensures Accounted(s'.sent[i], all) {
      if i < |s.sent| {
        StillAccounted(s.sent[i], steps, step);
      } else {
        HandedOver(s.At(step.self), step.self, steps, s'.sent[i]);
        StillAccounted(s'.sent[i], steps, step);
      }
    }
    forall self: nat ensures PhaseAccounted(s'.At(self), self, all) {
      if self != step.self {
        assert s'.At(self) == s.At(self);
        PhaseStays(s.At(self), self, steps, step);
      }
    }
  }

  lemma SentOrSame(s: Sys, step: Step)
    requires Sane(s) && !step.Open? && s.Next(step).Some?
    ensures var s' := s.Next(step).value;
      && (forall other: nat :: other != step.self ==> s'.At(other) == s.At(other))
      && s'.msgNum == s.msgNum + (if IsStamp(step) then 1 else 0)
      && |s.sent| <= |s'.sent| <= |s.sent| + 1 && s'.sent[..|s.sent|] == s.sent
      && (|s.sent| < |s'.sent| ==> Waiting(s.At(step.self)) == Some(s'.sent[|s.sent|]))
  {
    hide Encode, WellFormed, CallFits, ExtraFits, Report, Follow;
  }

  /** The message a thread has stamped and not sent. */
  function Waiting(phase: Phase): (m: Option<Message>) {
    match phase
    case Reporting(_, m) => Some(m)
    case Following(_, _, m) => Some(m)
    case _ => None
  }

  lemma HandedOver(phase: Phase, self: nat, steps: seq<Step>, m: Message)
    requires PhaseAccounted(phase, self, steps) && Waiting(phase) == Some(m)
    ensures Accounted(m, steps)
  {
  }

  lemma StartAccounted()
    ensures AllAccounted(Start(), [])
  {
  }

  lemma {:induction false} RunAccounted(steps: seq<Step>)
    requires Exec(Start(), steps).Some?
    ensures AllAccounted(Exec(Start(), steps).value, steps)
  {
    hide Start, Sys.Next, AllAccounted, Sane, Numbering, Ordered, OpeningFirst, TracesKept, Linked;
    if steps == [] {
      StartAccounted();
    } else {
      var front, step := steps[..|steps| - 1], steps[|steps| - 1];
      assert steps == front + [step];
      RunAccounted(front);
      RunKept(front);
      var s := Exec(Start(), front).value;
      if step.Open? { OpenAccounted(s, front, step); } else { MoveAccounted(s, front, step); }
    }
  }

  /** Under every interleaving: each message sent is made by the stamp of the run that its number counts. It has the
      thread and the time of that step; a report describes the call that its thread had entered, and what follows a
      report carries what that step was given, and the number of the report. */
  lemma MessagesTell(steps: seq<Step>)
    requires Exec(Start(), steps).Some?
    ensures var s := Exec(Start(), steps).value;
      && s.msgNum == Stampings(steps)
      && forall i :: 0 <= i < |s.sent| ==> Accounted(s.sent[i], steps)
  {
    hide Exec, Accounted;
    RunAccounted(steps);
  }

  /** A stamp makes one message at most. */
  lemma MadeOnce(m: Message, m': Message, steps: seq<Step>, k: nat)
    requires MadeBy(m, steps, k) && MadeBy(m', steps, k)
    ensures m == m'
  {
  }

  // ---- What a client sends ----

  /** What a thread has entered fits. */
  lemma {:induction false} CallsFit(steps: seq<Step>, self: nat)
    requires Exec(Start(), steps).Some? && LastCall(steps, self).Some?
    ensures CallFits(LastCall(steps, self).value)
  {
    var front, step := steps[..|steps| - 1], steps[|steps| - 1];
    if step.Enter? && step.self == self {
      assert Exec(Start(), front).value.Next(step).Some?;
    } else {
      CallsFit(front, self);
    }
  }

  lemma {:induction false} ExecPrefix(steps: seq<Step>, n: nat)
    requires Exec(Start(), steps).Some? && n <= |steps|
    ensures Exec(Start(), steps[..n]).Some?
  {
    hide Sys.Next;
    if n == |steps| {
      assert steps[..n] == steps;
    } else {
      ExecPrefix(steps[..|steps| - 1], n);
      assert steps[..|steps| - 1][..n] == steps[..n];
    }
  }
}
