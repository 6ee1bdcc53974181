/** Single runs, step by step: what each step of a given run leads to. */
module Runs {
  import opened Sequences
  import opened Messages
  import opened Transfer
  import opened Interleaving
  import opened ClientStream

  ghost predicate OnlySelf(s: Sys, self: nat, s': Sys) {
    forall other: nat :: other != self ==> s'.At(other) == s.At(other)
  }

  lemma StepOnlySelf(s: Sys, step: Step)
    requires s.Next(step).Some?
    ensures OnlySelf(s, step.self, s.Next(step).value)
  {
    hide CallFits, ExtraFits, Encode, WellFormed, Link.SendSafe, Link.Open, Report, Follow;
  }

  lemma NoStepYet(s: Sys, steps: seq<Step>)
    ensures Exec(s, steps[..0]) == Some(s)
  {
  }

  lemma ExecNext(start: Sys, steps: seq<Step>, k: nat, s: Sys)
    requires k < |steps| && Exec(start, steps[..k]) == Some(s)
    ensures Exec(start, steps[..k + 1]) == s.Next(steps[k])
  {
    hide Sys.Next;
    assert steps[..k + 1][..k] == steps[..k];
  }

  lemma Connects(start: Sys, steps: seq<Step>, k: nat, s: Sys, self: nat)
    requires k < |steps| && Exec(start, steps[..k]) == Some(s) && steps[k] == Open(self, 3, 0, 0)
    requires Is64(self) && s.At(self).Idle? && s.msgNum < MAX_INT && s.link.socket == NO_SOCKET
    ensures WellFormed(Opening(0, 0, self, s.msgNum + 1))
    ensures Exec(start, steps[..k + 1]) == Some(s.Connect(3, Opening(0, 0, self, s.msgNum + 1)))
    ensures OnlySelf(s, self, Exec(start, steps[..k + 1]).value)
  {
    hide Exec, Encode;
    ExecNext(start, steps, k, s);
  }

  lemma Enters(start: Sys, steps: seq<Step>, k: nat, s: Sys, self: nat, call: Call)
    requires k < |steps| && Exec(start, steps[..k]) == Some(s) && steps[k] == Enter(self, call)
    requires Is64(self) && s.At(self).Idle? && s.CanEnter(call)
    ensures Exec(start, steps[..k + 1]) == Some(s.Begin(call).Put(self, Acting(call)))
    ensures OnlySelf(s, self, Exec(start, steps[..k + 1]).value)
  {
    hide Exec;
    ExecNext(start, steps, k, s);
  }

  lemma Stamps(start: Sys, steps: seq<Step>, k: nat, s: Sys, self: nat, call: Call)
    requires k < |steps| && Exec(start, steps[..k]) == Some(s) && steps[k] == StampReport(self, 0, 0)
    requires s.At(self) == Acting(call) && s.msgNum < MAX_INT
    ensures Exec(start, steps[..k + 1]) ==
      Some(s.(msgNum := s.msgNum + 1).Put(self, Reporting(call, Report(call, 0, 0, self, s.msgNum + 1))))
  {
    hide Exec;
    ExecNext(start, steps, k, s);
  }

  lemma Sends(start: Sys, steps: seq<Step>, k: nat, s: Sys, self: nat, call: Call, n: nat)
    requires k < |steps| && Exec(start, steps[..k]) == Some(s) && steps[k] == Send(self)
    requires s.At(self) == Reporting(call, Report(call, 0, 0, self, n)) && CallFits(call) && Is64(self) && Is32(n)
    ensures WellFormed(Report(call, 0, 0, self, n))
    ensures Exec(start, steps[..k + 1]) ==
            Some(s.Transmit(Report(call, 0, 0, self, n)).Put(self, if call.ThreadCall? then Idle
              else Reported(call, n, false)))
  {
    hide Exec, Encode, WellFormed;
    ReportFits(call, 0, 0, self, n);
    ExecNext(start, steps, k, s);
  }

  lemma Returns(start: Sys, steps: seq<Step>, k: nat, s: Sys, self: nat, call: Call)
    requires k < |steps| && Exec(start, steps[..k]) == Some(s) && steps[k] == Return(self)
    requires s.At(self).Reported? && s.At(self).call == call
    ensures Exec(start, steps[..k + 1]) == Some(s.Finish(call).Put(self, Idle))
    ensures OnlySelf(s, self, Exec(start, steps[..k + 1]).value)
  {
    hide Exec;
    ExecNext(start, steps, k, s);
  }

  /** Stamping and sending the report of a call. */
  lemma Reports(start: Sys, steps: seq<Step>, k: nat, s: Sys, self: nat, call: Call)
    requires k + 1 < |steps| && Exec(start, steps[..k]) == Some(s) && steps[k] == StampReport(self, 0, 0) &&
      steps[k + 1] == Send(self)
    requires Is64(self) && s.At(self) == Acting(call) && CallFits(call) && s.msgNum < MAX_INT
    ensures var r := Exec(start, steps[..k + 2]);
      && r.Some? && OnlySelf(s, self, r.value) && r.value.msgNum == s.msgNum + 1
      && (r.value.heap, r.value.held) == (s.heap, s.held)
      && (s.link.socket == NO_SOCKET ==> r.value.link.socket == NO_SOCKET)
      && r.value.At(self) == (if call.ThreadCall? then Idle else Reported(call, s.msgNum + 1, false))
      && r.value.sent == s.sent + [Report(call, 0, 0, self, s.msgNum + 1)]
  {
    hide Exec, Encode, WellFormed, Sys.Next;
    Stamps(start, steps, k, s, self, call);
    var s1 := Exec(start, steps[..k + 1]).value;
    Sends(start, steps, k + 1, s1, self, call, s.msgNum + 1);
  }

  // ---- A message older than the opening ----

  /** A thread's first hook opens the connection, and before that some function it calls allocates. */
  function EarlyReport(): (steps: seq<Step>) {
    [Enter(7, Alloc(CODE_CALLOC, 8, 0, 16)), StampReport(7, 0, 0), Send(7), Return(7), Open(7, 3, 0, 0)]
  }

  /** The stream of that run is not in the order of its thread's numbers: the opening has number 2, what follows it
      number 1. */
  lemma OpeningOutOfOrder()
    ensures var s := Exec(Start(), EarlyReport());
      && s.Some? && s.value.link.init && s.value.early == 1
      && s.value.sent == [Opening(0, 0, 7, 2), Report(Alloc(CODE_CALLOC, 8, 0, 16), 0, 0, 7, 1)]
      && !ThreadsInOrder(s.value.sent, 0)
  {
    hide Exec, Sys.Next, Encode, WellFormed;
    var s0, steps, call := Start(), EarlyReport(), Alloc(CODE_CALLOC, 8, 0, 16);
    NoStepYet(s0, steps);
    Enters(s0, steps, 0, s0, 7, call);
    var s1 := Exec(s0, steps[..1]).value;
    Reports(s0, steps, 1, s1, 7, call);
    var s3 := Exec(s0, steps[..3]).value;
    Returns(s0, steps, 3, s3, 7, call);
    var s4 := Exec(s0, steps[..4]).value;
    Connects(s0, steps, 4, s4, 7);
    assert steps[..5] == steps;
    var ms := Exec(s0, steps).value.sent;
    assert ms[0].header.threadId == ms[1].header.threadId && ms[1].header.msgNum < ms[0].header.msgNum;
  }
}
