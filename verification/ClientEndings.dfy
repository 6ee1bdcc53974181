/** What a run can still come to when no new call begins: once a report has been overtaken, no way to let the hooks end
    makes the stream right again; until then there is one. */
module ClientEndings {
  import opened Messages
  import opened Streams
  import opened Interleaving
  import opened ClientStream
  import opened Runs
  import opened ClientHeap

  predicate NoNewCall(steps: seq<Step>) {
    forall i :: 0 <= i < |steps| ==> !steps[i].Enter?
  }

  /** No hook is at work any more. */
  ghost predicate Quiet(s: Sys) {
    forall self: nat :: s.At(self).Idle?
  }

  /** These steps let the hooks at work end, and then the stream says of an address just whether the program holds
      it. */
  ghost predicate EndsRight(s: Sys, rest: seq<Step>, ptr: nat) {
    && NoNewCall(rest) && Exec(s, rest).Some?
    && var ended := Exec(s, rest).value; Quiet(ended) && (LiveIn(ended.sent, ptr) <==> ptr in ended.held)
  }

  ghost predicate CanEndRight(s: Sys, ptr: nat) {
    exists rest: seq<Step> :: EndsRight(s, rest, ptr)
  }

  // ---- When a report has been overtaken ----

  /** One thread, and then the program, has the address; what it reported is taken back, now or later. */
  ghost predicate Misled(s: Sys, owner: nat, ptr: nat) {
    && (forall other: nat :: other != owner ==> ClaimOf(s.At(other), ptr) in {NoClaim, Vacated})
    && (if ptr in s.held then ClaimOf(s.At(owner), ptr) == NoClaim
        else ClaimOf(s.At(owner), ptr) == Shown && (s.At(owner).Reported? || s.At(owner).Following?))
    && (LiveIn(s.sent, ptr) ==> exists other: nat :: other != owner && ClaimOf(s.At(other), ptr) == Vacated)
  }

  lemma OvertakenMisled(s: Sys, step: Step, ptr: nat)
    requires Placed(s, ptr) && Sane(s) && s.Next(step).Some? && Overtakes(s, step, ptr) && ptr != 0
    ensures Misled(s.Next(step).value, step.self, ptr)
  {
    hide Encode, WellFormed, Alternates, LiveIn;
    var self, s' := step.self, s.Next(step).value;
    assert PhaseSane(self, s.At(self));
    PlacedParts(s, self, ptr);
    StepOnlySelf(s, step);
    forall other: nat | other != self ensures ClaimOf(s'.At(other), ptr) in {NoClaim, Vacated} {
      assert s'.At(other) == s.At(other);
      assert Compatible(ClaimOf(s.At(self), ptr), ClaimOf(s.At(other), ptr));
    }
    var other: nat :| other != self && ClaimOf(s.At(other), ptr) == Vacated;
    assert s'.At(other) == s.At(other);
    assert Compatible(ClaimOf(s.At(self), ptr), ClaimOf(s.At(other), ptr));
  }

  lemma MisledStep(s: Sys, step: Step, owner: nat, ptr: nat)
    requires Misled(s, owner, ptr) && Sane(s) && s.Next(step).Some? && !step.Enter? && ptr != 0
    ensures Misled(s.Next(step).value, owner, ptr)
  {
    hide Encode, WellFormed, LiveIn;
    var self, s' := step.self, s.Next(step).value;
    StepOnlySelf(s, step);
    OwnClaim(s, step, ptr);
    forall other: nat | other != self ensures ClaimOf(s'.At(other), ptr) == ClaimOf(s.At(other), ptr) {
      assert s'.At(other) == s.At(other);
    }
    if LiveIn(s'.sent, ptr) {
      StillLive(s, step, owner, ptr);
      var other: nat :| other != owner && ClaimOf(s.At(other), ptr) == Vacated;
      assert ClaimOf(s'.At(other), ptr) == Vacated;
    }
  }

  /** What a step without a new call does to the claim of its own thread, and to the program's. */
  lemma OwnClaim(s: Sys, step: Step, ptr: nat)
    requires Sane(s) && s.Next(step).Some? && !step.Enter? && ptr != 0
    ensures var s', self := s.Next(step).value, step.self;
      var before, after := ClaimOf(s.At(self), ptr), ClaimOf(s'.At(self), ptr);
      && (before == NoClaim ==> after == NoClaim && (ptr in s'.held <==> ptr in s.held))
      && (before == Vacated ==> after in {Vacated, NoClaim} && (ptr in s'.held <==> ptr in s.held))
      && (before == Vacated && after == NoClaim ==> !LiveIn(s'.sent, ptr))
      && (before == Shown && (s.At(self).Reported? || s.At(self).Following?) ==>
           || (after == NoClaim && ptr in s'.held)
           || (after == Shown && (s'.At(self).Reported? || s'.At(self).Following?)
               && (ptr in s'.held <==> ptr in s.held)))
  {
    hide Encode, WellFormed, LiveIn, CallFits, ExtraFits;
    var self := step.self;
    assert PhaseSane(self, s.At(self));
    if step.Open? {
      StepOpens(s, step);
    } else if step.Send? {
      LiveSnoc(s.sent, s.Next(step).value.sent[|s.sent|], ptr);
    }
  }

  /** Nobody is left to report the address as allocated. */
  lemma StillLive(s: Sys, step: Step, owner: nat, ptr: nat)
    requires Misled(s, owner, ptr) && Sane(s) && s.Next(step).Some? && !step.Enter? && ptr != 0
    requires LiveIn(s.Next(step).value.sent, ptr)
    ensures LiveIn(s.sent, ptr)
  {
    hide Encode, WellFormed, LiveIn, CallFits, ExtraFits;
    var self, s' := step.self, s.Next(step).value;
    assert PhaseSane(self, s.At(self));
    if step.Open? {
      StepOpens(s, step);
      assert s'.sent[1..] == s.sent;
      HeadSilent(s'.sent, ptr, 0);
    } else if step.Send? {
      LiveSnoc(s.sent, s'.sent[|s.sent|], ptr);
    }
  }

  lemma {:induction false} MisledRun(s: Sys, rest: seq<Step>, owner: nat, ptr: nat)
    requires Misled(s, owner, ptr) && Sane(s) && NoNewCall(rest) && Exec(s, rest).Some? && ptr != 0
    ensures Misled(Exec(s, rest).value, owner, ptr) && Sane(Exec(s, rest).value)
  {
    hide Sys.Next, Misled, Sane;
    if rest == [] {
    } else {
      var front, step := rest[..|rest| - 1], rest[|rest| - 1];
      assert forall i :: 0 <= i < |front| ==> front[i] == rest[i];
      MisledRun(s, front, owner, ptr);
      MisledStep(Exec(s, front).value, step, owner, ptr);
      SaneStep(Exec(s, front).value, step);
    }
  }

  /** Once the report of an allocation has overtaken that of the realloc that left the address: however the hooks end,
      the program then holds the address and the stream says that it is free. */
  lemma OvertakenMisleads(steps: seq<Step>, step: Step, rest: seq<Step>, ptr: nat)
    requires Exec(Start(), steps).Some? && InOrder(Start(), steps, ptr) && ptr != 0
    requires Exec(Start(), steps).value.Next(step).Some? && Overtakes(Exec(Start(), steps).value, step, ptr)
    requires var s := Exec(Start(), steps).value.Next(step).value;
      NoNewCall(rest) && Exec(s, rest).Some? && Quiet(Exec(s, rest).value)
    ensures var ended := Exec(Exec(Start(), steps).value.Next(step).value, rest).value;
      ptr in ended.held && !LiveIn(ended.sent, ptr)
  {
    hide Exec, Sys.Next, Placed, Overtakes, Sane, Numbering, Ordered, OpeningFirst, TracesKept, Linked, LiveIn;
    var s := Exec(Start(), steps).value;
    RunPlaced(steps, ptr);
    RunKept(steps);
    OvertakenMisled(s, step, ptr);
    SaneStep(s, step);
    MisledRun(s.Next(step).value, rest, step.self, ptr);
  }

  // ---- Until then ----

  lemma {:induction false} ExecConcat(s: Sys, a: seq<Step>, b: seq<Step>)
    requires Exec(s, a).Some?
    ensures Exec(s, a + b) == Exec(Exec(s, a).value, b)
  {
    hide Sys.Next;
    if b == [] {
      assert a + b == a;
    } else {
      assert (a + b)[..|a + b| - 1] == a + b[..|b| - 1];
      ExecConcat(s, a, b[..|b| - 1]);
    }
  }

  lemma ExecFirst(s: Sys, step: Step, rest: seq<Step>)
    requires s.Next(step).Some?
    ensures Exec(s, [step] + rest) == Exec(s.Next(step).value, rest)
  {
    hide Sys.Next;
    assert [step][..0] == [];
    ExecConcat(s, [step], rest);
  }

  /** The steps that are left for a thread inside a hook. */
  function Work(phase: Phase): (n: nat) {
    match phase
    case Idle => 0
    case Reported(_, _, _) => 1
    case Following(_, _, _) => 2
    case Reporting(_, _) => 2
    case Acting(_) => 3
  }

  /** A thread can send what it has to without overtaking. */
  ghost predicate Harmless(s: Sys, self: nat, ptr: nat) {
    ClaimOf(s.At(self), ptr) == Unreported ==> forall other: nat :: ClaimOf(s.At(other), ptr) != Vacated
  }

  lemma OwnStep(s: Sys, self: nat) returns (step: Step)
    requires Sane(s) && !s.At(self).Idle? && (s.At(self).Acting? ==> s.msgNum < MAX_INT)
    ensures step.self == self && !step.Enter? && s.Next(step).Some?
    ensures var s' := s.Next(step).value;
      && Work(s'.At(self)) < Work(s.At(self)) && !s'.At(self).Acting?
      && s'.msgNum == s.msgNum + if s.At(self).Acting? then 1 else 0
  {
    hide Encode, WellFormed, CallFits;
    assert PhaseSane(self, s.At(self));
    step := if s.At(self).Acting? then StampReport(self, 0, 0) else if s.At(self).Reported? then Return(self)
      else Send(self);
  }

  lemma HarmlessStep(s: Sys, step: Step, ptr: nat)
    requires Placed(s, ptr) && Sane(s) && s.Next(step).Some? && !step.Enter? && ptr != 0 && Harmless(s, step.self, ptr)
    ensures !Overtakes(s, step, ptr) && Harmless(s.Next(step).value, step.self, ptr)
    ensures ClaimOf(s.Next(step).value.At(step.self), ptr) != Vacated || ClaimOf(s.At(step.self), ptr) == Vacated
  {
    hide Encode, WellFormed, LiveIn, Alternates, CallFits, ExtraFits;
    var self, s' := step.self, s.Next(step).value;
    assert PhaseSane(self, s.At(self));
    StepOnlySelf(s, step);
    if step.Open? { StepOpens(s, step); }
    forall other: nat | other != self ensures s'.At(other) == s.At(other) {
    }
    assert forall other: nat :: other != self ==> Compatible(ClaimOf(s.At(self), ptr), ClaimOf(s.At(other), ptr));
  }

  /** A thread inside a hook can go on to its end. */
  lemma {:induction false} FinishOne(s: Sys, self: nat, ptr: nat) returns (rest: seq<Step>)
    requires Sane(s) && Placed(s, ptr) && ptr != 0 && Harmless(s, self, ptr)
    requires s.At(self).Acting? ==> s.msgNum < MAX_INT
    ensures NoNewCall(rest) && Exec(s, rest).Some?
    ensures var s' := Exec(s, rest).value;
      && Sane(s') && Placed(s', ptr) && OnlySelf(s, self, s') && s'.At(self).Idle?
      && s'.msgNum <= s.msgNum + if s.At(self).Acting? then 1 else 0
    decreases Work(s.At(self))
  {
    if s.At(self).Idle? {
      rest := [];
    } else {
      hide Sane, Placed, Sys.Next, Harmless, Exec;
      var step := OwnStep(s, self);
      HarmlessStep(s, step, ptr);
      PlacedStep(s, step, ptr);
      SaneStep(s, step);
      StepOnlySelf(s, step);
      var more := FinishOne(s.Next(step).value, self, ptr);
      ExecFirst(s, step, more);
      rest := [step] + more;
    }
  }

  /** So can a set of threads, one after the other. */
  lemma {:induction false} FinishSet(s: Sys, ids: set<nat>, ptr: nat) returns (rest: seq<Step>)
    requires Sane(s) && Placed(s, ptr) && ptr != 0 && s.msgNum + |ids| <= MAX_INT
    requires forall self :: self in ids ==> Harmless(s, self, ptr)
    ensures NoNewCall(rest) && Exec(s, rest).Some?
    ensures var s' := Exec(s, rest).value;
      && Sane(s') && Placed(s', ptr) && s'.msgNum <= s.msgNum + |ids|
      && (forall self: nat :: s'.At(self) == if self in ids then Idle else s.At(self))
    decreases |ids|
  {
    if ids == {} {
      rest := [];
    } else {
      hide Sane, Placed, Exec;
      var self :| self in ids;
      var first := FinishOne(s, self, ptr);
      var s1, others := Exec(s, first).value, ids - {self};
      assert |others| == |ids| - 1;
      forall other | other in others ensures Harmless(s1, other, ptr) {
        assert Harmless(s, other, ptr);
        StaysHarmless(s, self, s1, other, ptr);
      }
      var more := FinishSet(s1, others, ptr);
      ExecConcat(s, first, more);
      rest := first + more;
    }
  }

  lemma StaysHarmless(s: Sys, self: nat, s': Sys, other: nat, ptr: nat)
    requires OnlySelf(s, self, s') && s'.At(self).Idle? && Harmless(s, other, ptr)
    ensures Harmless(s', other, ptr)
  {
    forall third: nat ensures ClaimOf(s'.At(third), ptr) == Vacated ==> ClaimOf(s.At(third), ptr) == Vacated {
      if third != self { assert s'.At(third) == s.At(third); }
    }
    if other != self { assert s'.At(other) == s.At(other); }
  }

  /** While numbers last: the reallocs that have left the address are reported first, then the others end. */
  lemma PlacedEndsRight(s: Sys, ptr: nat)
    requires Sane(s) && Placed(s, ptr) && ptr != 0 && s.msgNum + |s.threads| <= MAX_INT
    ensures CanEndRight(s, ptr)
  {
    hide Sane, Placed, Exec, LiveIn;
    var early := set self | self in s.threads.Keys && ClaimOf(s.At(self), ptr) != Unreported;
    var late := s.threads.Keys - early;
    assert |early| + |late| == |s.threads.Keys| by { assert early + late == s.threads.Keys; }
    var first := FinishSet(s, early, ptr);
    var s1 := Exec(s, first).value;
    forall other: nat ensures ClaimOf(s1.At(other), ptr) != Vacated {
      assert other !in s.threads ==> s.At(other).Idle?;
    }
    var more := FinishSet(s1, late, ptr);
    ExecConcat(s, first, more);
    var ended := Exec(s, first + more).value;
    forall self: nat ensures ended.At(self).Idle? {
      assert self !in s.threads ==> s.At(self).Idle?;
    }
    QuietRight(ended, ptr);
    assert EndsRight(s, first + more, ptr);
  }

  lemma QuietRight(s: Sys, ptr: nat)
    requires Placed(s, ptr) && Quiet(s)
    ensures LiveIn(s.sent, ptr) <==> ptr in s.held
  {
    hide LiveIn, Alternates;
    forall self: nat ensures ClaimOf(s.At(self), ptr) == NoClaim {
      assert s.At(self).Idle?;
    }
  }

  // ---- Exactly ----

  lemma {:induction false} RunPrefix(steps: seq<Step>, n: nat, ptr: nat)
    requires Exec(Start(), steps).Some? && n <= |steps|
    ensures Exec(Start(), steps[..n]).Some? && (InOrder(Start(), steps, ptr) ==> InOrder(Start(), steps[..n], ptr))
    ensures var s, s' := Exec(Start(), steps[..n]).value, Exec(Start(), steps).value;
      s.msgNum <= s'.msgNum && s.threads.Keys <= s'.threads.Keys
  {
    hide Sys.Next, Overtakes;
    if n == |steps| {
      assert steps[..n] == steps;
    } else {
      var front := steps[..|steps| - 1];
      RunPrefix(front, n, ptr);
      assert front[..n] == steps[..n];
      StepGrows(Exec(Start(), front).value, steps[|steps| - 1]);
    }
  }

  lemma StepGrows(s: Sys, step: Step)
    requires s.Next(step).Some?
    ensures var s' := s.Next(step).value; s.msgNum <= s'.msgNum && s.threads.Keys <= s'.threads.Keys
  {
    hide CallFits, ExtraFits, Encode, WellFormed, Report, Follow;
  }

  lemma {:induction false} FirstOvertaking(steps: seq<Step>, ptr: nat) returns (n: nat)
    requires Exec(Start(), steps).Some? && !InOrder(Start(), steps, ptr)
    ensures n < |steps| && Exec(Start(), steps[..n]).Some? && InOrder(Start(), steps[..n], ptr)
    ensures Overtakes(Exec(Start(), steps[..n]).value, steps[n], ptr)
  {
    hide Sys.Next, Overtakes;
    var front := steps[..|steps| - 1];
    if InOrder(Start(), front, ptr) {
      n := |steps| - 1;
    } else {
      n := FirstOvertaking(front, ptr);
      assert front[..n] == steps[..n];
    }
  }

  /** After so many steps of a run, the hooks at work can end so that the stream is right. */
  ghost predicate RightAfter(steps: seq<Step>, n: nat, ptr: nat)
    requires n <= |steps|
  {
    Exec(Start(), steps[..n]).Some? && CanEndRight(Exec(Start(), steps[..n]).value, ptr)
  }

  /** Exactly when the stream can be relied on: no report is overtaken in a run if and only if at each of its moments,
      without any new call, the hooks at work can end so that the stream says just what the program holds. (As long as
      there are numbers for the reports that are still to be stamped.) */
  lemma InOrderExactly(steps: seq<Step>, ptr: nat)
    requires Exec(Start(), steps).Some? && ptr != 0
    requires Exec(Start(), steps).value.msgNum + |Exec(Start(), steps).value.threads| <= MAX_INT
    ensures InOrder(Start(), steps, ptr) <==> forall n: nat :: n <= |steps| ==> RightAfter(steps, n, ptr)
  {
    hide Exec, InOrder, Sys.Next, Placed, Overtakes, Sane, Numbering, Ordered, OpeningFirst, TracesKept, Linked, LiveIn,
      Start, CanEndRight;
    if InOrder(Start(), steps, ptr) {
      forall n: nat | n <= |steps| ensures RightAfter(steps, n, ptr) {
        RunPrefix(steps, n, ptr);
        RunPlaced(steps[..n], ptr);
        RunKept(steps[..n]);
        var s, s' := Exec(Start(), steps[..n]).value, Exec(Start(), steps).value;
        FewerKeys(s.threads.Keys, s'.threads.Keys);
        PlacedEndsRight(s, ptr);
      }
    } else {
      var n := FirstOvertaking(steps, ptr);
      RunPrefix(steps, n + 1, ptr);
      ExecNext(Start(), steps, n, Exec(Start(), steps[..n]).value);
      NeverRight(steps[..n], steps[n], ptr);
      assert !RightAfter(steps, n + 1, ptr);
    }
  }

  lemma FewerKeys(a: set<nat>, b: set<nat>)
    requires a <= b
    ensures |a| <= |b|
  {
    assert |b| == |a| + |b - a| by { assert b == a + (b - a); }
  }

  lemma NeverRight(steps: seq<Step>, step: Step, ptr: nat)
    requires Exec(Start(), steps).Some? && InOrder(Start(), steps, ptr) && ptr != 0
    requires Exec(Start(), steps).value.Next(step).Some? && Overtakes(Exec(Start(), steps).value, step, ptr)
    ensures !CanEndRight(Exec(Start(), steps).value.Next(step).value, ptr)
  {
    hide Exec, InOrder, Sys.Next, Overtakes, LiveIn, Start;
    var s := Exec(Start(), steps).value.Next(step).value;
    forall rest: seq<Step> ensures !EndsRight(s, rest, ptr) {
      if EndsRight(s, rest, ptr) {
        OvertakenMisleads(steps, step, rest, ptr);
      }
    }
  }
}
