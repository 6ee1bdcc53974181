/** The order of report and act in the hooks: a free is reported before it acts, an allocation after it has. Therefore
    what the stream says is live is right under every interleaving of allocations and frees. */
module ClientHeap {
  import opened Sequences
  import opened Messages
  import opened Streams
  import opened Interleaving
  import opened ClientStream
  import opened Runs

  /** What a thread inside a hook says of an address: that it is allocated and not reported yet, that it is reported,
      that its free is reported, or that a realloc has moved away from it and is not reported yet. */
  datatype Claim = NoClaim | Unreported | Shown | Withdrawn | Vacated

  function ClaimOf(phase: Phase, ptr: nat): (claim: Claim) {
    match phase
    case Idle => NoClaim
    case Acting(call) => EarlyClaim(call, ptr)
    case Reporting(call, _) => EarlyClaim(call, ptr)
    case Reported(call, _, _) => LateClaim(call, ptr)
    case Following(call, _, _) => LateClaim(call, ptr)
  }

  function EarlyClaim(call: Call, ptr: nat): (claim: Claim) {
    match call
    case Alloc(_, _, _, p) => if p == ptr then Unreported else NoClaim
    case Release(p) => if p == ptr then Shown else NoClaim
    case Resize(source, _, _, p) =>
      if p == ptr == source then Shown else if p == ptr then Unreported else if source == ptr then Vacated else NoClaim
    case ThreadCall(_, _, _) => NoClaim
  }

  function LateClaim(call: Call, ptr: nat): (claim: Claim) {
    match call
    case Alloc(_, _, _, p) => if p == ptr then Shown else NoClaim
    case Release(p) => if p == ptr then Withdrawn else NoClaim
    case Resize(_, _, _, p) => if p == ptr then Shown else NoClaim
    case ThreadCall(_, _, _) => NoClaim
  }

  /** Two threads claim an address only if a realloc has moved away from it and the allocator has handed it out again,
      and neither is reported. */
  predicate Compatible(a: Claim, b: Claim) {
    a == NoClaim || b == NoClaim || (a == Vacated && b == Unreported) || (a == Unreported && b == Vacated)
  }

  /** An address is free, or with the program, or claimed by threads; and the stream shows just what that says. */
  ghost predicate Placed(s: Sys, ptr: nat) {
    && (forall self: nat, other: nat :: self != other ==>
      Compatible(ClaimOf(s.At(self), ptr), ClaimOf(s.At(other), ptr)))
    && (ptr in s.held ==> ptr in s.heap && LiveIn(s.sent, ptr) && forall self: nat ::
      ClaimOf(s.At(self), ptr) == NoClaim)
    && (forall self: nat :: ClaimFits(ClaimOf(s.At(self), ptr), ptr in s.heap, LiveIn(s.sent, ptr)))
    && (ptr in s.heap ==> ptr in s.held || exists self: nat :: ClaimOf(s.At(self), ptr) !in {NoClaim, Vacated})
    && (LiveIn(s.sent, ptr) ==> ptr in s.held || exists self: nat :: ClaimOf(s.At(self), ptr) in {Shown, Vacated})
    && Alternates(s.sent, ptr)
  }

  predicate ClaimFits(claim: Claim, inHeap: bool, live: bool) {
    match claim
    case NoClaim => true
    case Unreported => inHeap
    case Shown => inHeap && live
    case Withdrawn => inHeap && !live
    case Vacated => live
  }

  /** A step that leaves the claims on an address, and the address, as they are. */
  lemma SamePlaced(s: Sys, self: nat, ptr: nat, s': Sys)
    requires Placed(s, ptr) && OnlySelf(s, self, s') && ClaimOf(s'.At(self), ptr) == ClaimOf(s.At(self), ptr)
    requires (ptr in s'.heap) == (ptr in s.heap) && (ptr in s'.held) == (ptr in s.held)
    requires LiveIn(s'.sent, ptr) == LiveIn(s.sent, ptr) && Alternates(s'.sent, ptr)
    ensures Placed(s', ptr)
  {
    hide LiveIn, Alternates, ClaimOf, ClaimFits;
    forall other: nat ensures ClaimOf(s'.At(other), ptr) == ClaimOf(s.At(other), ptr) {
      if other != self { assert s'.At(other) == s.At(other); }
    }
    if ptr in s.heap && ptr !in s.held {
      var other: nat :| ClaimOf(s.At(other), ptr) !in {NoClaim, Vacated};
      assert ClaimOf(s'.At(other), ptr) !in {NoClaim, Vacated};
    }
    if LiveIn(s.sent, ptr) && ptr !in s.held {
      var other: nat :| ClaimOf(s.At(other), ptr) in {Shown, Vacated};
      assert ClaimOf(s'.At(other), ptr) in {Shown, Vacated};
    }
  }

  /** A step by which a thread comes to be the only one that claims an address, or leaves it to the program or the
      allocator. */
  lemma SolePlaced(s: Sys, self: nat, ptr: nat, s': Sys)
    requires OnlySelf(s, self, s') && Alternates(s'.sent, ptr)
    requires forall other: nat :: other != self ==> ClaimOf(s.At(other), ptr) == NoClaim
    requires var claim, live := ClaimOf(s'.At(self), ptr), LiveIn(s'.sent, ptr);
      && ClaimFits(claim, ptr in s'.heap, live)
      && (ptr in s'.held ==> ptr in s'.heap && live && claim == NoClaim)
      && (ptr in s'.heap ==> ptr in s'.held || claim !in {NoClaim, Vacated})
      && (live ==> ptr in s'.held || claim in {Shown, Vacated})
    ensures Placed(s', ptr)
  {
    hide LiveIn, Alternates, ClaimOf;
    forall other: nat | other != self ensures ClaimOf(s'.At(other), ptr) == NoClaim {
      assert s'.At(other) == s.At(other);
    }
  }

  /** What only the program or one thread can have, no other thread claims. */
  lemma Alone(s: Sys, self: nat, ptr: nat)
    requires Placed(s, ptr) && (ptr in s.held || ClaimOf(s.At(self), ptr) in {Shown, Withdrawn})
    ensures forall other: nat :: other != self ==> ClaimOf(s.At(other), ptr) == NoClaim
  {
    hide LiveIn, Alternates, ClaimOf, ClaimFits;
  }

  lemma EnterPlaced(s: Sys, self: nat, call: Call, ptr: nat)
    requires Placed(s, ptr) && s.Next(Enter(self, call)).Some? && ptr != 0
    ensures Placed(s.Next(Enter(self, call)).value, ptr)
  {
    var s' := s.Next(Enter(self, call)).value;
    assert ClaimOf(s.At(self), ptr) == NoClaim;
    match EarlyClaim(call, ptr)
    case NoClaim => SamePlaced(s, self, ptr, s');
    case Unreported => HandedOut(s, self, ptr, s');
    case _ =>
      Alone(s, self, ptr);
      SolePlaced(s, self, ptr, s');
  }

  /** The allocator hands out an address: it can only have been left by a realloc that is not reported. */
  lemma HandedOut(s: Sys, self: nat, ptr: nat, s': Sys)
    requires Placed(s, ptr) && OnlySelf(s, self, s') && ptr !in s.heap && ClaimOf(s.At(self), ptr) == NoClaim
    requires ClaimOf(s'.At(self), ptr) == Unreported && ptr in s'.heap && ptr !in s'.held && s'.sent == s.sent
    ensures Placed(s', ptr)
  {
    hide LiveIn, Alternates, ClaimOf;
    forall other: nat ensures other != self ==>
      ClaimOf(s'.At(other), ptr) == ClaimOf(s.At(other), ptr) && ClaimOf(s.At(other), ptr) in {NoClaim, Vacated} {
      if other != self { assert s'.At(other) == s.At(other); }
      assert ClaimFits(ClaimOf(s.At(other), ptr), ptr in s.heap, LiveIn(s.sent, ptr));
    }
    if LiveIn(s.sent, ptr) {
      var other: nat :| ClaimOf(s.At(other), ptr) in {Shown, Vacated};
      assert ClaimOf(s'.At(other), ptr) in {Shown, Vacated};
    }
  }

  // ---- Reports, in order or not ----

  /** The report of an allocation overtakes that of a realloc that has moved away from the address. */
  ghost predicate Overtakes(s: Sys, step: Step, ptr: nat) {
    && step.Send? && s.At(step.self).Reporting? && Allocates(s.At(step.self).report, ptr)
    && exists other: nat :: other != step.self && ClaimOf(s.At(other), ptr) == Vacated
  }

  /** What a send does to the claim of its thread, and what its message says of the address. */
  lemma SendSays(s: Sys, self: nat, ptr: nat)
    requires PhaseSane(self, s.At(self)) && s.Next(Send(self)).Some? && ptr != 0
    ensures var s' := s.Next(Send(self)).value;
      && OnlySelf(s, self, s') && s'.heap == s.heap && s'.held == s.held && s'.sent != []
      && s'.sent == s.sent + [s'.sent[|s'.sent| - 1]]
    ensures var s' := s.Next(Send(self)).value;
      var m, claim, claim' := s'.sent[|s'.sent| - 1], ClaimOf(s.At(self), ptr), ClaimOf(s'.At(self), ptr);
      if s.At(self).Following? || claim == NoClaim
      then claim' == claim && !Allocates(m, ptr) && !Frees(m, ptr)
      else
        && s.At(self).Reporting? && m == s.At(self).report
        && (claim == Unreported ==> claim' == Shown && Allocates(m, ptr) && !Frees(m, ptr))
        && (claim == Vacated ==> claim' == NoClaim && !Allocates(m, ptr) && Frees(m, ptr))
        && (claim == Shown ==> Frees(m, ptr) && claim' == if Allocates(m, ptr) then Shown else Withdrawn)
        && claim != Withdrawn
  {
    hide Encode, WellFormed;
  }

  lemma SendPlaced(s: Sys, self: nat, ptr: nat)
    requires Placed(s, ptr) && PhaseSane(self, s.At(self)) && s.Next(Send(self)).Some? && ptr != 0
    requires !Overtakes(s, Send(self), ptr)
    ensures Placed(s.Next(Send(self)).value, ptr)
  {
    hide Sys.Next, Sys.At, LiveIn, Alternates, ClaimOf, Placed, Allocates, Frees, PhaseSane, OnlySelf;
    SendSays(s, self, ptr);
    var s' := s.Next(Send(self)).value;
    var m, claim := s'.sent[|s'.sent| - 1], ClaimOf(s.At(self), ptr);
    LiveSnoc(s.sent, m, ptr);
    PlacedParts(s, self, ptr);
    if s.At(self).Following? || claim == NoClaim {
      SamePlaced(s, self, ptr, s');
    } else if claim == Unreported {
      FirstReport(s, self, ptr);
      SolePlaced(s, self, ptr, s');
    } else if claim == Vacated {
      LeftBehind(s, self, ptr, s');
    } else {
      Alone(s, self, ptr);
      SolePlaced(s, self, ptr, s');
    }
  }

  lemma PlacedParts(s: Sys, self: nat, ptr: nat)
    requires Placed(s, ptr)
    ensures Alternates(s.sent, ptr) && ClaimFits(ClaimOf(s.At(self), ptr), ptr in s.heap, LiveIn(s.sent, ptr))
    ensures ClaimOf(s.At(self), ptr) != NoClaim ==> ptr !in s.held
  {
  }

  lemma FirstReport(s: Sys, self: nat, ptr: nat)
    requires Placed(s, ptr) && ClaimOf(s.At(self), ptr) == Unreported
    requires forall other: nat :: other != self ==> ClaimOf(s.At(other), ptr) != Vacated
    ensures !LiveIn(s.sent, ptr) && forall other: nat :: other != self ==> ClaimOf(s.At(other), ptr) == NoClaim
  {
    hide LiveIn, Alternates, ClaimOf;
    assert forall other: nat :: other != self ==> Compatible(ClaimOf(s.At(self), ptr), ClaimOf(s.At(other), ptr));
  }

  /** The report of a realloc takes back the address it has left. */
  lemma LeftBehind(s: Sys, self: nat, ptr: nat, s': Sys)
    requires Placed(s, ptr) && OnlySelf(s, self, s') && ClaimOf(s.At(self), ptr) == Vacated &&
      ClaimOf(s'.At(self), ptr) == NoClaim
    requires s'.heap == s.heap && s'.held == s.held && !LiveIn(s'.sent, ptr) && Alternates(s'.sent, ptr)
    ensures Placed(s', ptr)
  {
    hide LiveIn, Alternates, ClaimOf;
    forall other: nat | other != self ensures ClaimOf(s'.At(other), ptr) in {NoClaim, Unreported} &&
      ClaimOf(s'.At(other), ptr) == ClaimOf(s.At(other), ptr) {
      assert s'.At(other) == s.At(other);
      assert Compatible(ClaimOf(s.At(self), ptr), ClaimOf(s.At(other), ptr));
    }
    if ptr in s.heap {
      var other: nat :| ClaimOf(s.At(other), ptr) !in {NoClaim, Vacated};
      assert ClaimOf(s'.At(other), ptr) !in {NoClaim, Vacated};
    }
  }

  lemma ReturnPlaced(s: Sys, self: nat, ptr: nat)
    requires Placed(s, ptr) && s.Next(Return(self)).Some?
    ensures Placed(s.Next(Return(self)).value, ptr)
  {
    hide Placed, LiveIn, Alternates;
    var s' := s.Next(Return(self)).value;
    PlacedParts(s, self, ptr);
    if ClaimOf(s.At(self), ptr) == NoClaim {
      SamePlaced(s, self, ptr, s');
    } else {
      Alone(s, self, ptr);
      SolePlaced(s, self, ptr, s');
    }
  }

  lemma OpenPlaced(s: Sys, step: Step, ptr: nat)
    requires Placed(s, ptr) && Sane(s) && step.Open? && s.Next(step).Some?
    ensures Placed(s.Next(step).value, ptr)
  {
    hide Placed, LiveIn, Alternates, Encode, WellFormed;
    var s' := s.Next(step).value;
    StepOpens(s, step);
    PlacedParts(s, step.self, ptr);
    assert s'.sent[1..] == s.sent;
    HeadSilent(s'.sent, ptr, 0);
    SamePlaced(s, step.self, ptr, s');
  }

  lemma PlacedStep(s: Sys, step: Step, ptr: nat)
    requires Placed(s, ptr) && Sane(s) && s.Next(step).Some? && ptr != 0 && !Overtakes(s, step, ptr)
    ensures Placed(s.Next(step).value, ptr)
  {
    hide Placed, LiveIn, Alternates, Encode, WellFormed, Overtakes;
    PlacedParts(s, step.self, ptr);
    match step
    case Open(self, _, _, _) => OpenPlaced(s, step, ptr);
    case Enter(self, call) => EnterPlaced(s, self, call, ptr);
    case StampReport(self, _, _) => SamePlaced(s, self, ptr, s.Next(step).value);
    case StampFollow(self, _, _, _) => SamePlaced(s, self, ptr, s.Next(step).value);
    case Send(self) => assert PhaseSane(self, s.At(self)); SendPlaced(s, self, ptr);
    case Return(self) => ReturnPlaced(s, self, ptr);
  }

  // ---- All runs ----

  /** In no step of the run does the report of an allocation of an address overtake that of a realloc that has left
      it. */
  ghost predicate InOrder(start: Sys, steps: seq<Step>, ptr: nat) {
    if steps == [] then true
    else
      var front := steps[..|steps| - 1];
      InOrder(start, front, ptr) && (Exec(start, front).Some? ==>
        !Overtakes(Exec(start, front).value, steps[|steps| - 1], ptr))
  }

  lemma StartPlaced(ptr: nat)
    ensures Placed(Start(), ptr)
  {
  }

  lemma {:induction false} RunPlaced(steps: seq<Step>, ptr: nat)
    requires Exec(Start(), steps).Some? && InOrder(Start(), steps, ptr) && ptr != 0
    ensures Placed(Exec(Start(), steps).value, ptr)
  {
    hide Start, Sys.Next, Placed, Overtakes, Sane, Numbering, Ordered, OpeningFirst, TracesKept, Linked;
    if steps == [] {
      StartPlaced(ptr);
    } else {
      var front := steps[..|steps| - 1];
      RunPlaced(front, ptr);
      RunKept(front);
      PlacedStep(Exec(Start(), front).value, steps[|steps| - 1], ptr);
    }
  }

  lemma OvertakenBreaks(s: Sys, step: Step, ptr: nat)
    requires Placed(s, ptr) && Sane(s) && s.Next(step).Some? && Overtakes(s, step, ptr) && ptr != 0
    ensures !Alternates(s.Next(step).value.sent, ptr)
  {
    hide Encode, WellFormed, Alternates, LiveIn;
    var self := step.self;
    var m := s.At(self).report;
    assert PhaseSane(self, s.At(self));
    LiveSnoc(s.sent, m, ptr);
    var other: nat :| other != self && ClaimOf(s.At(other), ptr) == Vacated;
    PlacedParts(s, other, ptr);
    assert Compatible(ClaimOf(s.At(self), ptr), ClaimOf(s.At(other), ptr));
  }

  lemma BrokenStays(s: Sys, step: Step, ptr: nat)
    requires Sane(s) && s.Next(step).Some? && !Alternates(s.sent, ptr)
    ensures !Alternates(s.Next(step).value.sent, ptr)
  {
    hide Encode, WellFormed, Alternates, LiveIn;
    if step.Open? {
      StepOpens(s, step);
      assert s.Next(step).value.sent[1..] == s.sent;
      HeadSilent(s.Next(step).value.sent, ptr, 0);
      return;
    }
    StepMoves(s, step);
    var sent := s.Next(step).value.sent;
    if sent != s.sent { LiveSnoc(s.sent, sent[|sent| - 1], ptr); assert sent == s.sent + [sent[|sent| - 1]]; }
  }

  /** The reports of an address alternate - an allocation, a free, an allocation - under exactly those interleavings in
      which no report of an allocation of it overtakes the report of a realloc that has left it. */
  lemma {:induction false} ReportsAlternateExactly(steps: seq<Step>, ptr: nat)
    requires Exec(Start(), steps).Some? && ptr != 0
    ensures Alternates(Exec(Start(), steps).value.sent, ptr) <==> InOrder(Start(), steps, ptr)
  {
    hide Start, Sys.Next, Placed, Overtakes, Alternates, Sane, Numbering, Ordered, OpeningFirst, TracesKept, Linked;
    if InOrder(Start(), steps, ptr) {
      RunPlaced(steps, ptr);
      PlacedParts(Exec(Start(), steps).value, 0, ptr);
    } else {
      var front, step := steps[..|steps| - 1], steps[|steps| - 1];
      var s := Exec(Start(), front).value;
      if InOrder(Start(), front, ptr) {
        RunPlaced(front, ptr);
        RunKept(front);
        OvertakenBreaks(s, step, ptr);
      } else {
        ReportsAlternateExactly(front, ptr);
        RunKept(front);
        BrokenStays(s, step, ptr);
      }
    }
  }

  predicate IsResize(step: Step) { step.Enter? && step.call.Resize? }

  /** A run without realloc. */
  predicate WithoutResize(steps: seq<Step>) {
    forall i :: 0 <= i < |steps| ==> !IsResize(steps[i])
  }

  predicate NoResize(phase: Phase) {
    phase.Idle? || !phase.call.Resize?
  }

  /** Allocations and frees alone can interleave in any way. */
  lemma {:induction false} WithoutResizeInOrder(start: Sys, steps: seq<Step>, ptr: nat)
    requires Exec(start, steps).Some? && WithoutResize(steps) && forall self: nat :: start.At(self).Idle?
    ensures InOrder(start, steps, ptr)
    ensures forall self: nat :: NoResize(Exec(start, steps).value.At(self))
  {
    hide Sys.Next, CallFits, ExtraFits, Encode, WellFormed;
    if steps == [] {
    } else {
      var front, step := steps[..|steps| - 1], steps[|steps| - 1];
      WithoutResizeInOrder(start, front, ptr);
      var s := Exec(start, front).value;
      assert !IsResize(step);
      SelfNoResize(s, step);
      forall other: nat ensures ClaimOf(s.At(other), ptr) != Vacated { assert NoResize(s.At(other)); }
      StepOnlySelf(s, step);
      forall other: nat ensures NoResize(s.Next(step).value.At(other)) {
        if other != step.self { assert s.Next(step).value.At(other) == s.At(other); }
      }
    }
  }

  lemma SelfNoResize(s: Sys, step: Step)
    requires s.Next(step).Some? && !IsResize(step) && NoResize(s.At(step.self))
    ensures NoResize(s.Next(step).value.At(step.self))
  {
    hide CallFits, ExtraFits, Encode, WellFormed;
  }

  /** An address that has been reported as allocated and not taken back: it is the program's, or it is just being
      returned to it, or its free has begun, or a realloc has moved away from it. */
  ghost predicate OnRecord(s: Sys, ptr: nat) {
    ptr in s.held || exists self: nat :: ClaimOf(s.At(self), ptr) in {Shown, Vacated}
  }

  /** What the stream says is live is what is on record. While no hook is at work on an address, that is what the real
      allocator has handed out. */
  lemma LiveExactly(steps: seq<Step>, ptr: nat)
    requires Exec(Start(), steps).Some? && InOrder(Start(), steps, ptr) && ptr != 0
    ensures var s := Exec(Start(), steps).value;
      && (LiveIn(s.sent, ptr) <==> OnRecord(s, ptr))
      && ((forall self: nat :: ClaimOf(s.At(self), ptr) == NoClaim) ==> (LiveIn(s.sent, ptr) <==> ptr in s.heap))
  {
    RunPlaced(steps, ptr);
    hide Exec, Start, LiveIn, Alternates, ClaimOf;
    var s := Exec(Start(), steps).value;
    forall self: nat | ClaimOf(s.At(self), ptr) in {Shown, Vacated} ensures LiveIn(s.sent, ptr) {
      PlacedParts(s, self, ptr);
    }
  }

  /** Besides its opening the client sends nothing that restarts the server, and allocations only as allocations. */
  lemma {:induction false} SentOrdinary(steps: seq<Step>)
    requires Exec(Start(), steps).Some?
    ensures var s := Exec(Start(), steps).value; forall i :: Lead(s) <= i < |s.sent| ==> Ordinary(s.sent[i])
  {
    if steps == [] {
    } else {
      var front, step := steps[..|steps| - 1], steps[|steps| - 1];
      SentOrdinary(front);
      RunKept(front);
      StepOrdinary(Exec(Start(), front).value, step);
    }
  }

  lemma StepOrdinary(s: Sys, step: Step)
    requires Sane(s) && s.Next(step).Some? && forall i :: Lead(s) <= i < |s.sent| ==> Ordinary(s.sent[i])
    ensures var s' := s.Next(step).value; forall i :: Lead(s') <= i < |s'.sent| ==> Ordinary(s'.sent[i])
  {
    hide Encode, WellFormed;
    assert PhaseSane(step.self, s.At(step.self));
    if step.Open? {
      StepOpens(s, step);
      assert forall i :: 0 < i < |s.Next(step).value.sent| ==> s.Next(step).value.sent[i] == s.sent[i - 1];
    } else {
      StepMoves(s, step);
    }
  }

  // ---- Realloc ----

  /** A thread reallocates an address it has allocated; before it reports that, another thread is given the old
      address. */
  function ReallocRace(): (steps: seq<Step>) {
    [Open(1, 3, 0, 0), Enter(1, Alloc(CODE_MALLOC, 8, 0, 16)), StampReport(1, 0, 0), Send(1), Return(1),
     Enter(1, Resize(16, 8, 0, 32)), Enter(2, Alloc(CODE_MALLOC, 8, 0, 16)), StampReport(2, 0, 0), Send(2), Return(2),
     StampReport(1, 0, 0), Send(1), Return(1)]
  }

  /** The first half of that run: the realloc has moved away from the address. */
  lemma RaceBegins() returns (s: Sys)
    ensures Exec(Start(), ReallocRace()[..6]) == Some(s)
    ensures (forall self: nat :: self != 1 ==> s.At(self).Idle?) && s.At(1) == Acting(Resize(16, 8, 0, 32))
    ensures s.heap == {32} && s.held == {} && s.msgNum == 2 && LiveIn(s.sent, 16)
  {
    hide Exec, Sys.Next, Encode, LiveIn, WellFormed;
    var alloc, resize := Alloc(CODE_MALLOC, 8, 0, 16), Resize(16, 8, 0, 32);
    var s0, steps := Start(), ReallocRace();
    NoStepYet(s0, steps);
    Connects(s0, steps, 0, s0, 1);
    var s1 := Exec(s0, steps[..1]).value;
    Enters(s0, steps, 1, s1, 1, alloc);
    var s2 := Exec(s0, steps[..2]).value;
    Reports(s0, steps, 2, s2, 1, alloc);
    var s4 := Exec(s0, steps[..4]).value;
    Returns(s0, steps, 4, s4, 1, alloc);
    var s5 := Exec(s0, steps[..5]).value;
    Enters(s0, steps, 5, s5, 1, resize);
    s := Exec(s0, steps[..6]).value;
    forall self: nat | self != 1 ensures s.At(self).Idle? {
      assert s.At(self) == s5.At(self) == s4.At(self) == s2.At(self) == s1.At(self) == s0.At(self);
    }
    LiveSnoc(s2.sent, s4.sent[|s2.sent|], 16);
  }

  /** With realloc, which reports after it has acted, the law fails: after this run no hook is at work, the program
      holds an address, and the stream says it is not live. */
  lemma ReallocMisleads()
    ensures var s := Exec(Start(), ReallocRace());
      && s.Some? && (forall self: nat :: s.value.At(self).Idle?)
      && 16 in s.value.held && !LiveIn(s.value.sent, 16) && !Alternates(s.value.sent, 16)
  {
    hide Exec, Sys.Next, Encode, LiveIn, Alternates, WellFormed;
    var alloc, resize := Alloc(CODE_MALLOC, 8, 0, 16), Resize(16, 8, 0, 32);
    var s0, steps := Start(), ReallocRace();
    var s6 := RaceBegins();
    Enters(s0, steps, 6, s6, 2, alloc);
    var s7 := Exec(s0, steps[..7]).value;
    Reports(s0, steps, 7, s7, 2, alloc);
    var s9 := Exec(s0, steps[..9]).value;
    Returns(s0, steps, 9, s9, 2, alloc);
    var s10 := Exec(s0, steps[..10]).value;
    assert s10.At(1) == s9.At(1) == s7.At(1) == s6.At(1);
    Reports(s0, steps, 10, s10, 1, resize);
    var s12 := Exec(s0, steps[..12]).value;
    Returns(s0, steps, 12, s12, 1, resize);
    assert steps[..13] == steps;
    var s := Exec(s0, steps).value;
    forall self: nat ensures s.At(self).Idle? {
      if self == 2 {
        assert s.At(2) == s12.At(2) == s10.At(2);
      } else if self != 1 {
        assert s.At(self) == s12.At(self) == s10.At(self) == s9.At(self) == s7.At(self) == s6.At(self);
      }
    }
    LiveSnoc(s7.sent, s9.sent[|s7.sent|], 16);
    LiveSnoc(s10.sent, s12.sent[|s10.sent|], 16);
  }
}
