/** Exactly when the search by number finds, for every operation still to be freed, the thread entry that it was charged
    to. */
module AttributionExact {
  import opened Sequences
  import opened Lists
  import opened Messages
  import opened Operations
  import opened Threads
  import opened Ledger
  import opened Charging
  import opened Attribution

  /** In the ledger after some calls, the search for each operation that is not freed leads to the entry it was charged
      to. */
  ghost predicate AllFound(l: Ledger, calls: seq<HandlerCall>)
    requires l.Valid()
  {
    var s, homes := Run(l, calls), Homes(l, calls);
    && |homes| == |s.book.ops|
    && forall k :: 0 <= k < |homes| && Holding(s.book.ops[k]) ==>
         s.roster.Owner(s.book.ops[k].callerThreadId, s.book.ops[k].msgNum) == Some(homes[k])
  }

  /** An allocation, by any thread, whose number is past all those before. */
  predicate Further(calls: seq<HandlerCall>, x: HandlerCall) {
    && x.OnMemoryOperation? && x.allocPtr != 0 && x.freePtr == 0 && 0 < x.header.msgNum
    && forall i :: 0 <= i < |calls| && About(calls[i]).Some? ==> About(calls[i]).value.1 < x.header.msgNum
  }

  /** At every moment of a session, and whichever thread allocates next. */
  ghost predicate AlwaysFound(l: Ledger, calls: seq<HandlerCall>)
    requires l.Valid()
  {
    && (forall n: nat :: n <= |calls| ==> AllFound(l, calls[..n]))
    && (forall n: nat, x: HandlerCall :: n <= |calls| && Further(calls[..n], x) ==> AllFound(l, calls[..n] + [x]))
  }

  // ---- If none is passed ----

  lemma {:induction false} NonePassedPrefix(l: Ledger, calls: seq<HandlerCall>, n: nat)
    requires l.Valid() && n <= |calls| && NonePassed(l, calls)
    ensures NonePassed(l, calls[..n])
  {
    hide Run, Follows, Clears;
    if n < |calls| {
      NonePassedPrefix(l, calls[..|calls| - 1], n);
      assert calls[..|calls| - 1][..n] == calls[..n];
    } else {
      assert calls[..n] == calls;
    }
  }

  lemma {:induction false} MarksBelow(calls: seq<HandlerCall>, bound: nat)
    requires 0 < bound && forall i :: 0 <= i < |calls| && About(calls[i]).Some? ==> About(calls[i]).value.1 < bound
    ensures forall id: nat :: MarksOf(calls).alloc(id) < bound && MarksOf(calls).creation(id) < bound
    ensures forall id: nat, num: nat :: num in MarksOf(calls).created(id) ==> num < bound
  {
    if calls == [] {
    } else {
      var front := calls[..|calls| - 1];
      assert forall i :: 0 <= i < |front| ==> front[i] == calls[i];
      MarksBelow(front, bound);
    }
  }

  lemma FurtherSession(l: Ledger, calls: seq<HandlerCall>, x: HandlerCall)
    requires l.Valid() && AllInTurn(calls) && NonePassed(l, calls) && Further(calls, x)
    ensures AllInTurn(calls + [x]) && NonePassed(l, calls + [x])
  {
    hide Run;
    MarksBelow(calls, x.header.msgNum);
    assert (calls + [x])[..|calls|] == calls;
  }

  lemma SessionFound(l: Ledger, calls: seq<HandlerCall>)
    requires FreshSession(l) && AllInTurn(calls) && NonePassed(l, calls)
    ensures AllFound(l, calls)
  {
    hide Run, Homes, AllInTurn, NonePassed, MarksOf, Roster.Owner, Settled, Balanced, Alone;
    SessionAccounted(l, calls);
    var s, homes := Run(l, calls), Homes(l, calls);
    AccountedValid(s.roster, |l.roster.entries|, MarksOf(calls), s.book.ops, homes);
    forall k | 0 <= k < |homes| && Holding(s.book.ops[k])
      ensures s.roster.Owner(s.book.ops[k].callerThreadId, s.book.ops[k].msgNum) == Some(homes[k])
    {
      OwnerOf(s.roster, |l.roster.entries|, MarksOf(calls), s.book.ops, homes, k);
    }
  }

  // ---- If one is passed ----

  /** The only entry alive of an id is found first, if its window holds the number. */
  lemma OwnerAlive(r: Roster, id: nat, num: nat, j: nat)
    requires r.Valid() && j in r.alive && HasWindow(id, num)(r.entries[j])
    requires forall p :: p in r.alive && r.entries[p].threadId == id ==> p == j
    ensures r.Owner(id, num) == Some(j)
  {
    var a := First(View(r.entries, r.alive), HasWindow(id, num));
    var k :| 0 <= k < |r.alive| && r.alive[k] == j;
    assert View(r.entries, r.alive)[k] == r.entries[j];
    assert r.alive[a.value] in r.alive;
  }

  function Probe(id: nat, num: nat): (x: HandlerCall) {
    OnMemoryOperation(Header(0, 0, id, num, CODE_MALLOC), 1, 1, 1, 0)
  }

  lemma ProbeHandled(l: Ledger, id: nat, num: nat)
    requires l.Valid()
    ensures var l' := l.Handle(Probe(id, num));
      && l'.roster == l.roster.AddAlloc(id, num, 1, Timeval(0, 0))
      && |l'.book.ops| == |l.book.ops| + 1 && l'.book.ops[..|l.book.ops|] == l.book.ops
  {
    hide Roster.AddAlloc, Stats.Record;
  }

  /** A creation opens an entry that is alone alive of its id, with a window that holds its own number. */
  lemma CreationAlone(r: Roster, base: nat, id: nat, num: nat, time: Timeval)
    requires r.Valid() && InSession(r, base)
    requires forall i, j :: base <= i < j < |r.entries| && r.entries[i].threadId == r.entries[j].threadId ==>
      i !in r.alive
    ensures var r', j := r.Created(id, num, time), |r.entries|;
      && |r'.entries| == j + 1 && j in r'.alive && r'.entries[j].threadId == id
      && r'.entries[j].creationMsgNum == num && r'.entries[j].lastAllocMsgNum == num
      && (forall p :: p in r'.alive && r'.entries[p].threadId == id ==> p == j)
  {
    hide Roster.Retire;
    RetireParts(r, base, id, time);
    var q, r' := r.Retire(id, time), r.Created(id, num, time);
    assert r'.alive[|q.alive|] == |r.entries|;
    assert forall p :: p in r'.alive ==> p in q.alive || p == |r.entries|;
  }

  lemma AloneGrows(r: Roster, id: nat, j: nat, num: nat, time: Timeval)
    requires r.Valid() && j in r.alive && r.entries[j].threadId == id && r.entries[j].creationMsgNum != 0
    requires forall p :: p in r.alive && r.entries[p].threadId == id ==> p == j
    ensures var r' := r.AddAlloc(id, num, 1, time);
      && r'.alive == r.alive && |r'.entries| == |r.entries| && r'.entries[j].threadId == id
      && r'.entries[j].creationMsgNum == r.entries[j].creationMsgNum && r'.entries[j].lastAllocMsgNum == num
      && (forall p :: 0 <= p < |r.entries| ==> r'.entries[p].threadId == r.entries[p].threadId)
  {
    var k :| 0 <= k < |r.alive| && r.alive[k] == j;
    assert View(r.entries, r.alive)[k] == r.entries[j];
    assert r.AliveAt(id).Some?;
    assert r.alive[r.AliveAt(id).value] in r.alive;
  }

  lemma CreationHandled(l: Ledger, call: HandlerCall)
    requires l.Valid() && call.OnThreadOperation? && About(call).Some?
    ensures var l', h := l.Handle(call), call.header;
      l'.roster == l.roster.Created(call.threadId, h.msgNum, Timeval(h.timeSec, h.timeUsec)) && l'.book == l.book
  {
    hide Roster.Created;
  }

  /** A creation whose number is not past that of an operation of its id still to be freed: when its thread allocates,
      its window takes that one in. */
  lemma LateCreationTakes(l: Ledger, front: seq<HandlerCall>, call: HandlerCall, n: nat)
    requires FreshSession(l) && AllInTurn(front) && NonePassed(l, front) && InTurn(MarksOf(front), call)
    requires !Clears(Run(l, front).book.ops, call) && MarksOf(front).alloc(call.threadId) < n
    ensures !AllFound(l, front + [call] + [Probe(call.threadId, n)])
  {
    hide Run, Homes, AllInTurn, NonePassed, MarksOf, Roster.Owner, Ledger.Handle, Ledger.Valid, Roster.AddAlloc,
      Roster.Created, Home, Manned, WindowFits, AllHomed;
    var s, base, marks, homes := Run(l, front), |l.roster.entries|, MarksOf(front), Homes(l, front);
    var id, c, time := call.threadId, call.header.msgNum, Timeval(call.header.timeSec, call.header.timeUsec);
    NonePassedFollow(l, front);
    SessionSettled(l, front);
    var k :| 0 <= k < |s.book.ops| && Holding(s.book.ops[k]) && s.book.ops[k].callerThreadId == id
      && c <= s.book.ops[k].msgNum;
    HomeInside(s.roster, base, marks, s.book.ops, homes, k);
    var s1 := s.Handle(call);
    RunSnoc(l, front, call);
    RunSnoc(l, front + [call], Probe(id, n));
    CreationHandled(s, call);
    CreationAlone(s.roster, base, id, c, time);
    var j := |s.roster.entries|;
    ProbeHandled(s1, id, n);
    AloneGrows(s1.roster, id, j, n, Timeval(0, 0));
    var s2 := s1.Handle(Probe(id, n));
    assert s2.book.ops[k] == s2.book.ops[..|s1.book.ops|][k] == s.book.ops[k];
    OwnerAlive(s2.roster, id, s.book.ops[k].msgNum, j);
    assert Homes(l, front + [call] + [Probe(id, n)])[k] == homes[k];
  }

  lemma HomeInside(r: Roster, base: nat, marks: Marks, ops: seq<Operation>, homes: seq<nat>, k: nat)
    requires AllHomed(r, base, marks, ops, homes) && k < |ops| && ops[k].allocPtr != 0
    ensures |homes| == |ops| && homes[k] < |r.entries| && ops[k].msgNum <= marks.alloc(ops[k].callerThreadId)
  {
    assert Homed(r, base, marks, ops[k], homes[k]);
  }

  /** A number past all those that calls are about. */
  function Past(calls: seq<HandlerCall>): (n: nat)
    ensures 0 < n
    ensures forall i :: 0 <= i < |calls| && About(calls[i]).Some? ==> About(calls[i]).value.1 < n
  {
    if calls == [] then 1
    else
      var front, about := calls[..|calls| - 1], About(calls[|calls| - 1]);
      assert forall i :: 0 <= i < |front| ==> front[i] == calls[i];
      if about.Some? && Past(front) <= about.value.1 then about.value.1 + 1 else Past(front)
  }

  /** The first call that passes another, or is passed. */
  lemma {:induction false} FirstPassed(l: Ledger, calls: seq<HandlerCall>) returns (n: nat)
    requires l.Valid() && AllInTurn(calls) && !NonePassed(l, calls)
    ensures n < |calls| && AllInTurn(calls[..n]) && NonePassed(l, calls[..n]) && InTurn(MarksOf(calls[..n]), calls[n])
    ensures !Follows(MarksOf(calls[..n]), calls[n]) || !Clears(Run(l, calls[..n]).book.ops, calls[n])
  {
    hide InTurn, Follows, Clears, MarksOf, Run;
    var front := calls[..|calls| - 1];
    if NonePassed(l, front) {
      n := |calls| - 1;
    } else {
      n := FirstPassed(l, front);
      assert front[..n] == calls[..n];
    }
  }

  lemma PassedLost(l: Ledger, calls: seq<HandlerCall>)
    requires FreshSession(l) && AllInTurn(calls) && !NonePassed(l, calls)
    ensures !AlwaysFound(l, calls)
  {
    hide InTurn, Follows, Clears, AllFound, Run, AllInTurn, NonePassed, AllFollow, MarksOf;
    var n := FirstPassed(l, calls);
    var front, call := calls[..n], calls[n];
    assert calls[..n + 1] == front + [call];
    if !Follows(MarksOf(front), call) {
      NonePassedFollow(l, front);
      LateAllocationLost(l, front, call);
      LostNotFound(l, front + [call]);
    } else {
      var past := Past(front + [call]);
      MarksBelow(front, past) by { assert forall i :: 0 <= i < |front| ==> front[i] == (front + [call])[i]; }
      CreationOf(Run(l, front).book.ops, call);
      LateCreationTakes(l, front, call, past);
      assert Further(calls[..n + 1], Probe(call.threadId, past));
    }
  }

  lemma CreationOf(ops: seq<Operation>, call: HandlerCall)
    requires !Clears(ops, call)
    ensures call.OnThreadOperation?
  {
  }

  lemma LostNotFound(l: Ledger, calls: seq<HandlerCall>)
    requires l.Valid() && !NoneLost(Run(l, calls))
    ensures !AllFound(l, calls)
  {
    hide Run, Homes, Roster.Owner;
  }

  /** Attribution, exactly: at every moment, and whichever thread allocates next, the search by number leads each
      operation still to be freed to the entry it was charged to, if and only if no allocation has a number before that
      of the creation that opened its entry, and no creation one before that of an operation of its thread id that is
      still to be freed when it comes. */
  lemma AttributionExactly(l: Ledger, calls: seq<HandlerCall>)
    requires FreshSession(l) && AllInTurn(calls)
    ensures AlwaysFound(l, calls) <==> NonePassed(l, calls)
  {
    hide AllInTurn, NonePassed, AllFound;
    if NonePassed(l, calls) {
      forall n: nat | n <= |calls| ensures AllFound(l, calls[..n]) {
        Prefixes(calls, n);
        NonePassedPrefix(l, calls, n);
        SessionFound(l, calls[..n]);
      }
      forall n: nat, x: HandlerCall | n <= |calls| && Further(calls[..n], x) ensures AllFound(l, calls[..n] + [x]) {
        Prefixes(calls, n);
        NonePassedPrefix(l, calls, n);
        FurtherSession(l, calls[..n], x);
        SessionFound(l, calls[..n] + [x]);
      }
    } else {
      PassedLost(l, calls);
    }
  }
}
