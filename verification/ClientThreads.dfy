/** Which thread entry the server charges when the client's threads interleave. */
module ClientThreads {
  import opened Packed
  import opened Sequences
  import opened Words
  import opened Lists
  import opened Messages
  import opened Framing
  import opened Chunking
  import opened Operations
  import opened Threads
  import opened Ledger
  import opened Charging
  import opened Attribution
  import opened AttributionExact
  import opened Streams
  import opened Holdings
  import opened Interleaving
  import opened ClientStream
  import opened Runs
  import opened ClientHeap
  import opened Pipeline

  predicate IsAllocation(m: Message, id: nat) { m.MemoryMessage? && m.allocPtr != 0 && m.header.threadId == id }

  predicate IsCreation(m: Message, id: nat) {
    m.ThreadMessage? && m.header.msgCode == CODE_PTHREAD_CREATE && m.threadId == id
  }

  function CallsIn(ms: seq<Message>): (calls: seq<HandlerCall>) { Flatten(Steps(ms)) }

  lemma CallsSnoc(ms: seq<Message>, m: Message)
    ensures CallsIn(ms + [m]) == CallsIn(ms) + CallsOf(m)
  {
    assert Steps(ms + [m]) == Steps(ms) + [CallsOf(m)];
    FlattenSnoc(Steps(ms), CallsOf(m));
  }

  /** One message more, as the marks and the conditions on calls see it. */
  lemma MarksSnoc(calls: seq<HandlerCall>, m: Message)
    requires Ordinary(m)
    ensures forall id: nat :: MarksOf(calls + CallsOf(m)).alloc(id) == if IsAllocation(m, id) then m.header.msgNum
      else MarksOf(calls).alloc(id)
    ensures forall id: nat :: MarksOf(calls + CallsOf(m)).creation(id) == if IsCreation(m, id) then m.header.msgNum
      else MarksOf(calls).creation(id)
    ensures forall id: nat, n: nat :: n in MarksOf(calls + CallsOf(m)).created(id) <==>
      n in MarksOf(calls).created(id) || (IsCreation(m, id) && n == m.header.msgNum)
    ensures AllInTurn(calls + CallsOf(m)) <==> AllInTurn(calls) && TurnFits(MarksOf(calls), m)
    ensures AllFollow(calls + CallsOf(m)) <==> AllFollow(calls) && FollowFits(MarksOf(calls), m)
  {
    if CallsOf(m) == [] {
      assert calls + CallsOf(m) == calls;
    } else {
      assert (calls + CallsOf(m))[..|calls|] == calls;
    }
  }

  predicate TurnFits(marks: Marks, m: Message) {
    && (IsAllocation(m, m.header.threadId) ==>
         marks.alloc(m.header.threadId) < m.header.msgNum && m.header.msgNum !in marks.created(m.header.threadId))
    && (m.ThreadMessage? && IsCreation(m, m.threadId) ==> 0 < m.header.msgNum)
  }

  predicate FollowFits(marks: Marks, m: Message) {
    IsAllocation(m, m.header.threadId) ==> marks.creation(m.header.threadId) < m.header.msgNum
  }

  // ---- The marks and the messages ----

  ghost predicate AllNumbered(ms: seq<Message>) {
    && (forall i :: 0 <= i < |ms| ==> 0 < ms[i].header.msgNum)
    && (forall i, j :: 0 <= i < j < |ms| ==> ms[i].header.msgNum != ms[j].header.msgNum)
  }

  /** The last mark of an allocation is the number of one, and no allocation has a greater number. */
  ghost predicate AllocKnown(ms: seq<Message>, marks: Marks, id: nat) {
    && (marks.alloc(id) == 0 || exists i ::
      0 <= i < |ms| && IsAllocation(ms[i], id) && ms[i].header.msgNum == marks.alloc(id))
    && (forall i :: 0 <= i < |ms| && IsAllocation(ms[i], id) ==> ms[i].header.msgNum <= marks.alloc(id))
  }

  ghost predicate IsLastCreation(ms: seq<Message>, i: nat, id: nat) {
    i < |ms| && IsCreation(ms[i], id) && forall k :: i < k < |ms| ==> !IsCreation(ms[k], id)
  }

  ghost predicate CreationKnown(ms: seq<Message>, marks: Marks, id: nat) {
    && (marks.creation(id) == 0 ==> forall i :: 0 <= i < |ms| ==> !IsCreation(ms[i], id))
    && (marks.creation(id) != 0 ==> exists i: nat ::
      IsLastCreation(ms, i, id) && ms[i].header.msgNum == marks.creation(id))
    && (forall n: nat :: n in marks.created(id) ==> exists i ::
      0 <= i < |ms| && IsCreation(ms[i], id) && ms[i].header.msgNum == n)
  }

  lemma CreationKnownSnoc(ms: seq<Message>, m: Message, now: Marks, later: Marks, id: nat)
    requires CreationKnown(ms, now, id) && 0 < m.header.msgNum
    requires later.creation(id) == if IsCreation(m, id) then m.header.msgNum else now.creation(id)
    requires forall n: nat :: n in later.created(id) <==>
      n in now.created(id) || (IsCreation(m, id) && n == m.header.msgNum)
    ensures CreationKnown(ms + [m], later, id)
  {
    var all := ms + [m];
    assert forall i :: 0 <= i < |ms| ==> all[i] == ms[i];
    if IsCreation(m, id) {
      assert IsLastCreation(all, |ms|, id);
    } else if now.creation(id) != 0 {
      var i: nat :| IsLastCreation(ms, i, id) && ms[i].header.msgNum == now.creation(id);
      assert IsLastCreation(all, i, id);
    }
    forall n: nat | n in later.created(id)
      ensures exists i :: 0 <= i < |all| && IsCreation(all[i], id) && all[i].header.msgNum == n {
      if n in now.created(id) {
        var i :| 0 <= i < |ms| && IsCreation(ms[i], id) && ms[i].header.msgNum == n;
        assert IsCreation(all[i], id);
      } else {
        assert IsCreation(all[|ms|], id);
      }
    }
  }

  lemma AllocKnownSnoc(ms: seq<Message>, m: Message, now: Marks, later: Marks, id: nat)
    requires AllocKnown(ms, now, id) && (IsAllocation(m, id) ==> now.alloc(id) < m.header.msgNum)
    requires later.alloc(id) == if IsAllocation(m, id) then m.header.msgNum else now.alloc(id)
    ensures AllocKnown(ms + [m], later, id)
  {
    var all := ms + [m];
    assert forall i :: 0 <= i < |ms| ==> all[i] == ms[i];
    if IsAllocation(m, id) {
      assert IsAllocation(all[|ms|], id);
    } else if now.alloc(id) != 0 {
      var i :| 0 <= i < |ms| && IsAllocation(ms[i], id) && ms[i].header.msgNum == now.alloc(id);
      assert IsAllocation(all[i], id);
    }
  }

  /** Every client's messages are in turn: its threads send in order, and its numbers are all different. */
  lemma {:induction false} MessagesInTurn(ms: seq<Message>)
    requires AllOrdinary(ms) && AllNumbered(ms) && ThreadsInOrder(ms, 0)
    ensures AllInTurn(CallsIn(ms))
    ensures forall id: nat :: AllocKnown(ms, MarksOf(CallsIn(ms)), id) && CreationKnown(ms, MarksOf(CallsIn(ms)), id)
  {
    if ms == [] {
      NothingKnown();
    } else {
      hide CallsIn, AllInTurn, MarksOf, Ordinary, AllocKnown, CreationKnown;
      var front, last := ms[..|ms| - 1], ms[|ms| - 1];
      assert ms == front + [last];
      assert forall i :: 0 <= i < |front| ==> front[i] == ms[i];
      MessagesInTurn(front);
      TurnStep(front, last);
    }
  }

  lemma TurnStep(front: seq<Message>, last: Message)
    requires Ordinary(last) && AllNumbered(front + [last]) && ThreadsInOrder(front + [last], 0)
    requires AllInTurn(CallsIn(front)) && forall id: nat ::
      AllocKnown(front, MarksOf(CallsIn(front)), id) && CreationKnown(front, MarksOf(CallsIn(front)), id)
    ensures var ms := front + [last];
      AllInTurn(CallsIn(ms)) && forall id: nat ::
        AllocKnown(ms, MarksOf(CallsIn(ms)), id) && CreationKnown(ms, MarksOf(CallsIn(ms)), id)
  {
    hide CallsIn, AllInTurn, AllFollow, MarksOf, Ordinary, IsAllocation, IsCreation, AllocKnown, CreationKnown,
      TurnFits,
      ThreadsInOrder;
    CallsSnoc(front, last);
    var now, later := MarksOf(CallsIn(front)), MarksOf(CallsIn(front + [last]));
    MarksSnoc(CallsIn(front), last);
    LastFits(front, last, now);
    assert (front + [last])[|front|] == last;
    hide AllNumbered;
    forall id: nat ensures AllocKnown(front + [last], later, id) && CreationKnown(front + [last], later, id) {
      KnownSnoc(front, last, now, later, id);
    }
  }

  lemma KnownSnoc(ms: seq<Message>, m: Message, now: Marks, later: Marks, id: nat)
    requires AllocKnown(ms, now, id) && CreationKnown(ms, now, id) && TurnFits(now, m) && 0 < m.header.msgNum
    requires later.alloc(id) == if IsAllocation(m, id) then m.header.msgNum else now.alloc(id)
    requires later.creation(id) == if IsCreation(m, id) then m.header.msgNum else now.creation(id)
    requires forall n: nat :: n in later.created(id) <==>
      n in now.created(id) || (IsCreation(m, id) && n == m.header.msgNum)
    ensures AllocKnown(ms + [m], later, id) && CreationKnown(ms + [m], later, id)
  {
    hide AllocKnown, CreationKnown, IsAllocation, IsCreation, TurnFits;
    if IsAllocation(m, id) { LastAlloc(m, id, now); }
    AllocKnownSnoc(ms, m, now, later, id);
    CreationKnownSnoc(ms, m, now, later, id);
  }

  lemma NothingKnown()
    ensures AllInTurn(CallsIn([])) && forall id: nat ::
      AllocKnown([], MarksOf(CallsIn([])), id) && CreationKnown([], MarksOf(CallsIn([])), id)
  {
  }

  lemma LastAlloc(m: Message, id: nat, marks: Marks)
    requires IsAllocation(m, id) && TurnFits(marks, m)
    ensures marks.alloc(id) < m.header.msgNum
  {
  }

  lemma LastFits(front: seq<Message>, last: Message, marks: Marks)
    requires AllNumbered(front + [last]) && ThreadsInOrder(front + [last], 0)
    requires forall id: nat :: AllocKnown(front, marks, id) && CreationKnown(front, marks, id)
    ensures TurnFits(marks, last)
  {
    var ms, id := front + [last], last.header.threadId;
    assert ms[|front|] == last && forall i :: 0 <= i < |front| ==> ms[i] == front[i];
    assert AllocKnown(front, marks, id) && CreationKnown(front, marks, id);
    if marks.alloc(id) != 0 {
      var i :| 0 <= i < |front| && IsAllocation(front[i], id) && front[i].header.msgNum == marks.alloc(id);
      assert ms[i].header.threadId == id;
    }
    forall n: nat | n in marks.created(id) ensures n != last.header.msgNum {
      var i :| 0 <= i < |front| && IsCreation(front[i], id) && front[i].header.msgNum == n;
      assert ms[i].header.msgNum != ms[|front|].header.msgNum;
    }
  }

  // ---- Passing, message by message ----

  predicate NoCreationBetween(ms: seq<Message>, i: nat, j: nat, id: nat)
    requires j < |ms|
  {
    forall k :: i < k < j ==> !IsCreation(ms[k], id)
  }

  /** The creation at `i` that opens the entry of an allocation at `j` has the smaller number. */
  ghost predicate OpensBefore(ms: seq<Message>, i: nat, j: nat)
    requires i < |ms| && j < |ms|
  {
    forall id: nat :: IsCreation(ms[i], id) && IsAllocation(ms[j], id) && NoCreationBetween(ms, i, j, id) ==>
      ms[i].header.msgNum < ms[j].header.msgNum
  }

  /** No allocation has a number before that of the creation that opens its entry. */
  ghost predicate NoneEarly(ms: seq<Message>) {
    forall i, j :: 0 <= i < j < |ms| ==> OpensBefore(ms, i, j)
  }

  /** A creation at `j` has a number past those of the allocations of its id that are still unfreed there. */
  ghost predicate PassesNoAllocation(ms: seq<Message>, j: nat)
    requires j < |ms|
  {
    var held := Unfreed(ms[..j]);
    forall q :: 0 <= q < |held| && IsCreation(ms[j], held[q].header.threadId) ==>
      held[q].header.msgNum < ms[j].header.msgNum
  }

  /** No allocation passes the creation that opens its entry, nor, while unfreed, one that follows. Creations may pass
      each other. */
  ghost predicate NoCreationPassed(ms: seq<Message>) {
    NoneEarly(ms) && forall j :: 0 <= j < |ms| ==> PassesNoAllocation(ms, j)
  }

  lemma EarlySnoc(ms: seq<Message>, m: Message, marks: Marks)
    requires 0 < m.header.msgNum && forall id: nat :: CreationKnown(ms, marks, id)
    ensures NoneEarly(ms + [m]) <==> NoneEarly(ms) && FollowFits(marks, m)
  {
    var all, n := ms + [m], |ms|;
    assert forall i :: 0 <= i < |ms| ==> all[i] == ms[i];
    if NoneEarly(all) {
      forall i, j | 0 <= i < j < |ms| ensures OpensBefore(ms, i, j) {
        assert OpensBefore(all, i, j);
      }
      FitsFromPairs(ms, m, marks);
    }
    if NoneEarly(ms) && FollowFits(marks, m) {
      forall i, j | 0 <= i < j < |all| ensures OpensBefore(all, i, j) {
        if j < n {
          assert OpensBefore(ms, i, j);
        } else {
          PairsFromFits(ms, m, marks, i);
        }
      }
    }
  }

  lemma FitsFromPairs(ms: seq<Message>, m: Message, marks: Marks)
    requires 0 < m.header.msgNum && NoneEarly(ms + [m]) && forall id: nat :: CreationKnown(ms, marks, id)
    ensures FollowFits(marks, m)
  {
    var all, n, id := ms + [m], |ms|, m.header.threadId;
    assert forall i :: 0 <= i < |ms| ==> all[i] == ms[i];
    assert CreationKnown(ms, marks, id);
    if IsAllocation(m, id) && marks.creation(id) != 0 {
      var i: nat :| IsLastCreation(ms, i, id) && ms[i].header.msgNum == marks.creation(id);
      assert OpensBefore(all, i, n);
      assert IsCreation(all[i], id) && IsAllocation(all[n], id);
    }
  }

  lemma PairsFromFits(ms: seq<Message>, m: Message, marks: Marks, i: nat)
    requires i < |ms| && FollowFits(marks, m) && forall id: nat :: CreationKnown(ms, marks, id)
    ensures OpensBefore(ms + [m], i, |ms|)
  {
    var all, n := ms + [m], |ms|;
    assert forall k :: 0 <= k < |ms| ==> all[k] == ms[k];
    forall id: nat | IsCreation(all[i], id) && IsAllocation(m, id) && NoCreationBetween(all, i, n, id)
      ensures all[i].header.msgNum < m.header.msgNum
    {
      assert CreationKnown(ms, marks, id);
      var j: nat :| IsLastCreation(ms, j, id) && ms[j].header.msgNum == marks.creation(id);
      assert IsCreation(all[j], id) && all[i] == ms[i];
      assert i == j;
    }
  }

  /** The condition for the fallback, pair by pair. */
  lemma {:induction false} FollowByPairs(ms: seq<Message>)
    requires AllOrdinary(ms) && AllNumbered(ms) && ThreadsInOrder(ms, 0)
    ensures AllFollow(CallsIn(ms)) <==> NoneEarly(ms)
  {
    if ms == [] {
    } else {
      hide CallsIn, AllInTurn, AllFollow, MarksOf, Ordinary, NoneEarly, FollowFits, TurnFits, AllocKnown, CreationKnown;
      var front, last := ms[..|ms| - 1], ms[|ms| - 1];
      assert ms == front + [last];
      assert forall i :: 0 <= i < |front| ==> front[i] == ms[i];
      FollowByPairs(front);
      MessagesInTurn(front);
      CallsSnoc(front, last);
      MarksSnoc(CallsIn(front), last);
      EarlySnoc(front, last, MarksOf(CallsIn(front)));
    }
  }

  lemma PassedSnoc(l: Ledger, calls: seq<HandlerCall>, m: Message)
    requires l.Valid() && Ordinary(m)
    ensures NonePassed(l, calls + CallsOf(m)) <==>
      NonePassed(l, calls) && FollowFits(MarksOf(calls), m) && ClearFits(Run(l, calls).book.ops, m)
  {
    hide MarksOf, Run, PassesNone;
    if CallsOf(m) == [] {
      assert calls + CallsOf(m) == calls;
    } else {
      assert (calls + CallsOf(m))[..|calls|] == calls;
    }
  }

  ghost predicate ClearFits(ops: seq<Operation>, m: Message) {
    m.ThreadMessage? && IsCreation(m, m.threadId) ==> PassesNone(ops, m.threadId, m.header.msgNum)
  }

  lemma PassesSnoc(ms: seq<Message>, m: Message)
    ensures (forall j :: 0 <= j < |ms + [m]| ==> PassesNoAllocation(ms + [m], j)) <==>
      (forall j :: 0 <= j < |ms| ==> PassesNoAllocation(ms, j)) && PassesNoAllocation(ms + [m], |ms|)
  {
    var all := ms + [m];
    forall j | 0 <= j < |ms| ensures PassesNoAllocation(all, j) == PassesNoAllocation(ms, j) {
      assert all[..j] == ms[..j] && all[j] == ms[j];
    }
  }

  lemma LastClears(l: Ledger, ms: seq<Message>, m: Message)
    requires l.Valid() && l.book == NoBook() && AllOrdinary(ms)
    ensures ClearFits(Feed(l, ms).book.ops, m) <==> PassesNoAllocation(ms + [m], |ms|)
  {
    hide Feed, Ordinary, Unfreed, Shows;
    assert (ms + [m])[..|ms|] == ms && (ms + [m])[|ms|] == m;
    LedgerHolds(l, ms);
    if m.ThreadMessage? { PassesNoneHeld(Feed(l, ms).book.ops, Unfreed(ms), m.threadId, m.header.msgNum); }
  }

  /** The condition for attribution, message by message. */
  lemma {:induction false} NonePassedByMessages(l: Ledger, ms: seq<Message>)
    requires l.Valid() && l.book == NoBook() && AllOrdinary(ms) && AllNumbered(ms) && ThreadsInOrder(ms, 0)
    ensures NonePassed(l, CallsIn(ms)) <==> NoCreationPassed(ms)
  {
    if ms == [] {
    } else {
      hide CallsIn, AllInTurn, NonePassed, MarksOf, Ordinary, NoneEarly, FollowFits, TurnFits, AllocKnown,
        CreationKnown,
        PassesNoAllocation, ClearFits, Run;
      var front, last := ms[..|ms| - 1], ms[|ms| - 1];
      assert ms == front + [last];
      assert forall i :: 0 <= i < |front| ==> front[i] == ms[i];
      NonePassedByMessages(l, front);
      MessagesInTurn(front);
      CallsSnoc(front, last);
      PassedSnoc(l, CallsIn(front), last);
      EarlySnoc(front, last, MarksOf(CallsIn(front)));
      PassesSnoc(front, last);
      LastClears(l, front, last);
      FeedRuns(l, front);
    }
  }

  lemma FeedRuns(l: Ledger, ms: seq<Message>)
    requires l.Valid()
    ensures Feed(l, ms) == Run(l, CallsIn(ms))
  {
  }

  // ---- All interleavings ----

  /** What the server is told after the opening. */
  function ToldAfterOpening(s: Sys): (calls: seq<HandlerCall>)
    requires Delivered(s.sent) != []
  {
    CallsIn(Delivered(s.sent)[1..])
  }

  /** Behind the opening, what is delivered is ordinary, has different numbers, and is in order by thread. */
  lemma ToldInTurn(l: Ledger, steps: seq<Step>)
    requires l.Valid() && l.book == NoBook() && Exec(Start(), steps).Some? && Exec(Start(), steps).value.link.init
    ensures var s := Exec(Start(), steps).value;
      && Delivered(s.sent) != [] && AllInTurn(ToldAfterOpening(s))
      && (AllFollow(ToldAfterOpening(s)) <==> NoneEarly(s.sent))
      && (NonePassed(l, ToldAfterOpening(s)) <==> NoCreationPassed(s.sent))
  {
    hide Exec, Start, Sane, TracesKept, Linked, CallsIn, AllInTurn, AllFollow, NonePassed, Ordinary, WellFormed,
      EncodeAll, NoCreationPassed, NoneEarly;
    var s := Exec(Start(), steps).value;
    RunKept(steps);
    SentOrdinary(steps);
    StreamIsWhole(steps);
    ThreadOrder(steps);
    DeliveredFirst(s.sent);
    var rest := Delivered(s.sent)[1..];
    assert forall i :: 0 <= i < |rest| ==> rest[i] == s.sent[i + 1];
    MessagesInTurn(rest);
    FollowByPairs(rest);
    NonePassedByMessages(l, rest);
    EndsPass(s.sent);
  }

  /** The opening, and a backtrace held back at the end, pass nothing. */
  lemma EndsPass(ms: seq<Message>)
    requires AllWellFormed(ms) && ms != [] && IsOpening(ms[0])
    ensures Delivered(ms) != [] && (NoneEarly(Delivered(ms)[1..]) <==> NoneEarly(ms))
    ensures NoCreationPassed(Delivered(ms)[1..]) <==> NoCreationPassed(ms)
  {
    hide WellFormed, OpensBefore, PassesNoAllocation;
    DeliveredFirst(ms);
    var rest := Delivered(ms)[1..];
    assert forall i :: 0 <= i < |rest| ==> rest[i] == ms[i + 1];
    forall i, j | 0 <= i < j < |rest| ensures OpensBefore(rest, i, j) == OpensBefore(ms, i + 1, j + 1) {
      SamePair(rest, ms, i, j);
    }
    forall j | 0 <= j < |rest| ensures PassesNoAllocation(rest, j) == PassesNoAllocation(ms, j + 1) {
      SamePlace(rest, ms, j);
    }
    forall i, j | 0 <= i < j < |ms| && (i == 0 || |Delivered(ms)| <= j) ensures OpensBefore(ms, i, j) {
      EndSilent(ms, i, j);
    }
    forall j | 0 <= j < |ms| && (j == 0 || |Delivered(ms)| <= j) ensures PassesNoAllocation(ms, j) {
      EndPassesNone(ms, j);
    }
    ShiftedPairs(rest, ms, |Delivered(ms)|);
  }

  lemma ShiftedPairs(rest: seq<Message>, ms: seq<Message>, n: nat)
    requires |rest| + 1 == n <= |ms|
    requires forall i, j :: 0 <= i < j < |rest| ==> OpensBefore(rest, i, j) == OpensBefore(ms, i + 1, j + 1)
    requires forall j :: 0 <= j < |rest| ==> PassesNoAllocation(rest, j) == PassesNoAllocation(ms, j + 1)
    requires forall i, j :: 0 <= i < j < |ms| && (i == 0 || n <= j) ==> OpensBefore(ms, i, j)
    requires forall j :: 0 <= j < |ms| && (j == 0 || n <= j) ==> PassesNoAllocation(ms, j)
    ensures NoneEarly(rest) <==> NoneEarly(ms)
    ensures NoCreationPassed(rest) <==> NoCreationPassed(ms)
  {
    hide OpensBefore, PassesNoAllocation;
    if NoneEarly(rest) {
      forall i, j | 0 <= i < j < |ms| ensures OpensBefore(ms, i, j) {
        if 0 < i && j < n { assert OpensBefore(rest, i - 1, j - 1); }
      }
    }
    if NoneEarly(ms) {
      forall i, j | 0 <= i < j < |rest| ensures OpensBefore(rest, i, j) { assert OpensBefore(ms, i + 1, j + 1); }
    }
    if NoCreationPassed(rest) {
      forall j | 0 <= j < |ms| ensures PassesNoAllocation(ms, j) {
        if 0 < j < n { assert PassesNoAllocation(rest, j - 1); }
      }
    }
    if NoCreationPassed(ms) {
      forall j | 0 <= j < |rest| ensures PassesNoAllocation(rest, j) { assert PassesNoAllocation(ms, j + 1); }
    }
  }

  lemma SamePair(rest: seq<Message>, ms: seq<Message>, i: nat, j: nat)
    requires |rest| < |ms| && i < j < |rest| && forall k :: 0 <= k < |rest| ==> rest[k] == ms[k + 1]
    ensures OpensBefore(rest, i, j) == OpensBefore(ms, i + 1, j + 1)
  {
    hide IsAllocation, IsCreation;
    assert rest[i] == ms[i + 1] && rest[j] == ms[j + 1];
    forall id: nat ensures NoCreationBetween(rest, i, j, id) <==> NoCreationBetween(ms, i + 1, j + 1, id) {
      SameBetween(rest, ms, i, j, id);
    }
  }

  lemma SameBetween(rest: seq<Message>, ms: seq<Message>, i: nat, j: nat, id: nat)
    requires |rest| < |ms| && i < j < |rest| && forall k :: 0 <= k < |rest| ==> rest[k] == ms[k + 1]
    ensures NoCreationBetween(rest, i, j, id) <==> NoCreationBetween(ms, i + 1, j + 1, id)
  {
    if NoCreationBetween(rest, i, j, id) {
      forall k | i + 1 < k < j + 1 ensures !IsCreation(ms[k], id) { assert rest[k - 1] == ms[k]; }
    }
    if NoCreationBetween(ms, i + 1, j + 1, id) {
      forall k | i < k < j ensures !IsCreation(rest[k], id) { assert rest[k] == ms[k + 1]; }
    }
  }

  lemma SamePlace(rest: seq<Message>, ms: seq<Message>, j: nat)
    requires ms != [] && IsOpening(ms[0]) && |rest| < |ms| && j < |rest|
    requires forall k :: 0 <= k < |rest| ==> rest[k] == ms[k + 1]
    ensures PassesNoAllocation(rest, j) == PassesNoAllocation(ms, j + 1)
  {
    UnfreedBehind(ms[..j + 1]);
    assert ms[..j + 1][1..] == rest[..j];
  }

  lemma EndSilent(ms: seq<Message>, i: nat, j: nat)
    requires AllWellFormed(ms) && ms != [] && IsOpening(ms[0]) && i < j < |ms| && (i == 0 || |Delivered(ms)| <= j)
    ensures OpensBefore(ms, i, j)
  {
    assert WellFormed(ms[j]);
  }

  lemma EndPassesNone(ms: seq<Message>, j: nat)
    requires AllWellFormed(ms) && ms != [] && IsOpening(ms[0]) && j < |ms| && (j == 0 || |Delivered(ms)| <= j)
    ensures PassesNoAllocation(ms, j)
  {
    assert WellFormed(ms[j]);
  }

  /** The fallback under every interleaving, exactly: on a server that takes no thread to be alive at the opening, at
      every moment each operation still to be freed has some owner by number, if and only if in the stream no allocation
      has a number before that of the creation that opens its entry. */
  lemma ClientFallbackExactly(l: Ledger, steps: seq<Step>)
    requires l.Valid() && l.roster.alive == [] && Exec(Start(), steps).Some? && Exec(Start(), steps).value.link.init
    ensures var s := Exec(Start(), steps).value;
      && Delivered(s.sent) != []
      && ((forall n: nat :: n <= |ToldAfterOpening(s)| ==>
             NoneLost(Run(l.Handle(OnNewConnection), ToldAfterOpening(s)[..n])))
          <==> NoneEarly(s.sent))
  {
    hide Exec, Start, Sys.Next, AllInTurn, AllFollow, NonePassed, NoCreationPassed, NoneEarly, NoneLost, CallsIn;
    FreshAfterOpening(l);
    ToldInTurn(l.Handle(OnNewConnection), steps);
    FallbackExactly(l.Handle(OnNewConnection), ToldAfterOpening(Exec(Start(), steps).value));
  }

  /** Attribution under every interleaving, exactly: on such a server the search by number always leads to the entry
      that was charged, for each operation still to be freed, at every moment and whichever thread allocates next, if
      and only if moreover no creation has a number before that of an allocation of its id that is unfreed when it
      comes. */
  lemma ClientAttributionExactly(l: Ledger, steps: seq<Step>)
    requires l.Valid() && l.roster.alive == [] && Exec(Start(), steps).Some? && Exec(Start(), steps).value.link.init
    ensures var s := Exec(Start(), steps).value;
      && Delivered(s.sent) != []
      && (AlwaysFound(l.Handle(OnNewConnection), ToldAfterOpening(s)) <==> NoCreationPassed(s.sent))
  {
    hide Exec, Start, Sys.Next, AllInTurn, AllFollow, NonePassed, NoCreationPassed, NoneEarly, AlwaysFound, CallsIn;
    FreshAfterOpening(l);
    ToldInTurn(l.Handle(OnNewConnection), steps);
    AttributionExactly(l.Handle(OnNewConnection), ToldAfterOpening(Exec(Start(), steps).value));
  }

  /** End to end: then, when all has been read, each operation not freed is found where it was charged and lies in the
      window of no other entry of the session, and each entry has the size and count of what it holds. */
  lemma ServerAttributes(l: Ledger, steps: seq<Step>, chunks: seq<seq<byte>>)
    requires l.Valid() && l.roster.alive == [] && Exec(Start(), steps).Some? && Exec(Start(), steps).value.link.init
    requires ReadUp(Exec(Start(), steps).value, chunks) && NoCreationPassed(Exec(Start(), steps).value.sent)
    ensures Delivered(Exec(Start(), steps).value.sent) != []
    ensures var s, calls := ServerAfter(l, chunks), ToldAfterOpening(Exec(Start(), steps).value);
      var opened', base := l.Handle(OnNewConnection), |l.roster.entries|;
      && s == Run(opened', calls) && AllFound(opened', calls)
      && AllAlone(s.roster, base, s.book.ops, Homes(opened', calls)) && AllBalanced(s.roster, base, s.book.ops)
  {
    hide Exec, Start, Sane, Numbering, Ordered, TracesKept, Linked, ReadUp, Receive, Run, AllInTurn, AllFollow,
      NonePassed, NoCreationPassed, NoneEarly, AllBalanced, AllAlone, WellFormed, MarksOf, Homes, Settled, EncodeAll,
      AllFound;
    var ms := Exec(Start(), steps).value.sent;
    RunKept(steps);
    StreamIsWhole(steps);
    ReadUpDelivers(steps, chunks);
    DeliveredFirst(ms);
    OpeningClears(l, Delivered(ms));
    FreshAfterOpening(l);
    ToldInTurn(l.Handle(OnNewConnection), steps);
    SessionAccounted(l.Handle(OnNewConnection), ToldAfterOpening(Exec(Start(), steps).value));
    SessionFound(l.Handle(OnNewConnection), ToldAfterOpening(Exec(Start(), steps).value));
  }

  lemma FreshAfterOpening(l: Ledger)
    requires l.Valid() && l.roster.alive == []
    ensures FreshSession(l.Handle(OnNewConnection)) && l.Handle(OnNewConnection).book == NoBook()
    ensures l.Handle(OnNewConnection).roster.entries == l.roster.entries
  {
  }

  // ---- A creation whose message is late ----

  /** Thread 1 creates thread 2, which allocates an address before that is reported, but reports it after; when the
      thread id is used again, a third message creates it anew, and the address is freed. */
  function LateCreation(): (steps: seq<Step>) {
    [Open(1, 3, 0, 0), Enter(1, ThreadCall(CODE_PTHREAD_CREATE, 2, [])), Enter(2, Alloc(CODE_MALLOC, 8, 0, 16)),
      StampReport(2, 0, 0),
     StampReport(1, 0, 0), Send(1), Send(2), Return(2)]
    + [Enter(1, ThreadCall(CODE_PTHREAD_CREATE, 2, [])), StampReport(1, 0, 0), Send(1)]
    + [Enter(1, Release(16)), StampReport(1, 0, 0), Send(1)]
  }

  function LateMessages(): (ms: seq<Message>) {
    [Report(ThreadCall(CODE_PTHREAD_CREATE, 2, []), 0, 0, 1, 3), Report(Alloc(CODE_MALLOC, 8, 0, 16), 0, 0, 2, 2),
     Report(ThreadCall(CODE_PTHREAD_CREATE, 2, []), 0, 0, 1, 4), Report(Release(16), 0, 0, 1, 5)]
  }

  const NO_TIME := Timeval(0, 0)

  /** What the four messages do to the thread entries: the free is charged to the new thread of that id, below zero. */
  lemma LateRoster()
    ensures var r1 := NoRoster().Created(2, 3, NO_TIME);
      var r2 := r1.AddAlloc(2, 2, 8, NO_TIME);
      var r3 := r2.Created(2, 4, NO_TIME);
      var r4 := r3.AddFree(2, 2, 8, NO_TIME);
      && r3.Owner(2, 2).None?
      && |r4.entries| == 2 && r4.entries[0].currentSize == 8 && r4.entries[1].currentSize == M64 - 8
  {
    var r0 := NoRoster();
    var r1 := r0.Created(2, 3, NO_TIME);
    assert r1.alive == [0] && r1.listed == [0] && |r1.entries| == 1;
    assert View(r1.entries, r1.alive)[0].threadId == 2;
    assert r1.AliveAt(2) == Some(0);
    var r2 := r1.AddAlloc(2, 2, 8, NO_TIME);
    assert r2.alive == [0] && r2.listed == [0] && |r2.entries| == 1 && r2.entries[0].currentSize == 8;
    LateRetired(r2);
  }

  lemma LateRetired(r2: Roster)
    requires r2.alive == [0] && r2.listed == [0] && |r2.entries| == 1 && r2.entries[0].threadId == 2
    requires r2.entries[0].creationMsgNum == 3 && r2.entries[0].lastAllocMsgNum == 2 && r2.entries[0].currentSize == 8
    ensures var r3 := r2.Created(2, 4, NO_TIME);
      var r4 := r3.AddFree(2, 2, 8, NO_TIME);
      && r3.Owner(2, 2).None?
      && |r4.entries| == 2 && r4.entries[0].currentSize == 8 && r4.entries[1].currentSize == M64 - 8
  {
    assert View(r2.entries, r2.alive)[0].threadId == 2;
    var q := r2.Retire(2, NO_TIME);
    assert q.alive == [] && q.listed == [0] && |q.entries| == 1;
    var r3 := r2.Created(2, 4, NO_TIME);
    assert r3.alive == [1] && r3.listed == [0, 1] && |r3.entries| == 2;
    assert View(r3.entries, r3.alive)[0] == r3.entries[1];
    assert View(r3.entries, r3.listed)[0] == r3.entries[0] && View(r3.entries, r3.listed)[1] == r3.entries[1];
    assert r3.Owner(2, 2).None?;
    assert r3.AliveAt(2) == Some(0);
  }

  lemma LateLedger(l: Ledger)
    requires l.Valid() && l.book == NoBook() && l.roster == NoRoster()
    ensures Feed(l, LateMessages()[..3]).roster.Owner(2, 2).None?
    ensures var r := Feed(l, LateMessages()).roster;
      |r.entries| == 2 && r.entries[0].currentSize == 8 && r.entries[1].currentSize == M64 - 8
  {
    hide Feed, Run, Ledger.Handle, Roster.Created, Roster.AddAlloc, Roster.AddFree, Roster.Owner, NoRoster, Book.Add,
         Book.Freed, NoBook;
    LateRoster();
    var ms := LateMessages();
    FeedNothing(l);
    assert ms[..0] == [] && ms[..4] == ms;
    FeedOneMore(l, ms, 0);
    CreationHandled(l, CallsOf(ms[0])[0]);
    FeedOneMore(l, ms, 1);
    LateBook(l.book, NewOperation(ms[1].header, 8, 16, 0, 0));
    AllocationHandled(Feed(l, ms[..1]), ms[1].header, 8, 16);
    FeedOneMore(l, ms, 2);
    CreationHandled(Feed(l, ms[..2]), CallsOf(ms[2])[0]);
    FeedOneMore(l, ms, 3);
    FreeHandled(Feed(l, ms[..3]), ms[3].header, 16);
  }

  lemma AllocationHandled(l: Ledger, h: Header, size: nat, ptr: nat)
    requires l.Valid() && ptr != 0 && l.book.Freed(0).None?
    ensures var l' := l.Handle(OnMemoryOperation(h, size, ptr, 0, 0));
      && l'.book == l.book.Add(NewOperation(h, size, ptr, 0, 0))
      && l'.roster == l.roster.AddAlloc(h.threadId, h.msgNum, size, Timeval(h.timeSec, h.timeUsec))
  {
    hide Roster.AddAlloc, Stats.Record, Book.Add, Book.Freed;
  }

  lemma FreeHandled(l: Ledger, h: Header, ptr: nat)
    requires l.Valid() && l.book.Freed(ptr).Some?
    ensures var o := l.book.ops[l.book.Freed(ptr).value];
      l.Handle(OnMemoryOperation(h, 0, 0, 0, ptr)).roster ==
        l.roster.AddFree(o.callerThreadId, o.msgNum, o.allocSize, Timeval(h.timeSec, h.timeUsec))
  {
    hide Roster.AddFree, Stats.Record, Book.Add, Book.Freed;
  }

  lemma FeedOneMore(l: Ledger, ms: seq<Message>, k: nat)
    requires l.Valid() && k < |ms| && |CallsOf(ms[k])| == 1
    ensures Feed(l, ms[..k + 1]) == Feed(l, ms[..k]).Handle(CallsOf(ms[k])[0])
  {
    hide Feed, Run, Ledger.Handle;
    assert ms[..k + 1] == ms[..k] + [ms[k]] && CallsOf(ms[k]) == [CallsOf(ms[k])[0]];
    FeedSnoc(l, ms[..k], ms[k]);
    RunOne(Feed(l, ms[..k]), CallsOf(ms[k])[0]);
  }

  lemma LateBook(b: Book, o: Operation)
    requires b == NoBook() && o.msgCode == CODE_MALLOC && o.allocPtr == 16 && o.freePtr == 0 && !o.freed
    ensures b.Freed(0).None? && b.Add(o).Valid() && b.Add(o).ops == [o] && b.Add(o).Freed(16) == Some(0)
  {
    assert View(b.Add(o).ops, b.Add(o).nonFreed)[0] == o;
  }

  /** The run can happen. */
  lemma LateRun()
    ensures var s := Exec(Start(), LateCreation());
      s.Some? && s.value.link.init && s.value.sent == [Opening(0, 0, 1, 1)] + LateMessages() &&
        WithoutResize(LateCreation())
  {
    hide Exec, Sys.Next, Encode, WellFormed;
    var creation, release := ThreadCall(CODE_PTHREAD_CREATE, 2, []), Release(16);
    var s0, steps := Start(), LateCreation();
    var s8 := LateRunContinues();
    Enters(s0, steps, 8, s8, 1, creation);
    var s9 := Exec(s0, steps[..9]).value;
    Reports(s0, steps, 9, s9, 1, creation);
    var s11 := Exec(s0, steps[..11]).value;
    Enters(s0, steps, 11, s11, 1, release);
    var s12 := Exec(s0, steps[..12]).value;
    Reports(s0, steps, 12, s12, 1, release);
    assert steps[..14] == steps;
    LateOpened();
  }

  lemma LateOpened()
    requires Exec(Start(), LateCreation()).Some? &&
      Exec(Start(), LateCreation()).value.sent == [Opening(0, 0, 1, 1)] + LateMessages()
    ensures Exec(Start(), LateCreation()).value.link.init
  {
    hide Exec, Sane, Numbering, Ordered, OpeningFirst, TracesKept, Linked;
    var s := Exec(Start(), LateCreation()).value;
    RunKept(LateCreation());
    SentOrdinary(LateCreation());
    assert !Ordinary(s.sent[0]);
  }

  lemma LateRunContinues() returns (s: Sys)
    ensures Exec(Start(), LateCreation()[..8]) == Some(s)
    ensures s.msgNum == 3 && s.sent == [Opening(0, 0, 1, 1)] + LateMessages()[..2] && s.held == {16} && s.At(1).Idle?
  {
    hide Exec, Sys.Next, Encode, WellFormed;
    var creation, alloc := ThreadCall(CODE_PTHREAD_CREATE, 2, []), Alloc(CODE_MALLOC, 8, 0, 16);
    var s0, steps := Start(), LateCreation();
    var s4 := LateRunBegins();
    Reports(s0, steps, 4, s4, 1, creation);
    var s6 := Exec(s0, steps[..6]).value;
    assert s6.At(2) == s4.At(2);
    Sends(s0, steps, 6, s6, 2, alloc, 2);
    var s7 := Exec(s0, steps[..7]).value;
    Returns(s0, steps, 7, s7, 2, alloc);
    s := Exec(s0, steps[..8]).value;
    assert s.At(1) == s7.At(1) == s6.At(1);
  }

  lemma LateRunBegins() returns (s: Sys)
    ensures Exec(Start(), LateCreation()[..4]) == Some(s)
    ensures s.msgNum == 2 && s.sent == [Opening(0, 0, 1, 1)] && s.link.socket == 3 && s.heap == {16} && s.held == {}
    ensures s.At(1) == Acting(ThreadCall(CODE_PTHREAD_CREATE, 2, []))
    ensures s.At(2) == Reporting(Alloc(CODE_MALLOC, 8, 0, 16), Report(Alloc(CODE_MALLOC, 8, 0, 16), 0, 0, 2, 2))
  {
    hide Exec, Sys.Next, Encode, WellFormed;
    var creation, alloc := ThreadCall(CODE_PTHREAD_CREATE, 2, []), Alloc(CODE_MALLOC, 8, 0, 16);
    var s0, steps := Start(), LateCreation();
    NoStepYet(s0, steps);
    Connects(s0, steps, 0, s0, 1);
    var s1 := Exec(s0, steps[..1]).value;
    Enters(s0, steps, 1, s1, 1, creation);
    var s2 := Exec(s0, steps[..2]).value;
    Enters(s0, steps, 2, s2, 2, alloc);
    var s3 := Exec(s0, steps[..3]).value;
    Stamps(s0, steps, 3, s3, 2, alloc);
    s := Exec(s0, steps[..4]).value;
    assert s.At(1) == s3.At(1) == s2.At(1);
  }

  /** The fallback that is not supposed to occur does occur, without any realloc: in this run the search for the
      operation that a free takes back finds no entry, and the free is charged to a thread that has allocated nothing,
      whose size goes below zero. */
  lemma LateCreationMischarges()
    ensures Exec(Start(), LateCreation()).Some?
    ensures var ms := Exec(Start(), LateCreation()).value.sent;
      var r := Feed(NewLedger(), ms).roster;
      && !NoneEarly(ms)
      && |ms| == 5 && Feed(NewLedger(), ms[..4]).roster.Owner(2, 2).None?
      && |r.entries| == 2 && r.entries[0].currentSize == 8 && r.entries[1].currentSize == M64 - 8
  {
    hide Exec, Feed, Run, Roster.Owner, NewLedger;
    LateRun();
    var ms := Exec(Start(), LateCreation()).value.sent;
    OpeningClears(NewLedger(), ms);
    OpeningClears(NewLedger(), ms[..4]);
    FirstRoster();
    assert ms[1..] == LateMessages() && ms[..4][1..] == LateMessages()[..3];
    LateLedger(NewLedger().Handle(OnNewConnection));
    assert IsCreation(ms[1], 2) && IsAllocation(ms[2], 2);
    assert !OpensBefore(ms, 1, 2);
  }

  lemma FirstRoster()
    ensures NewLedger().Handle(OnNewConnection).roster == NoRoster()
  {
  }

  // ---- The wrong entry without the fallback ----

  /** Thread 1 creates thread 2; both are stamped in order, but the first allocation of thread 2 is sent before the
      creation. */
  function LateMessage(): (steps: seq<Step>) {
    [Open(1, 3, 0, 0), Enter(1, ThreadCall(CODE_PTHREAD_CREATE, 2, [])), Enter(2, Alloc(CODE_MALLOC, 8, 0, 16)),
      StampReport(1, 0, 0), StampReport(2, 0, 0), Send(2), Send(1)]
  }

  lemma LateMessageSent()
    ensures var s := Exec(Start(), LateMessage());
      && s.Some? && s.value.link.init
      && s.value.sent == [Opening(0, 0, 1, 1), Report(Alloc(CODE_MALLOC, 8, 0, 16), 0, 0, 2, 3),
                          Report(ThreadCall(CODE_PTHREAD_CREATE, 2, []), 0, 0, 1, 2)]
  {
    hide Exec, Sys.Next, Encode, WellFormed;
    var creation, alloc := ThreadCall(CODE_PTHREAD_CREATE, 2, []), Alloc(CODE_MALLOC, 8, 0, 16);
    var s0, steps := Start(), LateMessage();
    NoStepYet(s0, steps);
    Connects(s0, steps, 0, s0, 1);
    var s1 := Exec(s0, steps[..1]).value;
    Enters(s0, steps, 1, s1, 1, creation);
    var s2 := Exec(s0, steps[..2]).value;
    Enters(s0, steps, 2, s2, 2, alloc);
    var s3 := Exec(s0, steps[..3]).value;
    assert s3.At(1) == s2.At(1);
    Stamps(s0, steps, 3, s3, 1, creation);
    var s4 := Exec(s0, steps[..4]).value;
    assert s4.At(2) == s3.At(2);
    Stamps(s0, steps, 4, s4, 2, alloc);
    var s5 := Exec(s0, steps[..5]).value;
    Sends(s0, steps, 5, s5, 2, alloc, 3);
    var s6 := Exec(s0, steps[..6]).value;
    assert s6.At(1) == s5.At(1) == s4.At(1);
    Sends(s0, steps, 6, s6, 1, creation, 2);
    assert steps[..7] == steps;
    LateMessageOpened();
  }

  lemma LateMessageOpened()
    requires Exec(Start(), LateMessage()).Some? && Exec(Start(), LateMessage()).value.sent != []
    requires IsOpening(Exec(Start(), LateMessage()).value.sent[0])
    ensures Exec(Start(), LateMessage()).value.link.init
  {
    hide Exec;
    SentOrdinary(LateMessage());
    assert !Ordinary(Exec(Start(), LateMessage()).value.sent[0]);
  }

  /** The server never falls back in this run, and yet it can come to discharge the wrong entry: as soon as the thread
      allocates again, the entry that its creation has opened takes in the allocation charged to the entry before. */
  lemma LateMessageMisleads()
    ensures Exec(Start(), LateMessage()).Some? && Exec(Start(), LateMessage()).value.link.init
    ensures var s, opened' := Exec(Start(), LateMessage()).value, NewLedger().Handle(OnNewConnection);
      && NoneEarly(s.sent) && Delivered(s.sent) != []
      && !AlwaysFound(opened', ToldAfterOpening(s))
  {
    hide Exec, Start, AlwaysFound, NewLedger, CallsIn;
    LateMessageSent();
    var ms := Exec(Start(), LateMessage()).value.sent;
    NoneEarlyHere(ms);
    NothingAlive();
    ClientAttributionExactly(NewLedger(), LateMessage());
  }

  lemma NothingAlive()
    ensures NewLedger().roster.alive == []
  {
  }

  lemma NoneEarlyHere(ms: seq<Message>)
    requires |ms| == 3 && IsOpening(ms[0]) && IsAllocation(ms[1], 2) && IsCreation(ms[2], 2)
    requires ms[1].freePtr == 0 && ms[2].header.msgNum < ms[1].header.msgNum
    ensures NoneEarly(ms) && !NoCreationPassed(ms)
  {
    var front := ms[..2];
    assert Unfreed(front[..1]) == [] by { assert front[..1][..0] == []; }
    assert front[..|front| - 1] == front[..1] && front[|front| - 1] == ms[1];
    assert Unfreed(front) == [ms[1]];
    assert IsCreation(ms[2], Unfreed(front)[0].header.threadId);
    assert !PassesNoAllocation(ms, 2);
  }
}
