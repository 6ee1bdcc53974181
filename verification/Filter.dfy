/** The filter pass over the list of operations, on values. */
module Filter {
  import opened Sequences
  import opened Words
  import opened Lists
  import opened Messages
  import opened Operations
  import opened Ledger
  import opened Totals

  /** What the filter asks for; a thread id of 0 and a time of 0 ask for nothing. */
  datatype Criteria = Criteria(threadId: nat, notFreedOnly: bool, earliest: Timeval, latest: Timeval)

  function Everything(): (c: Criteria) { Criteria(0, false, Timeval(0, 0), Timeval(0, 0)) }

  function OfThread(id: nat): (c: Criteria) { Everything().(threadId := id) }

  predicate IsSet(t: Timeval) { t != Timeval(0, 0) }

  predicate IsBefore(a: Timeval, b: Timeval) {
    a.sec < b.sec || (a.sec == b.sec && a.usec < b.usec)
  }

  predicate Accepted(c: Criteria, o: Operation) {
    && (c.notFreedOnly ==> o.msgCode != CODE_FREE && !o.freed)
    && (0 < c.threadId ==> o.callerThreadId == c.threadId)
    && (IsSet(c.earliest) ==> !IsBefore(o.time, c.earliest))
    && (IsSet(c.latest) ==> !IsBefore(c.latest, o.time))
  }

  function Accepts(c: Criteria): (keep: Operation -> bool) {
    (o: Operation) => Accepted(c, o)
  }

  function Selected(ops: seq<Operation>, c: Criteria): (selection: seq<Operation>) {
    View(ops, Positions(ops, Accepts(c)))
  }

  /** One more selected operation. */
  function Note(s: Stats, o: Operation): (s': Stats) {
    var raised := s.Raise(o.allocSize);
    (if o.freed then raised.Lower(o.allocSize) else raised).Count(o.msgCode, o.freePtr)
  }

  /** The search statistics after a pass that selects these operations, from those of the pass before. */
  function Scan(s: Stats, selection: seq<Operation>): (s': Stats) {
    if selection == [] then s.Reset() else Note(Scan(s, selection[..|selection| - 1]), selection[|selection| - 1])
  }

  /** A pass finds the totals of what it selects. */
  lemma {:induction false} ScanTallies(s: Stats, selection: seq<Operation>)
    ensures Tallies(Scan(s, selection), selection)
  {
    hide Tallies, Note;
    if selection == [] {
      TalliesNothing(s.Reset());
    } else {
      ScanTallies(s, selection[..|selection| - 1]);
      NoteTallies(Scan(s, selection[..|selection| - 1]), selection);
    }
  }

  lemma NoteTallies(t: Stats, selection: seq<Operation>)
    requires selection != [] && Tallies(t, selection[..|selection| - 1])
    ensures Tallies(Note(t, selection[|selection| - 1]), selection)
  {
    hide Total, Counts.Of, Counts.Bump, Add64, Sub64;
    var front, o := selection[..|selection| - 1], selection[|selection| - 1];
    LastTotals(selection);
    SizesStep(t, Note(t, o), o.allocSize, if o.freed then Some(o.allocSize)
      else None, Total(front, SizeOf), Total(front, FreedSize), Total(front, LiveSize));
    forall code | CODE_MALLOC <= code <= CODE_PVALLOC
      ensures Total(selection, CodeMark(code)) == Total(front, CodeMark(code)) + CodeMark(code)(o)
    {
      TotalAppend(front, o, CodeMark(code));
      assert selection == front + [o];
    }
  }

  lemma LastTotals(ops: seq<Operation>)
    requires ops != []
    ensures var front, o := ops[..|ops| - 1], ops[|ops| - 1];
      && Total(ops, SizeOf) == Total(front, SizeOf) + SizeOf(o)
      && Total(ops, FreedSize) == Total(front, FreedSize) + FreedSize(o)
      && Total(ops, LiveSize) == Total(front, LiveSize) + LiveSize(o)
      && Total(ops, AllocMarkOf) == Total(front, AllocMarkOf) + AllocMarkOf(o)
      && Total(ops, FreeMarkOf) == Total(front, FreeMarkOf) + FreeMarkOf(o)
  {
  }

  /** Without criteria everything is selected. */
  lemma {:induction false} SelectEverything(ops: seq<Operation>)
    ensures Positions(ops, Accepts(Everything())) == seq(|ops|, i => i)
    ensures Selected(ops, Everything()) == ops
  {
    if ops == [] {
    } else {
      SelectEverything(ops[..|ops| - 1]);
      assert seq(|ops|, i => i) == seq(|ops| - 1, i => i) + [|ops| - 1];
    }
  }

  /** Incremental equals batch: at any moment of any run, a pass without criteria finds the running totals of the
      server. */
  lemma BatchIsIncremental(calls: seq<HandlerCall>, s: Stats)
    ensures SameTotals(Scan(s, Selected(Run(NewLedger(), calls).book.ops, Everything())), Run(NewLedger(), calls).stats)
  {
    hide Run, Tallies, Scan, Selected;
    var l := Run(NewLedger(), calls);
    SelectEverything(l.book.ops);
    ScanTallies(s, l.book.ops);
    RunTalliesFromNew(calls);
    TalliesUnique(Scan(s, l.book.ops), l.stats, l.book.ops);
  }

  // ---- Passes by thread ----

  /** A sum over what a pass by thread selects. */
  function ThreadTotal(ops: seq<Operation>, id: nat, weight: Operation -> nat): (sum: nat) {
    Total(Selected(ops, OfThread(id)), weight)
  }

  /** The passes for several threads, added up. */
  function ThreadTotals(ops: seq<Operation>, ids: seq<nat>, weight: Operation -> nat): (sum: nat) {
    if ids == [] then 0 else ThreadTotal(ops, ids[0], weight) + ThreadTotals(ops, ids[1..], weight)
  }

  lemma ThreadTotalAppend(ops: seq<Operation>, o: Operation, id: nat, weight: Operation -> nat)
    requires 0 < id
    ensures ThreadTotal(ops + [o], id, weight) == ThreadTotal(ops, id, weight) + if o.callerThreadId == id then
      weight(o) else 0
  {
    var keep, all := Accepts(OfThread(id)), ops + [o];
    PositionsAppend(ops, o, keep);
    assert View(all, Positions(ops, keep)) == Selected(ops, OfThread(id));
    if o.callerThreadId == id {
      assert Selected(all, OfThread(id)) == Selected(ops, OfThread(id)) + [o];
      TotalAppend(Selected(ops, OfThread(id)), o, weight);
    } else {
      assert Selected(all, OfThread(id)) == Selected(ops, OfThread(id));
    }
  }

  predicate Distinct(ids: seq<nat>) {
    forall i, j :: 0 <= i < j < |ids| ==> ids[i] != ids[j]
  }

  lemma {:induction false} ThreadTotalsAppend(ops: seq<Operation>, o: Operation, ids: seq<nat>,
    weight: Operation -> nat)
    requires Distinct(ids) && 0 !in ids
    ensures ThreadTotals(ops + [o], ids, weight) == ThreadTotals(ops, ids, weight) + if o.callerThreadId in ids then
      weight(o) else 0
  {
    if ids == [] {
    } else {
      assert ids[0] in ids && ids == [ids[0]] + ids[1..];
      ThreadTotalAppend(ops, o, ids[0], weight);
      ThreadTotalsAppend(ops, o, ids[1..], weight);
    }
  }

  lemma {:induction false} ThreadTotalsNothing(ids: seq<nat>, weight: Operation -> nat)
    ensures ThreadTotals([], ids, weight) == 0
  {
    if ids == [] {
    } else {
      ThreadTotalsNothing(ids[1..], weight);
    }
  }

  /** A weight counted only for the operations of some threads. */
  function ByThread(ids: seq<nat>, weight: Operation -> nat): (w: Operation -> nat) {
    (o: Operation) => if o.callerThreadId in ids then weight(o) else 0
  }

  /** The passes for distinct threads select each operation of those threads exactly once, whatever is summed. */
  lemma {:induction false} PassesPartition(ops: seq<Operation>, ids: seq<nat>, weight: Operation -> nat)
    requires Distinct(ids) && 0 !in ids
    ensures ThreadTotals(ops, ids, weight) == Total(ops, ByThread(ids, weight))
  {
    if ops == [] {
      ThreadTotalsNothing(ids, weight);
    } else {
      var front, o := ops[..|ops| - 1], ops[|ops| - 1];
      PassesPartition(front, ids, weight);
      assert ops == front + [o];
      ThreadTotalsAppend(front, o, ids, weight);
    }
  }

  function One(o: Operation): (n: nat) { 1 }

  /** The totals of the passes add up to those of the pass without criteria, whatever is summed, exactly if every
      operation has a caller among the threads; as 0 asks for all threads, none may have the caller 0. */
  lemma PassesAddUpExactly(ops: seq<Operation>, ids: seq<nat>)
    requires Distinct(ids) && 0 !in ids
    ensures (forall weight: Operation -> nat :: ThreadTotals(ops, ids, weight) == Total(ops, weight))
            <==> forall k :: 0 <= k < |ops| ==> ops[k].callerThreadId in ids
  {
    if forall k :: 0 <= k < |ops| ==> ops[k].callerThreadId in ids {
      forall weight: Operation -> nat ensures ThreadTotals(ops, ids, weight) == Total(ops, weight) {
        PassesPartition(ops, ids, weight);
        TotalSame(ops, ByThread(ids, weight), weight);
      }
    } else {
      var k :| 0 <= k < |ops| && ops[k].callerThreadId !in ids;
      PassesPartition(ops, ids, One);
      TotalLess(ops, ByThread(ids, One), One, k);
      assert ThreadTotals(ops, ids, One) != Total(ops, One);
    }
  }

  lemma {:induction false} TotalLess(ops: seq<Operation>, v: Operation -> nat, w: Operation -> nat, k: nat)
    requires k < |ops| && v(ops[k]) < w(ops[k]) && forall i :: 0 <= i < |ops| ==> v(ops[i]) <= w(ops[i])
    ensures Total(ops, v) < Total(ops, w)
  {
    var n := |ops| - 1;
    assert forall i :: 0 <= i < n ==> ops[..n][i] == ops[i];
    if k == n {
      TotalAtMost(ops[..n], v, w);
    } else {
      TotalLess(ops[..n], v, w, k);
    }
  }
}
