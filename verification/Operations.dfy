/** The operations the server keeps, on values: one list of all of them and two indexes into it. */
module Operations {
  import opened Sequences
  import opened Lists
  import opened Messages

  datatype Timeval = Timeval(sec: nat, usec: nat)

  datatype Trace = Trace(originMsgNum: nat, addrs: seq<nat>)

  datatype Operation = Operation(
    time: Timeval, msgNum: nat, msgCode: nat, callerThreadId: nat,
    allocSize: nat, allocPtr: nat, allocNum: nat, freePtr: nat,
    freed: bool, backtrace: Option<Trace>)

  predicate HasAllocOperation(code: nat) {
    CODE_MALLOC <= code <= CODE_PVALLOC
  }

  predicate IsLive(o: Operation) { !o.freed && HasAllocOperation(o.msgCode) }

  predicate IsUntraced(o: Operation) { o.backtrace.None? }

  /** What a search for an address that is not freed looks for. */
  function Holds(ptr: nat): (keep: Operation -> bool) {
    (o: Operation) => o.allocPtr == ptr && !o.freed
  }

  function Numbered(num: nat): (keep: Operation -> bool) {
    (o: Operation) => o.msgNum == num
  }

  /** The list of all operations, and by place in it the index of those not freed and of those without a backtrace. */
  datatype Book = Book(ops: seq<Operation>, nonFreed: seq<nat>, untraced: seq<nat>) {

    predicate Valid() {
      InRange(nonFreed, |ops|) && InRange(untraced, |ops|)
    }

    /** Where in the index the operation that holds an address is, scanning from the end. */
    function Holder(ptr: nat): (k: Option<nat>)
      requires Valid()
      ensures k.Some? ==> k.value < |nonFreed|
    {
      if ptr == 0 then None else Last(View(ops, nonFreed), Holds(ptr))
    }

    /** The place of the operation that a new one with this address to free will mark as freed. */
    function Freed(ptr: nat): (j: Option<nat>)
      requires Valid()
      ensures j.Some? ==> j.value < |ops|
    {
      if Holder(ptr).Some? then Some(nonFreed[Holder(ptr).value]) else None
    }

    function Release(ptr: nat): (b: Book)
      requires Valid()
      ensures b.Valid() && |b.ops| == |ops|
    {
      if Holder(ptr).None? then this
      else
        var j := nonFreed[Holder(ptr).value];
        Book(ops[j := ops[j].(freed := true)], Without(nonFreed, Holder(ptr).value), untraced)
    }

    function Append(o: Operation): (b: Book)
      requires Valid()
      ensures b.Valid()
    {
      Book(ops + [o], if HasAllocOperation(o.msgCode) then nonFreed + [|ops|] else nonFreed, untraced + [|ops|])
    }

    function Add(o: Operation): (b: Book)
      requires Valid()
      ensures b.Valid()
    {
      Release(o.freePtr).Append(o)
    }

    /** Where in the index the operation that a backtrace belongs to is, scanning from the end. */
    function Origin(num: nat): (k: Option<nat>)
      requires Valid()
      ensures k.Some? ==> k.value < |untraced|
    {
      Last(View(ops, untraced), Numbered(num))
    }

    function Attach(trace: Trace): (b: Book)
      requires Valid()
      ensures b.Valid()
    {
      if Origin(trace.originMsgNum).None? then this
      else
        var k := Origin(trace.originMsgNum).value;
        var j := untraced[k];
        Book(ops[j := ops[j].(backtrace := Some(trace))], nonFreed, Without(untraced, k))
    }
  }

  function NoBook(): (b: Book)
    ensures b.Valid()
  {
    Book([], [], [])
  }

  // ---- The indexes are what they stand for ----

  /** Each index is the filter, in order, of the list of all operations. */
  ghost predicate Indexed(b: Book) {
    && b.nonFreed == Positions(b.ops, IsLive)
    && b.untraced == Positions(b.ops, IsUntraced)
  }

  lemma FreedIsLive(b: Book, ptr: nat)
    requires b.Valid() && Indexed(b) && b.Freed(ptr).Some?
    ensures var o := b.ops[b.Freed(ptr).value]; IsLive(o) && o.allocPtr == ptr != 0
  {
    PositionsExactly(b.ops, IsLive);
    assert b.Freed(ptr).value in b.nonFreed;
  }

  lemma ReleaseIndexed(b: Book, ptr: nat)
    requires b.Valid() && Indexed(b)
    ensures Indexed(b.Release(ptr))
  {
    if b.Holder(ptr).Some? {
      var k := b.Holder(ptr).value;
      var j := b.nonFreed[k];
      FreedIsLive(b, ptr);
      PositionsDrop(b.ops, j, b.ops[j].(freed := true), IsLive, k);
      PositionsSame(b.ops, j, b.ops[j].(freed := true), IsUntraced);
    }
  }

  /** Freeing changes nothing else about an operation, and takes no freeing back. */
  lemma ReleaseSame(b: Book, ptr: nat)
    requires b.Valid()
    ensures var ops := b.Release(ptr).ops;
      |ops| == |b.ops| && forall k :: 0 <= k < |ops| ==>
        ops[k] == b.ops[k].(freed := ops[k].freed) && (b.ops[k].freed ==> ops[k].freed)
  {
  }

  /** Nor does a backtrace. */
  lemma AttachSame(b: Book, trace: Trace)
    requires b.Valid()
    ensures var ops := b.Attach(trace).ops;
      |ops| == |b.ops| && forall k :: 0 <= k < |ops| ==> ops[k] == b.ops[k].(backtrace := ops[k].backtrace)
  {
  }

  /** Every operation received keeps both indexes right. */
  lemma AddIndexed(b: Book, o: Operation)
    requires b.Valid() && Indexed(b) && !o.freed && o.backtrace.None?
    ensures Indexed(b.Add(o))
  {
    var r := b.Release(o.freePtr);
    ReleaseIndexed(b, o.freePtr);
    PositionsAppend(r.ops, o, IsLive);
    PositionsAppend(r.ops, o, IsUntraced);
  }

  /** So does every backtrace. */
  lemma AttachIndexed(b: Book, trace: Trace)
    requires b.Valid() && Indexed(b)
    ensures Indexed(b.Attach(trace))
  {
    if b.Origin(trace.originMsgNum).Some? {
      var k := b.Origin(trace.originMsgNum).value;
      var j := b.untraced[k];
      PositionsExactly(b.ops, IsUntraced);
      assert j in b.untraced;
      PositionsDrop(b.ops, j, b.ops[j].(backtrace := Some(trace)), IsUntraced, k);
      PositionsSame(b.ops, j, b.ops[j].(backtrace := Some(trace)), IsLive);
    }
  }

  // ---- Searching the index is searching the list ----

  /** The last item of `s` that is kept by both, found in the index of those kept by the first. */
  lemma {:induction false} LastThroughIndex<T>(s: seq<T>, index: T -> bool, keep: T -> bool)
    ensures var k := Last(View(s, Positions(s, index)), keep);
      (if k.Some? then Some(Positions(s, index)[k.value]) else None) == Last(s, x => index(x) && keep(x))
  {
    if s == [] {
    } else {
      var n := |s| - 1;
      var front, places := s[..n], Positions(s[..n], index);
      var view := View(s, Positions(s, index));
      assert View(s, places) == View(front, places);
      LastThroughIndex(front, index, keep);
      if index(s[n]) {
        assert view == View(front, places) + [s[n]];
        assert view[..|view| - 1] == View(front, places);
      } else {
        assert view == View(front, places);
      }
    }
  }

  /** The search of the short list gives what a backwards scan of the full list gives, exactly unless that scan ends at
      an operation of a kind that is never indexed. */
  lemma FreedIsFullScanExactly(b: Book, ptr: nat)
    requires b.Valid() && Indexed(b) && ptr != 0
    ensures b.Freed(ptr) == Last(b.ops, Holds(ptr))
            <==> Last(b.ops, Holds(ptr)).None? || HasAllocOperation(b.ops[Last(b.ops, Holds(ptr)).value].msgCode)
  {
    var both := (o: Operation) => IsLive(o) && Holds(ptr)(o);
    LastThroughIndex(b.ops, IsLive, Holds(ptr));
    assert b.Freed(ptr) == Last(b.ops, (o: Operation) => IsLive(o) && Holds(ptr)(o));
    if b.Freed(ptr).Some? {
      FreedIsLive(b, ptr);
    }
    LastUnique(b.ops, (o: Operation) => IsLive(o) && Holds(ptr)(o), Holds(ptr));
  }

  lemma LastUnique(ops: seq<Operation>, p: Operation -> bool, q: Operation -> bool)
    requires forall i :: 0 <= i < |ops| ==> (p(ops[i]) ==> q(ops[i]))
    ensures Last(ops, q).Some? && p(ops[Last(ops, q).value]) ==> Last(ops, p) == Last(ops, q)
    ensures Last(ops, q).None? ==> Last(ops, p).None?
  {
  }

  /** The forward search for an address agrees with the backward one exactly when the address has one holder at most. */
  lemma ForwardSearchExactly(ops: seq<Operation>, ptr: nat)
    ensures First(ops, Holds(ptr)) == Last(ops, Holds(ptr))
            <==> forall i, j :: 0 <= i < j < |ops| ==> !(Holds(ptr)(ops[i]) && Holds(ptr)(ops[j]))
  {
  }

  // ---- Backtraces, without the index ----

  /** The last operation of a list that has the number and no backtrace yet. */
  ghost predicate IsOrigin(ops: seq<Operation>, num: nat, i: nat) {
    && i < |ops| && ops[i].msgNum == num && ops[i].backtrace.None?
    && forall k :: i < k < |ops| ==> !(ops[k].msgNum == num && ops[k].backtrace.None?)
  }

  /** A backtrace goes to that operation of the full list, and nothing else changes. */
  lemma AttachExactly(b: Book, trace: Trace, i: nat)
    requires b.Valid() && Indexed(b) && i < |b.ops|
    ensures |b.Attach(trace).ops| == |b.ops|
    ensures b.Attach(trace).ops[i] ==
            if IsOrigin(b.ops, trace.originMsgNum, i) then b.ops[i].(backtrace := Some(trace)) else b.ops[i]
  {
    PositionsExactly(b.ops, IsUntraced);
    var num, view := trace.originMsgNum, View(b.ops, b.untraced);
    var k := b.Origin(num);
    if k.None? {
      if i in b.untraced {
        var q :| 0 <= q < |b.untraced| && b.untraced[q] == i;
        assert view[q] == b.ops[i];
      }
    } else {
      var j := b.untraced[k.value];
      forall p | j < p < |b.ops| ensures !(b.ops[p].msgNum == num && b.ops[p].backtrace.None?) {
        if p in b.untraced {
          var q :| 0 <= q < |b.untraced| && b.untraced[q] == p;
          assert view[q] == b.ops[p];
        }
      }
      assert j in b.untraced && view[k.value] == b.ops[j];
      assert IsOrigin(b.ops, num, j);
    }
  }
}
