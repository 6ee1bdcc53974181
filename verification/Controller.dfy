/** The server's controller: shared operation and thread objects in several lists, updated in place. */
module Controller {
  import opened Sequences
  import opened Words
  import opened Lists
  import opened Messages
  import opened Operations
  import opened Threads
  import opened UsageChart
  import opened Ledger
  import opened Filter

  class MemoryOperation {
    const time: Timeval
    const msgNum: nat
    const msgCode: nat
    const callerThreadId: nat
    const allocSize: nat
    const allocPtr: nat
    const allocNum: nat
    const freePtr: nat
    var freed: bool
    var backtrace: Option<Trace>

    function Value(): (o: Operation)
      reads this
    {
      Operation(time, msgNum, msgCode, callerThreadId, allocSize, allocPtr, allocNum, freePtr, freed, backtrace)
    }

    constructor (h: Header, allocSize: nat, allocPtr: nat, allocNum: nat, freePtr: nat)
      ensures Value() == NewOperation(h, allocSize, allocPtr, allocNum, freePtr)
    {
      time, msgNum, msgCode, callerThreadId := Timeval(h.timeSec, h.timeUsec), h.msgNum, h.msgCode, h.threadId;
      this.allocSize, this.allocPtr, this.allocNum, this.freePtr := allocSize, allocPtr, allocNum, freePtr;
      freed, backtrace := false, None;
    }

    /** The change of one object of a list is the change of one value. */
    method MarkFreed(ghost list: seq<MemoryOperation>, ghost j: nat)
      requires AllDistinct(list) && j < |list| && list[j] == this
      modifies `freed
      ensures OpValues(list) == old(OpValues(list))[j := old(Value()).(freed := true)]
    {
      freed := true;
      assert forall k :: 0 <= k < |list| && k != j ==> list[k] != this;
    }

    method SetBacktrace(trace: Trace, ghost list: seq<MemoryOperation>, ghost j: nat)
      requires AllDistinct(list) && j < |list| && list[j] == this
      modifies `backtrace
      ensures OpValues(list) == old(OpValues(list))[j := old(Value()).(backtrace := Some(trace))]
    {
      backtrace := Some(trace);
      assert forall k :: 0 <= k < |list| && k != j ==> list[k] != this;
    }
  }

  class ThreadInfos {
    const threadId: nat
    var threadName: seq<nat>
    var creationMsgNum: nat
    var lastAllocMsgNum: nat
    const creation: Timeval
    var termination: Timeval
    var isTerminated: bool
    var currentAllocCount: nat
    var currentSize: nat
    var totalAllocCount: nat
    var peakSize: nat

    function Value(): (e: Entry)
      reads this
    {
      Entry(threadId, threadName, creationMsgNum, lastAllocMsgNum, creation, termination, isTerminated,
            currentAllocCount, currentSize, totalAllocCount, peakSize)
    }

    constructor (id: nat, time: Timeval, name: seq<nat>)
      ensures Value() == NewEntry(id, time, name)
    {
      threadId, creation, threadName := id, time, name;
      creationMsgNum, lastAllocMsgNum, termination, isTerminated := 0, 0, Timeval(0, 0), false;
      currentAllocCount, currentSize, totalAllocCount, peakSize := 0, 0, 0, 0;
    }

    method Charge(num: nat, size: nat, ghost list: seq<ThreadInfos>, ghost j: nat)
      requires AllDistinct(list) && j < |list| && list[j] == this
      modifies this
      ensures EntryValues(list) == old(EntryValues(list))[j := Charged(old(Value()), num, size)]
    {
      if creationMsgNum == 0 {
        creationMsgNum := num;
      }
      lastAllocMsgNum := num;
      currentSize := Add64(currentSize, size);
      currentAllocCount := Add32(currentAllocCount, 1);
      totalAllocCount := Add32(totalAllocCount, 1);
      if currentSize > peakSize {
        peakSize := currentSize;
      }
      assert forall k :: 0 <= k < |list| && k != j ==> list[k] != this;
    }

    method Discharge(size: nat, ghost list: seq<ThreadInfos>, ghost j: nat)
      requires AllDistinct(list) && j < |list| && list[j] == this
      modifies this
      ensures EntryValues(list) == old(EntryValues(list))[j := Discharged(old(Value()), size)]
    {
      currentSize := Sub64(currentSize, size);
      currentAllocCount := Sub32(currentAllocCount, 1);
      assert forall k :: 0 <= k < |list| && k != j ==> list[k] != this;
    }

    method Create(num: nat, ghost list: seq<ThreadInfos>, ghost j: nat)
      requires AllDistinct(list) && j < |list| && list[j] == this
      modifies this
      ensures EntryValues(list) == old(EntryValues(list))[j := old(Value()).(creationMsgNum := num,
        lastAllocMsgNum := num)]
    {
      creationMsgNum := num;
      lastAllocMsgNum := num;
      assert forall k :: 0 <= k < |list| && k != j ==> list[k] != this;
    }

    method Rename(name: seq<nat>, ghost list: seq<ThreadInfos>, ghost j: nat)
      requires AllDistinct(list) && j < |list| && list[j] == this
      modifies this
      ensures EntryValues(list) == old(EntryValues(list))[j := old(Value()).(threadName := name)]
    {
      threadName := name;
      assert forall k :: 0 <= k < |list| && k != j ==> list[k] != this;
    }

    method Terminate(time: Timeval, ghost list: seq<ThreadInfos>, ghost j: nat)
      requires AllDistinct(list) && j < |list| && list[j] == this
      modifies this
      ensures EntryValues(list) == old(EntryValues(list))[j := old(Value()).(terminated := true, termination := time)]
    {
      isTerminated := true;
      termination := time;
      assert forall k :: 0 <= k < |list| && k != j ==> list[k] != this;
    }
  }

  /** The statistics; the nine counters of the functions are kept together. */
  class MemoryStats {
    var messageCount: int
    var startTime: Timeval
    var lastTime: Timeval
    var memoryOperationCount: int
    var totalAllocCount: int
    var totalAllocSize: nat
    var totalFreeCount: int
    var totalFreeSize: nat
    var totalRemainingCount: int
    var totalRemainingSize: nat
    var peakRemainingSize: nat
    const memoryUsage: MemoryUsage
    var counts: Counts

    ghost function Value(): (s: Stats)
      reads this, memoryUsage
    {
      Stats(messageCount, startTime, lastTime, memoryOperationCount, totalAllocCount, totalAllocSize, totalFreeCount,
        totalFreeSize,
            totalRemainingCount, totalRemainingSize, peakRemainingSize, memoryUsage.Table(), counts)
    }

    constructor ()
      ensures Value() == NoStats() && fresh(memoryUsage)
    {
      messageCount, startTime, lastTime, memoryOperationCount := 0, Timeval(0, 0), Timeval(0, 0), 0;
      totalAllocCount, totalAllocSize, totalFreeCount, totalFreeSize := 0, 0, 0, 0;
      totalRemainingCount, totalRemainingSize, peakRemainingSize, counts := 0, 0, 0, NoCounts();
      memoryUsage := new MemoryUsage();
    }

    /** The peak is left as it is. */
    method Reset()
      modifies this, memoryUsage
      ensures Value() == old(Value()).Reset()
    {
      messageCount := 0;
      startTime := Timeval(0, 0);
      lastTime := Timeval(0, 0);
      memoryOperationCount := 0;
      totalAllocCount := 0;
      totalAllocSize := 0;
      totalFreeCount := 0;
      totalFreeSize := 0;
      totalRemainingCount := 0;
      totalRemainingSize := 0;
      counts := NoCounts();
      memoryUsage.Clear();
    }

    method CountMessage()
      modifies this`messageCount
      ensures Value() == old(Value()).(messageCount := old(Value()).messageCount + 1)
    {
      messageCount := messageCount + 1;
    }

    method NoteTime(time: Timeval)
      modifies this`startTime, this`lastTime
      ensures Value() == old(Value()).(startTime := if old(startTime) == Timeval(0, 0) then time
        else old(startTime), lastTime := time)
    {
      if startTime == Timeval(0, 0) {
        startTime := time;
      }
      lastTime := time;
    }

    /** One more operation of this size. */
    method AddSize(size: nat)
      modifies this`memoryOperationCount, this`totalAllocSize, this`totalRemainingSize, this`peakRemainingSize
      ensures Value() == old(Value()).Raise(size)
    {
      memoryOperationCount := memoryOperationCount + 1;
      totalAllocSize := Add64(totalAllocSize, size);
      totalRemainingSize := Add64(totalRemainingSize, size);
      if totalRemainingSize > peakRemainingSize {
        peakRemainingSize := totalRemainingSize;
      }
    }

    method TakeSize(size: nat)
      modifies this`totalFreeSize, this`totalRemainingSize
      ensures Value() == old(Value()).Lower(size)
    {
      totalFreeSize := Add64(totalFreeSize, size);
      totalRemainingSize := Sub64(totalRemainingSize, size);
    }

    /** One more operation, and the size of the one it frees, if it frees any. */
    method RecordOperation(time: Timeval, size: nat, freedSize: Option<nat>, code: nat, freePtr: nat)
      modifies this, memoryUsage
      ensures forall o: Operation, freed: Option<Operation> ::
        && (o.time, o.allocSize, o.msgCode, o.freePtr) == (time, size, code, freePtr)
        && freedSize == (if freed.None? then None else Some(freed.value.allocSize))
        ==> Value() == old(Value()).Record(o, freed)
    {
      hide Usage.Update, Stats.Count, Stats.Raise, Stats.Lower;
      CountMessage();
      NoteTime(time);
      AddSize(size);
      if freedSize.Some? {
        TakeSize(freedSize.value);
      }
      memoryUsage.Update(time.sec, totalRemainingSize);
      CountCall(code, freePtr);
    }

    /** The counters of one more call. */
    method CountCall(code: nat, freePtr: nat)
      modifies this`totalAllocCount, this`totalFreeCount, this`totalRemainingCount, this`counts
      ensures Value() == old(Value()).Count(code, freePtr)
    {
      if code == CODE_MALLOC {
        totalAllocCount := totalAllocCount + 1;
        counts := counts.(malloc := counts.malloc + 1);
      } else if code == CODE_CALLOC {
        totalAllocCount := totalAllocCount + 1;
        counts := counts.(calloc := counts.calloc + 1);
      } else if code == CODE_REALLOC {
        totalAllocCount := totalAllocCount + 1;
        if freePtr != 0 {
          totalFreeCount := totalFreeCount + 1;
        }
        counts := counts.(realloc := counts.realloc + 1);
      } else if code == CODE_FREE {
        totalFreeCount := totalFreeCount + 1;
        counts := counts.(free := counts.free + 1);
      } else if code == CODE_POSIX_MEMALIGN {
        totalAllocCount := totalAllocCount + 1;
        counts := counts.(posixMemalign := counts.posixMemalign + 1);
      } else if code == CODE_ALIGNED_ALLOC {
        totalAllocCount := totalAllocCount + 1;
        counts := counts.(alignedAlloc := counts.alignedAlloc + 1);
      } else if code == CODE_MEMALIGN {
        totalAllocCount := totalAllocCount + 1;
        counts := counts.(memAlign := counts.memAlign + 1);
      } else if code == CODE_VALLOC {
        totalAllocCount := totalAllocCount + 1;
        counts := counts.(vAlloc := counts.vAlloc + 1);
      } else if code == CODE_PVALLOC {
        totalAllocCount := totalAllocCount + 1;
        counts := counts.(pVAlloc := counts.pVAlloc + 1);
      }
      totalRemainingCount := totalAllocCount - totalFreeCount;
    }
  }

  // ---- Searches ----

  function OpValues(list: seq<MemoryOperation>): (values: seq<Operation>)
    reads list
    ensures |values| == |list|
  {
    seq(|list|, i requires 0 <= i < |list| reads list => list[i].Value())
  }

  function EntryValues(list: seq<ThreadInfos>): (values: seq<Entry>)
    reads list
    ensures |values| == |list|
  {
    seq(|list|, i requires 0 <= i < |list| reads list => list[i].Value())
  }

  lemma FirstIs<T>(s: seq<T>, keep: T -> bool, k: nat)
    requires k < |s| && keep(s[k]) && forall i :: 0 <= i < k ==> !keep(s[i])
    ensures First(s, keep) == Some(k)
  {
  }

  lemma LastIs<T>(s: seq<T>, keep: T -> bool, k: nat)
    requires k < |s| && keep(s[k]) && forall i :: k < i < |s| ==> !keep(s[i])
    ensures Last(s, keep) == Some(k)
  {
  }

  /** The first operation of a list that holds an address. */
  method GetPtrNotFreed(list: seq<MemoryOperation>, ptr: nat) returns (found: MemoryOperation?)
    ensures var k := First(OpValues(list), Holds(ptr));
      if k.None? then found == null else found == list[k.value]
  {
    var i := 0;
    while i < |list|
      invariant i <= |list|
      invariant forall j :: 0 <= j < i ==> !Holds(ptr)(list[j].Value())
    {
      var operation := list[i];
      if operation.allocPtr == ptr && !operation.freed {
        FirstIs(OpValues(list), Holds(ptr), i);
        return operation;
      }
      i := i + 1;
    }
    return null;
  }

  /** The last operation of a list that holds an address, taken out of the list. */
  method TakeByPtrNotFreed(list: seq<MemoryOperation>, ptr: nat)
    returns (taken: MemoryOperation?, rest: seq<MemoryOperation>)
    ensures var k := Last(OpValues(list), Holds(ptr));
      if k.None? then taken == null && rest == list else taken == list[k.value] && rest == Without(list, k.value)
  {
    var i := |list|;
    while i > 0
      invariant 0 <= i <= |list|
      invariant forall j :: i <= j < |list| ==> !Holds(ptr)(list[j].Value())
    {
      i := i - 1;
      var operation := list[i];
      if operation.allocPtr == ptr && !operation.freed {
        LastIs(OpValues(list), Holds(ptr), i);
        return operation, list[..i] + list[i + 1..];
      }
    }
    return null, list;
  }

  /** The last operation of a list with a message number, taken out of the list. */
  method TakeByMsgNum(list: seq<MemoryOperation>, num: nat)
    returns (taken: MemoryOperation?, rest: seq<MemoryOperation>)
    ensures var k := Last(OpValues(list), Numbered(num));
      if k.None? then taken == null && rest == list else taken == list[k.value] && rest == Without(list, k.value)
  {
    var i := |list|;
    while i > 0
      invariant 0 <= i <= |list|
      invariant forall j :: i <= j < |list| ==> !Numbered(num)(list[j].Value())
    {
      i := i - 1;
      if list[i].msgNum == num {
        LastIs(OpValues(list), Numbered(num), i);
        return list[i], list[..i] + list[i + 1..];
      }
    }
    return null, list;
  }

  method GetById(list: seq<ThreadInfos>, id: nat) returns (found: ThreadInfos?)
    ensures var k := First(EntryValues(list), HasId(id));
      if k.None? then found == null else found == list[k.value]
  {
    var i := 0;
    while i < |list|
      invariant i <= |list|
      invariant forall j :: 0 <= j < i ==> !HasId(id)(list[j].Value())
    {
      if list[i].threadId == id {
        FirstIs(EntryValues(list), HasId(id), i);
        return list[i];
      }
      i := i + 1;
    }
    return null;
  }

  method GetByIdAndMsgNum(list: seq<ThreadInfos>, id: nat, num: nat) returns (found: ThreadInfos?)
    ensures var k := First(EntryValues(list), HasWindow(id, num));
      if k.None? then found == null else found == list[k.value]
  {
    var i := 0;
    while i < |list|
      invariant i <= |list|
      invariant forall j :: 0 <= j < i ==> !HasWindow(id, num)(list[j].Value())
    {
      var infos := list[i];
      if infos.threadId == id {
        if infos.creationMsgNum <= num && num <= infos.lastAllocMsgNum {
          FirstIs(EntryValues(list), HasWindow(id, num), i);
          return infos;
        }
      }
      i := i + 1;
    }
    return null;
  }

  /** A list without the entries of a thread; `places` says where the entries are in `made`. */
  method RemoveById(list: seq<ThreadInfos>, id: nat, ghost made: seq<ThreadInfos>, ghost places: seq<nat>)
    returns (rest: seq<ThreadInfos>)
    requires InRange(places, |made|) && list == View(made, places)
    ensures rest == View(made, Others(EntryValues(made), places, id))
  {
    hide View, Others, EntryValues;
    rest := list;
    var i := 0;
    ghost var entries := EntryValues(made);
    ghost var done: seq<nat>, left := [], places;
    NothingLeft(made, entries, done, id);
    assert [] + View(made, left) == View(made, left) && [] + Others(entries, left, id) == Others(entries, left, id);
    while i < |rest|
      invariant i <= |rest|
      invariant InRange(done, |made|) && InRange(left, |made|)
      invariant i == |done| && rest == View(made, done) + View(made, left)
      invariant Others(entries, places, id) == done + Others(entries, left, id)
      decreases |rest| - i
    {
      ViewStep(made, done, left);
      RemoveStep(made, entries, done, left, id);
      CutOut(View(made, done), made[left[0]], View(made, left[1..]));
      if rest[i].threadId == id {
        rest := rest[..i] + rest[i + 1..];
      } else {
        done := done + [left[0]];
        i := i + 1;
      }
      left := left[1..];
    }
    assert left == [];
    NothingLeft(made, entries, left, id);
    assert View(made, done) + [] == View(made, done) && done + [] == done;
  }

  lemma CutOut<T>(a: seq<T>, x: T, b: seq<T>)
    ensures var s := a + ([x] + b);
      s[|a|] == x && s[..|a|] + s[|a| + 1..] == a + b && s == (a + [x]) + b
  {
  }

  lemma NothingLeft(made: seq<ThreadInfos>, entries: seq<Entry>, places: seq<nat>, id: nat)
    requires places == [] && |entries| == |made|
    ensures View(made, places) == [] && Others(entries, places, id) == []
  {
  }

  lemma ViewStep<T>(items: seq<T>, done: seq<nat>, left: seq<nat>)
    requires InRange(done, |items|) && InRange(left, |items|) && left != []
    ensures InRange(left[1..], |items|) && InRange(done + [left[0]], |items|)
    ensures View(items, left) == [items[left[0]]] + View(items, left[1..])
    ensures View(items, done + [left[0]]) == View(items, done) + [items[left[0]]]
  {
  }

  lemma RemoveStep(made: seq<ThreadInfos>, entries: seq<Entry>, done: seq<nat>, left: seq<nat>, id: nat)
    requires left != [] && InRange(left, |made|) && InRange(left[1..], |made|) && entries == EntryValues(made)
    ensures done + Others(entries, left, id) ==
            if made[left[0]].threadId == id then done + Others(entries, left[1..], id)
              else (done + [left[0]]) + Others(entries, left[1..], id)
  {
    var rest := Others(entries, left[1..], id);
    assert entries[left[0]].threadId == made[left[0]].threadId;
    assert done + ([left[0]] + rest) == (done + [left[0]]) + rest;
    assert [] + rest == rest;
  }

  // ---- The controller ----

  predicate AllDistinct<T(==)>(s: seq<T>) {
    forall i, j :: 0 <= i < j < |s| ==> s[i] != s[j]
  }

  /** The items named by two lists are the same objects, so are their values. */
  lemma ViewOps(items: seq<MemoryOperation>, places: seq<nat>)
    requires InRange(places, |items|)
    ensures View(OpValues(items), places) == OpValues(View(items, places))
  {
  }

  lemma ViewEntries(items: seq<ThreadInfos>, places: seq<nat>)
    requires InRange(places, |items|)
    ensures View(EntryValues(items), places) == EntryValues(View(items, places))
  {
  }

  lemma ViewWithout<T>(items: seq<T>, places: seq<nat>, k: nat)
    requires InRange(places, |items|) && k < |places|
    ensures InRange(Without(places, k), |items|)
    ensures View(items, Without(places, k)) == Without(View(items, places), k)
  {
  }

  lemma ViewMore<T>(items: seq<T>, more: seq<T>, places: seq<nat>)
    requires InRange(places, |items|)
    ensures InRange(places, |items + more|) && View(items + more, places) == View(items, places)
  {
  }

  /** The operation as it was before it was marked as freed. */
  ghost predicate Marked(now: Operation, before: Operation) {
    now == before.(freed := true)
  }

  lemma ReleaseMarks(b: Book, ptr: nat)
    requires b.Valid() && b.Freed(ptr).Some?
    ensures Marked(b.Release(ptr).ops[b.Freed(ptr).value], b.ops[b.Freed(ptr).value])
  {
  }

  lemma NoBookIndexed()
    ensures Indexed(NoBook())
  {
  }

  lemma PassNothing(list: seq<MemoryOperation>, ops: seq<Operation>, c: Criteria, s: Stats)
    requires |list| == |ops|
    ensures Positions(ops[..0], Accepts(c)) == [] && View(list, Positions(ops[..0], Accepts(c))) == []
    ensures Scan(s, View(ops, Positions(ops[..0], Accepts(c)))) == s.Reset()
  {
  }

  /** One step of a filter pass. */
  lemma PassStep(list: seq<MemoryOperation>, ops: seq<Operation>, c: Criteria, s: Stats, i: nat)
    requires |list| == |ops| && i < |ops|
    ensures InRange(Positions(ops[..i], Accepts(c)), i) && InRange(Positions(ops[..i + 1], Accepts(c)), i + 1)
    ensures var before, after := Positions(ops[..i], Accepts(c)), Positions(ops[..i + 1], Accepts(c));
      if Accepted(c, ops[i])
      then View(list, after) == View(list, before) + [list[i]] &&
        Scan(s, View(ops, after)) == Note(Scan(s, View(ops, before)), ops[i])
      else View(list, after) == View(list, before) && Scan(s, View(ops, after)) == Scan(s, View(ops, before))
  {
    hide Note;
    var before, after := Positions(ops[..i], Accepts(c)), Positions(ops[..i + 1], Accepts(c));
    assert ops[..i + 1][..i] == ops[..i];
    if Accepted(c, ops[i]) {
      assert after == before + [i];
      assert View(ops, after) == View(ops, before) + [ops[i]];
      assert View(ops, after)[..|before|] == View(ops, before);
    } else {
      assert after == before;
    }
  }

  lemma ViewAt<T>(items: seq<T>, places: seq<nat>, k: nat)
    requires InRange(places, |items|) && k < |places|
    ensures View(items, places)[k] == items[places[k]]
  {
  }

  lemma RetireIs(r: Roster, id: nat, time: Timeval, j: nat)
    requires r.Valid() && r.AliveAt(id).Some? && j == r.alive[r.AliveAt(id).value]
    ensures r.Retire(id, time).entries == r.entries[j := r.entries[j].(terminated := true, termination := time)]
    ensures r.Retire(id, time).listed == r.listed &&
      r.Retire(id, time).alive == Others(r.Retire(id, time).entries, r.alive, id)
  {
  }

  lemma NothingFresh(u: Usage, c: Chart, from: nat, upTo: nat)
    requires upTo < from
    ensures Fresh(u, c, from, upTo) == [] && TableOf(Fresh(u, c, from, upTo)) == NoUsage() &&
      LastSize(u, from, upTo) == 0
    ensures forall rangeStart: nat, rangeTop: nat :: Plot(Fresh(u, c, from, upTo), rangeStart, rangeTop) == []
  {
  }

  lemma LastSizeStep(u: Usage, from: nat, i: nat)
    requires 0 < from <= i
    ensures LastSize(u, from, i) == if i in u.table then u.table[i] else LastSize(u, from, i - 1)
  {
  }

  lemma PlotAt(points: seq<(nat, nat)>, rangeStart: nat, rangeTop: nat)
    ensures |points| == 0 ==> Plot(points, rangeStart, rangeTop) == []
    ensures |points| == 1 ==>
      Plot(points, rangeStart, rangeTop) == [Point(points[0].0, points[0].1, rangeStart, rangeTop)]
  {
  }

  lemma RetireNone(r: Roster, id: nat, time: Timeval)
    requires r.Valid() && r.AliveAt(id).None?
    ensures r.Retire(id, time) == r
  {
  }

  class QApplicationWindowController {
    var listMemoryOperation: seq<MemoryOperation>
    var listMemoryOperationNonFreed: seq<MemoryOperation>
    var listMemoryOperationWithoutBacktrace: seq<MemoryOperation>
    var listThreadInfos: seq<ThreadInfos>
    var listThreadInfosAlive: seq<ThreadInfos>
    var listSymbolInfos: map<nat, SymbolInfos>
    const globalStats: MemoryStats
    const searchStats: MemoryStats
    var listFilterMemoryOperation: seq<MemoryOperation>
    var lastUpdateTime: nat
    var lastUpdateValue: nat
    /** The points appended to the chart. */
    var lineSeries: seq<Point>

    /** Where the operations of the two indexes are in the list of all of them. */
    ghost var nonFreedPlaces: seq<nat>
    ghost var withoutBacktracePlaces: seq<nat>
    /** Every thread entry ever made, and where those of the two lists are among them. */
    ghost var made: seq<ThreadInfos>
    ghost var listedPlaces: seq<nat>
    ghost var alivePlaces: seq<nat>

    ghost predicate BookValid()
      reads `listMemoryOperation, `listMemoryOperationNonFreed, `listMemoryOperationWithoutBacktrace
      reads `nonFreedPlaces, `withoutBacktracePlaces
    {
      && AllDistinct(listMemoryOperation)
      && InRange(nonFreedPlaces, |listMemoryOperation|) && InRange(withoutBacktracePlaces, |listMemoryOperation|)
      && listMemoryOperationNonFreed == View(listMemoryOperation, nonFreedPlaces)
      && listMemoryOperationWithoutBacktrace == View(listMemoryOperation, withoutBacktracePlaces)
    }

    ghost predicate RosterValid()
      reads `listThreadInfos, `listThreadInfosAlive, `made, `listedPlaces, `alivePlaces
    {
      && AllDistinct(made)
      && InRange(listedPlaces, |made|) && InRange(alivePlaces, |made|)
      && listThreadInfos == View(made, listedPlaces)
      && listThreadInfosAlive == View(made, alivePlaces)
    }

    ghost predicate StatsValid()
    {
      globalStats != searchStats && globalStats.memoryUsage != searchStats.memoryUsage
    }

    ghost predicate Valid()
      reads this, listMemoryOperation
    {
      BookValid() && RosterValid() && StatsValid() && Indexed(BookValue())
    }

    ghost function BookValue(): (b: Book)
      reads `listMemoryOperation, `nonFreedPlaces, `withoutBacktracePlaces, listMemoryOperation
    {
      Book(OpValues(listMemoryOperation), nonFreedPlaces, withoutBacktracePlaces)
    }

    ghost function RosterValue(): (r: Roster)
      reads `made, `listedPlaces, `alivePlaces, made
    {
      Roster(EntryValues(made), listedPlaces, alivePlaces)
    }

    ghost function ChartValue(): (c: Chart)
      reads `lastUpdateTime, `lastUpdateValue, `lineSeries
    {
      Chart(lastUpdateTime, lastUpdateValue, lineSeries)
    }

    ghost function Value(): (l: Ledger)
      reads this, listMemoryOperation, made, globalStats, globalStats.memoryUsage
    {
      Ledger(BookValue(), listSymbolInfos, RosterValue(), globalStats.Value(), ChartValue())
    }

    lemma ValidValue()
      requires Valid()
      ensures Value().Valid()
    {
    }

    constructor ()
      ensures Valid() && Value() == NewLedger()
      ensures fresh(globalStats) && fresh(globalStats.memoryUsage) && fresh(searchStats) &&
        fresh(searchStats.memoryUsage)
    {
      listMemoryOperation, listMemoryOperationNonFreed, listMemoryOperationWithoutBacktrace := [], [], [];
      listThreadInfos, listThreadInfosAlive, listSymbolInfos, listFilterMemoryOperation := [], [], map[], [];
      nonFreedPlaces, withoutBacktracePlaces, made, listedPlaces, alivePlaces := [], [], [], [], [];
      lastUpdateTime, lastUpdateValue, lineSeries := 0, 0, [];
      globalStats := new MemoryStats();
      searchStats := new MemoryStats();
    }

    method ClearOperations()
      modifies `listMemoryOperation, `listMemoryOperationNonFreed, `listMemoryOperationWithoutBacktrace
      modifies `nonFreedPlaces, `withoutBacktracePlaces
      ensures BookValid() && BookValue() == NoBook()
    {
      listMemoryOperation, listMemoryOperationNonFreed, listMemoryOperationWithoutBacktrace := [], [], [];
      nonFreedPlaces, withoutBacktracePlaces := [], [];
    }

    method ClearThreads()
      requires RosterValid()
      modifies `listThreadInfos, `listedPlaces
      ensures RosterValid() && RosterValue() == old(RosterValue()).(listed := [])
    {
      listThreadInfos, listedPlaces := [], [];
    }

    method ClearChart()
      modifies `lineSeries, `lastUpdateTime, `lastUpdateValue
      ensures ChartValue() == NoChart()
    {
      lineSeries := [];
      lastUpdateTime, lastUpdateValue := 0, 0;
    }

    method ClearLists()
      requires RosterValid()
      modifies this
      ensures BookValid() && BookValue() == NoBook() && RosterValid() &&
        RosterValue() == old(RosterValue()).(listed := [])
      ensures listSymbolInfos == map[] && listFilterMemoryOperation == [] && ChartValue() == NoChart()
    {
      hide BookValid, RosterValid, BookValue, RosterValue, ChartValue, NoBook;
      ClearOperations();
      ClearThreads();
      ClearChart();
      listSymbolInfos := map[];
      listFilterMemoryOperation := [];
    }

    /** The list of the threads alive is not cleared. */
    method ClearData()
      requires Valid()
      modifies this, globalStats, globalStats.memoryUsage, searchStats, searchStats.memoryUsage
      ensures Valid() && Value() == old(Value()).ClearData()
      ensures searchStats.Value() == old(searchStats.Value()).Reset() && listFilterMemoryOperation == []
    {
      hide Stats.Reset, Indexed, NoBook, MemoryStats.Value, Book.Valid, Roster.Valid;
      hide BookValid, RosterValid, BookValue, RosterValue, ChartValue;
      NoBookIndexed();
      ClearLists();
      searchStats.Reset();
      globalStats.Reset();
    }

    // ---- Memory operations ----

    /** The operation that holds an address leaves the index and is marked. */
    method TakeFreed(ptr: nat) returns (freed: MemoryOperation?)
      requires BookValid()
      modifies this`listMemoryOperationNonFreed, this`nonFreedPlaces, listMemoryOperation
      ensures BookValid() && BookValue() == old(BookValue()).Release(ptr)
      ensures old(BookValue()).Valid()
      ensures var j := old(BookValue()).Freed(ptr);
        if j.None? then freed == null else freed == listMemoryOperation[j.value]
    {
      freed := null;
      ghost var b := BookValue();
      if ptr != 0 {
        ViewOps(listMemoryOperation, nonFreedPlaces);
        ghost var k := Last(OpValues(listMemoryOperationNonFreed), Holds(ptr));
        freed, listMemoryOperationNonFreed := TakeByPtrNotFreed(listMemoryOperationNonFreed, ptr);
        if freed != null {
          ghost var j := nonFreedPlaces[k.value];
          ViewWithout(listMemoryOperation, nonFreedPlaces, k.value);
          nonFreedPlaces := Without(nonFreedPlaces, k.value);
          freed.MarkFreed(listMemoryOperation, j);
        }
      }
    }

    method AppendOperation(operation: MemoryOperation)
      requires BookValid() && operation !in listMemoryOperation
      modifies this`listMemoryOperation, this`listMemoryOperationNonFreed, this`listMemoryOperationWithoutBacktrace
      modifies this`nonFreedPlaces, this`withoutBacktracePlaces
      ensures BookValid() && BookValue() == old(BookValue()).Append(operation.Value())
      ensures listMemoryOperation == old(listMemoryOperation) + [operation]
      ensures old(BookValue()).Valid()
    {
      ViewMore(listMemoryOperation, [operation], nonFreedPlaces);
      ViewMore(listMemoryOperation, [operation], withoutBacktracePlaces);
      ghost var n := |listMemoryOperation|;
      listMemoryOperation := listMemoryOperation + [operation];
      listMemoryOperationWithoutBacktrace := listMemoryOperationWithoutBacktrace + [operation];
      withoutBacktracePlaces := withoutBacktracePlaces + [n];
      if HasAllocOperation(operation.msgCode) {
        listMemoryOperationNonFreed := listMemoryOperationNonFreed + [operation];
        nonFreedPlaces := nonFreedPlaces + [n];
      }
      assert OpValues(listMemoryOperation) == old(OpValues(listMemoryOperation)) + [operation.Value()];
    }

    /** The operation enters the three lists; the one it frees, if any, is marked. */
    method RecordInLists(operation: MemoryOperation) returns (freed: MemoryOperation?)
      requires BookValid() && operation !in listMemoryOperation
      modifies this`listMemoryOperation, this`listMemoryOperationNonFreed, this`listMemoryOperationWithoutBacktrace
      modifies this`nonFreedPlaces, this`withoutBacktracePlaces, listMemoryOperation
      ensures BookValid() && old(BookValue()).Valid() && BookValue() == old(BookValue()).Add(operation.Value())
      ensures listMemoryOperation == old(listMemoryOperation) + [operation]
      ensures operation.Value() == old(operation.Value())
      ensures var j := old(BookValue()).Freed(operation.freePtr);
        if j.None? then freed == null
        else freed != null && Marked(freed.Value(), old(BookValue()).ops[j.value])
    {
      hide Book.Release, Book.Append, Book.Holder;
      freed := TakeFreed(operation.freePtr);
      if freed != null { ReleaseMarks(old(BookValue()), operation.freePtr); }
      AppendOperation(operation);
    }

    /** The thread entries of one more operation. */
    method RecordInThreads(operation: MemoryOperation, freed: MemoryOperation?)
      requires RosterValid()
      modifies this`listThreadInfos, this`listThreadInfosAlive, this`made, this`listedPlaces, this`alivePlaces, made
      ensures RosterValid() && old(RosterValue()).Valid()
      ensures var o, r := operation.Value(), old(RosterValue());
        var discharged := if freed == null then r
          else r.AddFree(freed.callerThreadId, freed.msgNum, freed.allocSize, o.time);
        RosterValue() == if o.allocPtr == 0 then discharged
          else discharged.AddAlloc(o.callerThreadId, o.msgNum, o.allocSize, o.time)
    {
      hide Roster.AddFree, Roster.AddAlloc;
      if freed != null {
        UpdateThreadInfosAddFree(freed.callerThreadId, freed.msgNum, freed.allocSize, operation.time);
      }
      if operation.allocPtr != 0 {
        UpdateThreadInfosAddAlloc(operation.callerThreadId, operation.msgNum, operation.allocSize, operation.time);
      }
    }

    method AddMemoryOperation(operation: MemoryOperation)
      requires Valid() && operation !in listMemoryOperation && !operation.freed && operation.backtrace.None?
      modifies this`listMemoryOperation, this`listMemoryOperationNonFreed, this`listMemoryOperationWithoutBacktrace
      modifies this`nonFreedPlaces, this`withoutBacktracePlaces
      modifies this`listThreadInfos, this`listThreadInfosAlive, this`made, this`listedPlaces, this`alivePlaces
      modifies listMemoryOperation, made, globalStats, globalStats.memoryUsage
      ensures Valid() && old(Value()).book.Valid() && old(Value()).roster.Valid()
      ensures Value() == old(Value()).AddMemoryOperation(old(operation.Value()))
      ensures listMemoryOperation == old(listMemoryOperation) + [operation]
    {
      hide Roster.AddFree, Roster.AddAlloc, Stats.Record, Book.Add, Book.Freed, Book.Valid, Roster.Valid, Indexed;
      hide BookValid, RosterValid, BookValue, RosterValue, ChartValue, MemoryStats.Value;
      ValidValue();
      ghost var l, o := Value(), operation.Value();
      AddIndexed(l.book, o);
      var freed := RecordInLists(operation);
      globalStats.RecordOperation(operation.time, operation.allocSize, if freed == null then None
        else Some(freed.allocSize),
                                  operation.msgCode, operation.freePtr);
      RecordInThreads(operation, freed);
    }

    // ---- Threads ----

    /** A thread that is created again: its entry ends. */
    method RetireAlive(found: ThreadInfos, id: nat, time: Timeval)
      requires RosterValid()
      requires RosterValue().Valid() && RosterValue().AliveAt(id).Some? &&
        found == listThreadInfosAlive[RosterValue().AliveAt(id).value]
      modifies this`listThreadInfosAlive, this`alivePlaces, found
      ensures RosterValid() && RosterValue() == old(RosterValue()).Retire(id, time)
    {
      hide Roster.Retire, Roster.AliveAt, View, Others;
      ghost var r := RosterValue();
      ghost var j := alivePlaces[r.AliveAt(id).value];
      RetireIs(r, id, time, j);
      ViewAt(made, alivePlaces, r.AliveAt(id).value);
      found.Terminate(time, made, j);
      listThreadInfosAlive := RemoveById(listThreadInfosAlive, id, made, alivePlaces);
      alivePlaces := Others(EntryValues(made), alivePlaces, id);
    }

    method EnrolNew(id: nat, time: Timeval) returns (infos: ThreadInfos)
      requires RosterValid()
      modifies this`listThreadInfos, this`listThreadInfosAlive, this`made, this`listedPlaces, this`alivePlaces
      ensures RosterValid() && old(RosterValue()).Valid() && RosterValue() == old(RosterValue()).Enrol(id, time)
      ensures made == old(made) + [infos] && fresh(infos)
    {
      infos := new ThreadInfos(id, time, if listThreadInfos == [] then MainName() else []);
      ViewMore(made, [infos], listedPlaces);
      ViewMore(made, [infos], alivePlaces);
      listThreadInfos := listThreadInfos + [infos];
      listThreadInfosAlive := listThreadInfosAlive + [infos];
      listedPlaces := listedPlaces + [|made|];
      alivePlaces := alivePlaces + [|made|];
      made := made + [infos];
      assert EntryValues(made) == old(EntryValues(made)) + [infos.Value()];
    }

    /** The entry for a thread, made if need be. */
    method GetThreadInfos(id: nat, isCreation: bool, time: Timeval) returns (infos: ThreadInfos)
      requires RosterValid()
      modifies this`listThreadInfos, this`listThreadInfosAlive, this`made, this`listedPlaces, this`alivePlaces, made
      ensures RosterValid() && old(RosterValue()).Valid()
      ensures var g := old(RosterValue()).Get(id, isCreation, time); RosterValue() == g.0 && infos == made[g.1]
      ensures made == old(made) || (made == old(made) + [infos] && fresh(infos))
    {
      hide Roster.Retire, Roster.Enrol;
      ViewEntries(made, alivePlaces);
      var found := GetById(listThreadInfosAlive, id);
      if found != null && isCreation {
        RetireAlive(found, id, time);
        found := null;
      } else if isCreation {
        RetireNone(RosterValue(), id, time);
      }
      if found == null {
        found := EnrolNew(id, time);
      }
      return found;
    }

    method UpdateThreadInfosAddAlloc(id: nat, num: nat, size: nat, time: Timeval)
      requires RosterValid()
      modifies this`listThreadInfos, this`listThreadInfosAlive, this`made, this`listedPlaces, this`alivePlaces, made
      ensures RosterValid() && old(RosterValue()).Valid() &&
        RosterValue() == old(RosterValue()).AddAlloc(id, num, size, time)
      ensures old(made) <= made && forall k :: |old(made)| <= k < |made| ==> fresh(made[k])
    {
      hide Roster.Get, Charged;
      var infos := GetThreadInfos(id, false, time);
      ghost var (g, i) := old(RosterValue()).Get(id, false, time);
      infos.Charge(num, size, made, i);
    }

    method GetThreadInfosForMsgNum(id: nat, num: nat) returns (infos: ThreadInfos?)
      requires RosterValid()
      ensures RosterValue().Valid()
      ensures var i := RosterValue().Owner(id, num);
        if i.None? then infos == null else infos == made[i.value]
    {
      hide EntryValues, HasWindow;
      ViewEntries(made, alivePlaces);
      ViewEntries(made, listedPlaces);
      infos := GetByIdAndMsgNum(listThreadInfosAlive, id, num);
      if infos != null {
        return infos;
      }
      infos := GetByIdAndMsgNum(listThreadInfos, id, num);
    }

    method UpdateThreadInfosAddFree(id: nat, allocMsgNum: nat, size: nat, time: Timeval)
      requires RosterValid()
      modifies this`listThreadInfos, this`listThreadInfosAlive, this`made, this`listedPlaces, this`alivePlaces, made
      ensures RosterValid() && old(RosterValue()).Valid() &&
        RosterValue() == old(RosterValue()).AddFree(id, allocMsgNum, size, time)
      ensures old(made) <= made && forall k :: |old(made)| <= k < |made| ==> fresh(made[k])
    {
      hide Roster.Get, Roster.Owner, Discharged;
      ghost var r := RosterValue();
      var infos := GetThreadInfosForMsgNum(id, allocMsgNum);
      ghost var g := if r.Owner(id, allocMsgNum).Some? then (r, r.Owner(id, allocMsgNum).value)
        else r.Get(id, false, time);
      if infos == null {
        infos := GetThreadInfos(id, false, time);
      }
      infos.Discharge(size, made, g.1);
    }

    method NoteThread(h: Header, id: nat, name: seq<nat>)
      requires RosterValid()
      modifies this`listThreadInfos, this`listThreadInfosAlive, this`made, this`listedPlaces, this`alivePlaces, made
      ensures RosterValid() && old(RosterValue()).Valid()
      ensures var r, time := old(RosterValue()), Timeval(h.timeSec, h.timeUsec);
        RosterValue() ==
          if h.msgCode == CODE_PTHREAD_CREATE then r.Created(id, h.msgNum, time)
          else if h.msgCode == CODE_PTHREAD_SET_NAME then r.Named(id, name, time)
          else r.Get(id, false, time).0
    {
      hide Roster.Get;
      var isCreation := h.msgCode == CODE_PTHREAD_CREATE;
      ghost var r := RosterValue();
      var infos := GetThreadInfos(id, isCreation, Timeval(h.timeSec, h.timeUsec));
      ghost var (g, i) := r.Get(id, isCreation, Timeval(h.timeSec, h.timeUsec));
      if h.msgCode == CODE_PTHREAD_CREATE {
        infos.Create(h.msgNum, made, i);
      }
      if h.msgCode == CODE_PTHREAD_SET_NAME {
        infos.Rename(name, made, i);
      }
    }

    method UpdateThreadInfos(h: Header, id: nat, name: seq<nat>)
      requires Valid()
      modifies this`listThreadInfos, this`listThreadInfosAlive, this`made, this`listedPlaces, this`alivePlaces, made,
        globalStats`messageCount
      ensures Valid() && old(Value()).roster.Valid() && Value() == old(Value()).UpdateThreadInfos(h, id, name)
    {
      hide Roster.Get, Roster.Created, Roster.Named, Indexed, Book.Valid, Roster.Valid;
      hide BookValid, RosterValid, BookValue, RosterValue, ChartValue, MemoryStats.Value;
      globalStats.CountMessage();
      NoteThread(h, id, name);
    }

    // ---- Backtraces and symbols ----

    method AttachBacktrace(originMsgNum: nat, addrs: seq<nat>)
      requires BookValid()
      modifies this`listMemoryOperationWithoutBacktrace, this`withoutBacktracePlaces, listMemoryOperation
      ensures BookValid() && old(BookValue()).Valid() &&
        BookValue() == old(BookValue()).Attach(Trace(originMsgNum, addrs))
    {
      ViewOps(listMemoryOperation, withoutBacktracePlaces);
      ghost var k := Last(OpValues(listMemoryOperationWithoutBacktrace), Numbered(originMsgNum));
      var operation;
      operation, listMemoryOperationWithoutBacktrace := TakeByMsgNum(listMemoryOperationWithoutBacktrace, originMsgNum);
      if operation != null {
        ghost var j := withoutBacktracePlaces[k.value];
        ViewWithout(listMemoryOperation, withoutBacktracePlaces, k.value);
        withoutBacktracePlaces := Without(withoutBacktracePlaces, k.value);
        operation.SetBacktrace(Trace(originMsgNum, addrs), listMemoryOperation, j);
      }
    }

    method AddBacktrace(originMsgNum: nat, addrs: seq<nat>)
      requires Valid()
      modifies this`listMemoryOperationWithoutBacktrace, this`withoutBacktracePlaces, listMemoryOperation,
        globalStats`messageCount
      ensures Valid() && old(Value()).book.Valid() && Value() == old(Value()).AddBacktrace(Trace(originMsgNum, addrs))
    {
      hide Book.Attach, Indexed, Book.Valid, Roster.Valid;
      hide BookValid, RosterValid, BookValue, RosterValue, ChartValue, MemoryStats.Value;
      ValidValue();
      AttachIndexed(BookValue(), Trace(originMsgNum, addrs));
      AttachBacktrace(originMsgNum, addrs);
      globalStats.CountMessage();
    }

    method AddSymbolInfos(infos: SymbolInfos)
      requires Valid()
      modifies this`listSymbolInfos, globalStats`messageCount
      ensures Valid() && Value() == old(Value()).AddSymbolInfos(infos)
    {
      hide Indexed, Book.Valid, Roster.Valid;
      hide BookValid, RosterValid, BookValue, RosterValue, ChartValue, MemoryStats.Value;
      if infos.addr !in listSymbolInfos {
        listSymbolInfos := listSymbolInfos[infos.addr := infos];
      }
      globalStats.CountMessage();
    }

    // ---- The handler of the receiver ----

    method OnHandlerCall(call: HandlerCall)
      requires Valid()
      modifies this, listMemoryOperation, made, globalStats, globalStats.memoryUsage, searchStats,
        searchStats.memoryUsage
      ensures Valid() && old(Value()).Valid() && Value() == old(Value()).Handle(call)
    {
      hide Ledger.AddMemoryOperation, Ledger.UpdateThreadInfos, Ledger.AddBacktrace, Ledger.AddSymbolInfos,
           Ledger.ClearData, Indexed;
      ValidValue();
      match call
      case OnNewConnection =>
        ClearData();
        globalStats.CountMessage();
      case OnMemoryOperation(h, size, ptr, num, freePtr) =>
        var operation := new MemoryOperation(h, size, ptr, num, freePtr);
        AddMemoryOperation(operation);
      case OnThreadOperation(h, id, name) =>
        UpdateThreadInfos(h, id, name);
      case OnBacktrace(origin, addrs) =>
        AddBacktrace(origin, addrs);
      case OnSymbolInfos(infos) =>
        AddSymbolInfos(infos);
    }

    // ---- The filter ----

    method OnFilterButtonClicked(c: Criteria)
      requires BookValid() && StatsValid()
      modifies this`listFilterMemoryOperation, searchStats, searchStats.memoryUsage
      ensures BookValue() == old(BookValue()) && globalStats.Value() == old(globalStats.Value())
      ensures listFilterMemoryOperation == View(listMemoryOperation, Positions(BookValue().ops, Accepts(c)))
      ensures searchStats.Value() == Scan(old(searchStats.Value()), Selected(BookValue().ops, c))
    {
      hide Note, Positions, View, Stats.Reset;
      ghost var ops, s0 := OpValues(listMemoryOperation), searchStats.Value();
      searchStats.Reset();
      listFilterMemoryOperation := [];
      PassNothing(listMemoryOperation, ops, c, s0);
      var i := 0;
      while i < |listMemoryOperation|
        invariant i <= |listMemoryOperation| && OpValues(listMemoryOperation) == ops
        invariant InRange(Positions(ops[..i], Accepts(c)), i)
        invariant listFilterMemoryOperation == View(listMemoryOperation, Positions(ops[..i], Accepts(c)))
        invariant searchStats.Value() == Scan(s0, View(ops, Positions(ops[..i], Accepts(c))))
      {
        var operation := listMemoryOperation[i];
        var accept := Accept(c, operation);
        PassStep(listMemoryOperation, ops, c, s0, i);
        if accept {
          NoteOperation(operation);
          listFilterMemoryOperation := listFilterMemoryOperation + [operation];
        }
        i := i + 1;
      }
      assert ops[..i] == ops;
    }

    method Accept(c: Criteria, operation: MemoryOperation) returns (accept: bool)
      ensures accept == Accepted(c, operation.Value())
    {
      accept := true;
      if c.notFreedOnly {
        if operation.msgCode == CODE_FREE {
          accept := false;
        }
        if operation.freed {
          accept := false;
        }
      }
      if c.threadId > 0 {
        if operation.callerThreadId != c.threadId {
          accept := false;
        }
      }
      if IsSet(c.earliest) {
        if IsBefore(operation.time, c.earliest) {
          accept := false;
        }
      }
      if IsSet(c.latest) {
        if IsBefore(c.latest, operation.time) {
          accept := false;
        }
      }
    }

    method NoteOperation(operation: MemoryOperation)
      modifies searchStats
      ensures searchStats.Value() == Note(old(searchStats.Value()), operation.Value())
    {
      searchStats.AddSize(operation.allocSize);
      if operation.freed {
        searchStats.TakeSize(operation.allocSize);
      }
      searchStats.CountCall(operation.msgCode, operation.freePtr);
    }

    // ---- The chart ----

    /** What has changed since the last update goes into a table of its own. */
    method CollectUpdate(start: nat) returns (update: MemoryUsage, lastSize: nat)
      requires 0 < start
      ensures fresh(update)
      ensures var u := globalStats.memoryUsage.Table();
        update.Table() == TableOf(Fresh(u, ChartValue(), start, u.lastTime)) &&
          lastSize == LastSize(u, start, u.lastTime)
    {
      hide Usage.Update, Fresh, LastSize, TableOf;
      update := new MemoryUsage();
      lastSize := 0;
      ghost var u, c := globalStats.memoryUsage.Table(), ChartValue();
      ghost var points := Fresh(u, c, start, start - 1);
      NothingFresh(u, c, start, start - 1);
      var i := start;
      while i <= globalStats.memoryUsage.lastTime
        invariant start <= i && (i <= u.lastTime + 1 || i == start)
        invariant globalStats.memoryUsage.Table() == u && ChartValue() == c
        invariant fresh(update) && update.Table() == TableOf(points) && points == Fresh(u, c, start, i - 1)
        invariant lastSize == LastSize(u, start, i - 1)
      {
        FreshSnoc(u, c, start, i - 1);
        LastSizeStep(u, start, i);
        TableOfSnoc(points, u, c, i);
        points := points + FreshAt(u, c, i);
        if globalStats.memoryUsage.Contains(i) {
          var size := globalStats.memoryUsage.Value(i);
          if i == lastUpdateTime {
            if lastUpdateValue != size {
              update.Update(i, size);
            }
          } else {
            update.Update(i, size);
          }
          lastSize := size;
        }
        i := i + 1;
      }
      if u.lastTime < start {
        NothingFresh(u, c, start, u.lastTime);
      }
    }

    method AppendPoints(update: MemoryUsage, rangeStart: nat, rangeTop: nat)
      requires 0 < update.firstTime <= update.lastTime
      modifies `lineSeries
      ensures var v := update.Table();
        lineSeries == old(lineSeries) + Plot(Fresh(v, NoChart(), v.firstTime, v.lastTime), rangeStart, rangeTop)
    {
      hide Fresh, Plot;
      ghost var v := update.Table();
      var time := update.firstTime;
      NothingFresh(v, NoChart(), time, time - 1);
      while time <= update.lastTime
        invariant update.firstTime <= time <= update.lastTime + 1 && update.Table() == v
        invariant lineSeries == old(lineSeries) + Plot(Fresh(v, NoChart(), v.firstTime, time - 1), rangeStart, rangeTop)
      {
        ghost var at := FreshAt(v, NoChart(), time);
        FreshSnoc(v, NoChart(), v.firstTime, time - 1);
        PlotConcat(Fresh(v, NoChart(), v.firstTime, time - 1), at, rangeStart, rangeTop);
        PlotAt(at, rangeStart, rangeTop);
        if update.Contains(time) {
          var size := update.Value(time);
          lineSeries := lineSeries + [Point(time, size, rangeStart, rangeTop)];
        }
        time := time + 1;
      }
    }

    method PublishChart(rangeStart: nat, rangeTop: nat)
      modifies `lastUpdateTime, `lastUpdateValue, `lineSeries
      ensures ChartValue() == Tick(globalStats.memoryUsage.Table(), old(ChartValue()), rangeStart, rangeTop)
    {
      hide TableOf, Fresh, Plot, LastSize;
      ghost var u, c := globalStats.memoryUsage.Table(), ChartValue();
      var start := if lastUpdateTime == 0 then globalStats.memoryUsage.firstTime else lastUpdateTime;
      if start != 0 {
        var update, lastSize := CollectUpdate(start);
        Collected(u, c, start, u.lastTime);
        Republished(u, c, start, u.lastTime);
        if update.Count() > 0 {
          lastUpdateTime := update.lastTime;
          lastUpdateValue := lastSize;
        }
        if update.Count() != 0 {
          AppendPoints(update, rangeStart, rangeTop);
        }
      }
    }

    /** The part of the timer that publishes the chart. */
    method OnTimerUpdate()
      requires Valid()
      modifies `lastUpdateTime, `lastUpdateValue, `lineSeries
      ensures Valid() && Value() == old(Value()).Publish()
    {
      hide BookValid, RosterValid, BookValue, RosterValue, ChartValue, Indexed, Tick;
      PublishChart(globalStats.startTime.sec, globalStats.peakRemainingSize);
    }
  }
}
