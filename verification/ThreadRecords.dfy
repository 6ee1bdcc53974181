/** What the thread entries record over a run: peaks, numbers of allocations, names, and beginnings and ends. */
module ThreadRecords {
  import opened Sequences
  import opened Words
  import opened Messages
  import opened Operations
  import opened Threads
  import opened UsageChart
  import opened Ledger
  import opened Charging

  // ---- Who is alive ----

  /** Just the entries that have not ended are alive, one for each id that has any entry. */
  ghost predicate OneAlive(r: Roster) {
    && r.Valid()
    && (forall i :: 0 <= i < |r.entries| ==> (i in r.alive <==> !r.entries[i].terminated))
    && (forall p, q :: p in r.alive && q in r.alive && r.entries[p].threadId == r.entries[q].threadId ==> p == q)
    && (forall i :: 0 <= i < |r.entries| ==> HasAlive(r, r.entries[i].threadId))
  }

  ghost predicate HasAlive(r: Roster, id: nat) {
    exists p :: p in r.alive && p < |r.entries| && r.entries[p].threadId == id
  }

  predicate SameStory(e: Entry, e': Entry) {
    && e'.threadId == e.threadId && e'.threadName == e.threadName && e'.creation == e.creation
    && e'.terminated == e.terminated && e'.termination == e.termination
  }

  function DefaultName(r: Roster): (name: seq<nat>) { if r.listed == [] then MainName() else [] }

  lemma AliveFound(r: Roster, id: nat)
    requires r.Valid()
    ensures HasAlive(r, id) <==> r.AliveAt(id).Some?
  {
    if r.AliveAt(id).Some? {
      assert r.alive[r.AliveAt(id).value] in r.alive;
    } else {
      NoneAlive(r, id);
    }
  }

  lemma GetStory(r: Roster, id: nat, time: Timeval)
    requires OneAlive(r)
    ensures var (g, i) := r.Get(id, false, time);
      && OneAlive(g) && i in g.alive && g.entries[i].threadId == id && (forall p :: p in r.alive ==> p in g.alive)
      && g.entries == r.entries + (if HasAlive(r, id) then [] else [NewEntry(id, time, DefaultName(r))])
      && (HasAlive(r, id) ==> g == r) && (!HasAlive(r, id) ==> i == |r.entries|)
  {
    AliveFound(r, id);
    var (g, i) := r.Get(id, false, time);
    if r.AliveAt(id).Some? {
      assert i in r.alive;
    } else {
      NoneAlive(r, id);
      AppendedAlive(r, NewEntry(id, time, DefaultName(r)));
      assert g.alive[|r.alive|] == i;
    }
  }

  lemma AppendedAlive(r: Roster, e: Entry)
    requires OneAlive(r) && !e.terminated && forall p :: p in r.alive ==> r.entries[p].threadId != e.threadId
    ensures OneAlive(Appended(r, e))
  {
    var g := Appended(r, e);
    assert forall p :: p in g.alive <==> p in r.alive || p == |r.entries| by {
      assert g.alive[|r.alive|] == |r.entries|;
    }
    forall i | 0 <= i < |g.entries| ensures HasAlive(g, g.entries[i].threadId) {
      if i < |r.entries| {
        var p :| p in r.alive && p < |r.entries| && r.entries[p].threadId == r.entries[i].threadId;
        assert p in g.alive && g.entries[p].threadId == g.entries[i].threadId;
      } else {
        assert i in g.alive;
      }
    }
  }

  lemma SameStoryAlive(r: Roster, i: nat, e: Entry)
    requires OneAlive(r) && i < |r.entries| && e.threadId == r.entries[i].threadId
    requires e.terminated == r.entries[i].terminated
    ensures OneAlive(r.With(i, e))
  {
    var g := r.With(i, e);
    assert forall j :: 0 <= j < |r.entries| ==> g.entries[j].threadId == r.entries[j].threadId;
    forall j | 0 <= j < |g.entries| ensures HasAlive(g, g.entries[j].threadId) {
      var p :| p in r.alive && p < |r.entries| && r.entries[p].threadId == r.entries[j].threadId;
      assert g.entries[p].threadId == g.entries[j].threadId;
    }
  }

  lemma FreeStory(r: Roster, id: nat, num: nat, size: nat, time: Timeval)
    requires OneAlive(r) && HasAlive(r, id)
    ensures var g := r.AddFree(id, num, size, time);
      && OneAlive(g) && |g.entries| == |r.entries| && g.alive == r.alive && g.listed == r.listed
      && (forall j :: 0 <= j < |r.entries| ==>
        SameStory(r.entries[j], g.entries[j]) && SameRecord(r.entries[j], g.entries[j]))
  {
    hide OneAlive, HasAlive, Roster.Owner, Roster.Get;
    GetStory(r, id, time);
    ValidAlive(r);
    var i := if r.Owner(id, num).Some? then r.Owner(id, num).value else r.Get(id, false, time).1;
    assert r.AddFree(id, num, size, time) == r.With(i, Discharged(r.entries[i], size));
    SameStoryAlive(r, i, Discharged(r.entries[i], size));
  }

  lemma ValidAlive(r: Roster)
    requires OneAlive(r)
    ensures r.Valid()
  {
  }

  lemma AllocStory(r: Roster, id: nat, num: nat, size: nat, time: Timeval)
    requires OneAlive(r)
    ensures var g, i := r.AddAlloc(id, num, size, time), r.Get(id, false, time).1;
      && OneAlive(g) && HasAlive(g, id) && i < |g.entries| && (forall p :: p in r.alive ==> p in g.alive)
      && |g.entries| == |r.entries| + (if HasAlive(r, id) then 0 else 1)
      && (forall j :: 0 <= j < |r.entries| ==> SameStory(r.entries[j], g.entries[j]))
      && (forall j :: |r.entries| <= j < |g.entries| ==> SameStory(NewEntry(id, time, DefaultName(r)), g.entries[j]))
      && (forall j :: 0 <= j < |g.entries| && j != i ==> j < |r.entries| && SameRecord(r.entries[j], g.entries[j]))
      && ChargeRecorded(if i < |r.entries| then r.entries[i] else NewEntry(id, time, DefaultName(r)), g.entries[i])
  {
    hide OneAlive, HasAlive;
    ValidAlive(r);
    GetStory(r, id, time);
    var (g, i) := r.Get(id, false, time);
    ValidAlive(g);
    SameStoryAlive(g, i, Charged(g.entries[i], num, size));
    AliveHas(g.With(i, Charged(g.entries[i], num, size)), i, id);
  }

  lemma AliveHas(r: Roster, i: nat, id: nat)
    requires i in r.alive && i < |r.entries| && r.entries[i].threadId == id
    ensures HasAlive(r, id)
  {
  }

  predicate SameRecord(e: Entry, e': Entry) {
    e'.peakSize == e.peakSize && e'.totalAllocCount == e.totalAllocCount
  }

  /** What a charge does to the records of an entry. */
  predicate ChargeRecorded(e: Entry, e': Entry) {
    && e'.peakSize == Max(e.peakSize, e'.currentSize)
    && e'.totalAllocCount == (e.totalAllocCount + 1) % M32
  }

  // ---- One call ----

  /** The thread of every operation that has an address has an entry that is alive. */
  ghost predicate Crewed(l: Ledger) {
    && l.Valid() && OneAlive(l.roster)
    && forall k :: 0 <= k < |l.book.ops| && l.book.ops[k].allocPtr != 0 ==>
      HasAlive(l.roster, l.book.ops[k].callerThreadId)
  }

  predicate IsCreationOf(call: HandlerCall, id: nat) {
    call.OnThreadOperation? && call.header.msgCode == CODE_PTHREAD_CREATE && call.threadId == id
  }

  predicate IsNamingOf(call: HandlerCall, id: nat) {
    call.OnThreadOperation? && call.header.msgCode == CODE_PTHREAD_SET_NAME && call.threadId == id
  }

  function TimeOf(call: HandlerCall): (time: Timeval) {
    match call
    case OnMemoryOperation(h, _, _, _, _) => Timeval(h.timeSec, h.timeUsec)
    case OnThreadOperation(h, _, _) => Timeval(h.timeSec, h.timeUsec)
    case _ => Timeval(0, 0)
  }

  /** The entry that a call charges, if it allocates. */
  function ChargedBy(l: Ledger, call: HandlerCall): (place: Option<nat>)
    requires l.Valid()
  {
    match call
    case OnMemoryOperation(h, size, ptr, num, freePtr) =>
      if ptr != 0 then Some(Home(l, NewOperation(h, size, ptr, num, freePtr))) else None
    case _ => None
  }

  /** What a call does to an entry that was there. */
  predicate Told(e: Entry, e': Entry, call: HandlerCall) {
    && e'.threadId == e.threadId && e'.creation == e.creation
    && e'.threadName == (if IsNamingOf(call, e.threadId) && !e.terminated then call.threadName else e.threadName)
    && (if IsCreationOf(call, e.threadId) && !e.terminated then e'.terminated && e'.termination == TimeOf(call)
        else e'.terminated == e.terminated && e'.termination == e.termination)
  }

  /** An entry that a call makes. */
  predicate Begun(e: Entry, call: HandlerCall, name: seq<nat>) {
    && e.creation == TimeOf(call) && !e.terminated && e.termination == Timeval(0, 0)
    && e.threadName == if IsNamingOf(call, e.threadId) then call.threadName else name
  }

  ghost predicate AllTold(r: Roster, r': Roster, call: HandlerCall) {
    && |r.entries| <= |r'.entries| <= |r.entries| + 1
    && (forall i :: 0 <= i < |r.entries| ==> Told(r.entries[i], r'.entries[i], call))
    && (forall i :: |r.entries| <= i < |r'.entries| ==> Begun(r'.entries[i], call, DefaultName(r)))
  }

  ghost predicate AllRecorded(r: Roster, r': Roster, charged: Option<nat>) {
    && |r.entries| <= |r'.entries|
    && forall i :: 0 <= i < |r'.entries| ==>
         var before := if i < |r.entries| then r.entries[i] else NewEntry(0, Timeval(0, 0), []);
         if charged == Some(i) then ChargeRecorded(before, r'.entries[i]) else SameRecord(before, r'.entries[i])
  }

  ghost predicate AllSame(r: Roster, r': Roster) {
    && |r'.entries| == |r.entries| && r'.alive == r.alive && r'.listed == r.listed
    && forall j :: 0 <= j < |r.entries| ==>
         SameStory(r.entries[j], r'.entries[j]) && SameRecord(r.entries[j], r'.entries[j])
  }

  lemma MemoryTold(l: Ledger, call: HandlerCall)
    requires Crewed(l) && call.OnMemoryOperation?
    ensures var l' := l.Handle(call);
      Crewed(l') && AllTold(l.roster, l'.roster, call) && AllRecorded(l.roster, l'.roster, ChargedBy(l, call))
  {
    hide OneAlive, HasAlive, Roster.AddAlloc, Roster.AddFree, Roster.Get, Stats.Record, Book.Release, AllTold,
      AllRecorded,
      AllSame, KeepsCrew, Ledger.Taken;
    var o := NewOperation(call.header, call.allocSize, call.allocPtr, call.allocNum, call.freePtr);
    TakenStory(l, o);
    var r := l.Taken(o);
    if o.allocPtr != 0 {
      AllocTold(l.roster, r, o.callerThreadId, o.msgNum, o.allocSize, o.time, call);
    } else {
      SameTold(l.roster, r, call);
    }
    var l' := l.Handle(call);
    assert l'.roster == if o.allocPtr == 0 then r else r.AddAlloc(o.callerThreadId, o.msgNum, o.allocSize, o.time);
    ReleaseSame(l.book, o.freePtr);
    forall k | 0 <= k < |l'.book.ops| && l'.book.ops[k].allocPtr != 0
      ensures HasAlive(l'.roster, l'.book.ops[k].callerThreadId)
    {
      if k < |l.book.ops| { KeptCrew(l.roster, l'.roster, l.book.ops[k].callerThreadId); }
    }
  }

  lemma KeptCrew(r: Roster, r': Roster, id: nat)
    requires KeepsCrew(r, r') && HasAlive(r, id)
    ensures HasAlive(r', id)
  {
  }

  lemma SameTold(r: Roster, r': Roster, call: HandlerCall)
    requires AllSame(r, r') && call.OnMemoryOperation?
    ensures AllTold(r, r', call) && AllRecorded(r, r', None) && KeepsCrew(r, r')
  {
    forall id: nat | HasAlive(r, id) ensures HasAlive(r', id) { StaysAlive(r, r', id); }
  }

  lemma AllocTold(r0: Roster, r: Roster, id: nat, num: nat, size: nat, time: Timeval, call: HandlerCall)
    requires OneAlive(r) && AllSame(r0, r) && call.OnMemoryOperation? && TimeOf(call) == time
    ensures var r', i := r.AddAlloc(id, num, size, time), r.Get(id, false, time).1;
      && OneAlive(r') && AllTold(r0, r', call) && AllRecorded(r0, r', Some(i)) && KeepsCrew(r0, r') && HasAlive(r', id)
  {
    hide OneAlive, HasAlive, Roster.AddAlloc, Roster.Get;
    ValidAlive(r);
    AllocStory(r, id, num, size, time);
    var r' := r.AddAlloc(id, num, size, time);
    forall other: nat | HasAlive(r0, other) ensures HasAlive(r', other) { StaysAlive(r0, r', other); }
  }

  lemma TakenStory(l: Ledger, o: Operation)
    requires Crewed(l)
    ensures OneAlive(l.Taken(o)) && AllSame(l.roster, l.Taken(o))
  {
    hide OneAlive, HasAlive, Roster.AddFree;
    if l.FreedBy(o).Some? {
      FreedIsLive(l.book, o.freePtr);
      var f := l.FreedBy(o).value;
      FreeStory(l.roster, f.callerThreadId, f.msgNum, f.allocSize, o.time);
    }
  }

  lemma StaysAlive(r: Roster, r': Roster, id: nat)
    requires HasAlive(r, id) && |r.entries| <= |r'.entries| && forall p :: p in r.alive ==> p in r'.alive
    requires forall i :: 0 <= i < |r.entries| ==> r'.entries[i].threadId == r.entries[i].threadId
    ensures HasAlive(r', id)
  {
    var p :| p in r.alive && p < |r.entries| && r.entries[p].threadId == id;
    assert p in r'.alive && r'.entries[p].threadId == id;
  }

  /** A creation ends the entry of its id that is alive, and begins another. */
  lemma CreatedStory(r: Roster, id: nat, num: nat, time: Timeval, call: HandlerCall)
    requires OneAlive(r) && IsCreationOf(call, id) && TimeOf(call) == time
    ensures var r' := r.Created(id, num, time);
      OneAlive(r') && AllTold(r, r', call) && AllRecorded(r, r', None) && KeepsCrew(r, r')
  {
    hide Roster.Retire, OneAlive, HasAlive, AllTold, AllRecorded, KeepsCrew;
    ValidAlive(r);
    var q, r' := r.Retire(id, time), r.Created(id, num, time);
    RetireStory(r, id, time);
    var e := NewEntry(id, time, DefaultName(q)).(creationMsgNum := num, lastAllocMsgNum := num);
    assert r' == Appended(q, e);
    CreatedAlive(r, q, e);
    CreatedTold(r, q, e, call);
  }

  lemma CreatedTold(r: Roster, q: Roster, e: Entry, call: HandlerCall)
    requires |q.entries| == |r.entries| && q.listed == r.listed && IsCreationOf(call, e.threadId)
    requires forall i :: 0 <= i < |r.entries| ==>
      q.entries[i] == if r.entries[i].threadId == e.threadId && !r.entries[i].terminated
                      then r.entries[i].(terminated := true, termination := TimeOf(call)) else r.entries[i]
    requires Begun(e, call, DefaultName(q)) && e.peakSize == 0 && e.totalAllocCount == 0
    ensures AllTold(r, Appended(q, e), call) && AllRecorded(r, Appended(q, e), None)
  {
    var g := Appended(q, e);
    assert forall i :: 0 <= i < |r.entries| ==> g.entries[i] == q.entries[i];
  }

  ghost predicate KeepsCrew(r: Roster, r': Roster) {
    forall id: nat :: HasAlive(r, id) ==> HasAlive(r', id)
  }

  lemma RetireStory(r: Roster, id: nat, time: Timeval)
    requires OneAlive(r)
    ensures var q := r.Retire(id, time);
      && |q.entries| == |r.entries| && q.listed == r.listed && q.Valid()
      && (forall p :: p in q.alive <==> p in r.alive && r.entries[p].threadId != id)
      && (forall i :: 0 <= i < |r.entries| ==>
           q.entries[i] == if r.entries[i].threadId == id && !r.entries[i].terminated
                           then r.entries[i].(terminated := true, termination := time) else r.entries[i])
  {
    var k := r.AliveAt(id);
    if k.Some? {
      assert r.alive[k.value] in r.alive;
    } else {
      NoneAlive(r, id);
    }
  }

  lemma CreatedAlive(r: Roster, q: Roster, e: Entry)
    requires OneAlive(r) && q.Valid() && |q.entries| == |r.entries| && !e.terminated
    requires forall p :: p in q.alive <==> p in r.alive && r.entries[p].threadId != e.threadId
    requires forall i :: 0 <= i < |r.entries| ==>
      && q.entries[i].threadId == r.entries[i].threadId
      && (q.entries[i].terminated <==> r.entries[i].terminated || r.entries[i].threadId == e.threadId)
    ensures OneAlive(Appended(q, e)) && KeepsCrew(r, Appended(q, e))
  {
    var g := Appended(q, e);
    assert forall p :: p in g.alive <==>
      p in q.alive || p == |r.entries| by { assert g.alive[|q.alive|] == |r.entries|; }
    forall id: nat | HasAlive(r, id) || id == e.threadId ensures HasAlive(g, id) {
      if id == e.threadId {
        assert |r.entries| in g.alive && g.entries[|r.entries|].threadId == id;
      } else {
        var p :| p in r.alive && p < |r.entries| && r.entries[p].threadId == id;
        assert p in g.alive && g.entries[p].threadId == id;
      }
    }
  }

  lemma NamedStory(r: Roster, id: nat, name: seq<nat>, time: Timeval, call: HandlerCall)
    requires OneAlive(r) && IsNamingOf(call, id) && TimeOf(call) == time && call.threadName == name
    ensures var r' := r.Named(id, name, time);
      OneAlive(r') && AllTold(r, r', call) && AllRecorded(r, r', None) && KeepsCrew(r, r')
  {
    hide Roster.Get, OneAlive, HasAlive, AllTold, AllRecorded, KeepsCrew;
    ValidAlive(r);
    GetStory(r, id, time);
    var (g, i) := r.Get(id, false, time);
    ValidAlive(g);
    SameStoryAlive(g, i, g.entries[i].(threadName := name));
    AloneNamed(r, g, i, name, call);
  }

  lemma AloneNamed(r: Roster, g: Roster, i: nat, name: seq<nat>, call: HandlerCall)
    requires OneAlive(g) && i in g.alive && IsNamingOf(call, g.entries[i].threadId) && call.threadName == name
    requires (forall p :: p in r.alive ==> p in g.alive) && r.Valid()
    requires g.entries == r.entries || g.entries == r.entries + [NewEntry(call.threadId, TimeOf(call), DefaultName(r))]
    ensures var r' := g.With(i, g.entries[i].(threadName := name));
      AllTold(r, r', call) && AllRecorded(r, r', None) && KeepsCrew(r, r')
  {
    hide HasAlive, OneAlive, AllTold, AllRecorded;
    ValidAlive(g);
    var r' := g.With(i, g.entries[i].(threadName := name));
    OnlyAlive(g, i, call.threadId);
    NamedTold(r, g, i, call);
    NamedRecorded(r, g, i, NewEntry(call.threadId, TimeOf(call), DefaultName(r)), name);
    forall other: nat | HasAlive(r, other) ensures HasAlive(r', other) { StaysAlive(r, r', other); }
  }

  lemma OnlyAlive(g: Roster, i: nat, id: nat)
    requires OneAlive(g) && i in g.alive && g.entries[i].threadId == id
    ensures !g.entries[i].terminated
    ensures forall j :: 0 <= j < |g.entries| && !g.entries[j].terminated && g.entries[j].threadId == id ==> j == i
  {
    hide HasAlive;
  }

  lemma NamedTold(r: Roster, g: Roster, i: nat, call: HandlerCall)
    requires g.Valid() && i < |g.entries| && IsNamingOf(call, g.entries[i].threadId) && !g.entries[i].terminated
    requires forall j :: 0 <= j < |g.entries| && !g.entries[j].terminated && g.entries[j].threadId == call.threadId ==>
      j == i
    requires g.entries == r.entries || g.entries == r.entries + [NewEntry(call.threadId, TimeOf(call), DefaultName(r))]
    ensures AllTold(r, g.With(i, g.entries[i].(threadName := call.threadName)), call)
  {
    hide DefaultName, TimeOf;
    var r' := g.With(i, g.entries[i].(threadName := call.threadName));
    forall j | 0 <= j < |r.entries| ensures Told(r.entries[j], r'.entries[j], call) {
      assert g.entries[j] == r.entries[j];
    }
    if |r.entries| < |g.entries| {
      assert g.entries[|r.entries|] == NewEntry(call.threadId, TimeOf(call), DefaultName(r));
    }
  }

  lemma NamedRecorded(r: Roster, g: Roster, i: nat, e: Entry, name: seq<nat>)
    requires g.Valid() && i < |g.entries| && (g.entries == r.entries || g.entries == r.entries + [e])
    requires e.peakSize == e.totalAllocCount == 0
    ensures AllRecorded(r, g.With(i, g.entries[i].(threadName := name)), None)
  {
    var r' := g.With(i, g.entries[i].(threadName := name));
    forall j | 0 <= j < |r'.entries|
      ensures SameRecord(if j < |r.entries| then r.entries[j] else NewEntry(0, Timeval(0, 0), []), r'.entries[j])
    {
      if j < |r.entries| { assert g.entries[j] == r.entries[j]; } else { assert g.entries[j] == e; }
    }
  }

  lemma SeenStory(r: Roster, id: nat, time: Timeval, call: HandlerCall)
    requires OneAlive(r) && call.OnThreadOperation? && call.threadId == id && TimeOf(call) == time
    requires !IsCreationOf(call, id) && !IsNamingOf(call, id)
    ensures var r' := r.Get(id, false, time).0;
      OneAlive(r') && AllTold(r, r', call) && AllRecorded(r, r', None) && KeepsCrew(r, r')
  {
    hide Roster.Get, OneAlive, HasAlive;
    ValidAlive(r);
    GetStory(r, id, time);
    var r' := r.Get(id, false, time).0;
    forall other: nat | HasAlive(r, other) ensures HasAlive(r', other) { StaysAlive(r, r', other); }
  }

  lemma HandleTold(l: Ledger, call: HandlerCall)
    requires Crewed(l)
    ensures var l' := l.Handle(call);
      Crewed(l') && AllTold(l.roster, l'.roster, call) && AllRecorded(l.roster, l'.roster, ChargedBy(l, call))
  {
    match call
    case OnMemoryOperation(_, _, _, _, _) => MemoryTold(l, call);
    case OnThreadOperation(_, _, _) => ThreadTold(l, call);
    case _ => OtherTold(l, call);
  }

  lemma ThreadTold(l: Ledger, call: HandlerCall)
    requires Crewed(l) && call.OnThreadOperation?
    ensures var l' := l.Handle(call);
      Crewed(l') && AllTold(l.roster, l'.roster, call) && AllRecorded(l.roster, l'.roster, None)
  {
    hide OneAlive, HasAlive, AllTold, AllRecorded, KeepsCrew, Roster.Created, Roster.Named, Roster.Get;
    var h, id, time, l' := call.header, call.threadId, TimeOf(call), l.Handle(call);
    if h.msgCode == CODE_PTHREAD_CREATE { CreatedStory(l.roster, id, h.msgNum, time, call); }
    else if h.msgCode == CODE_PTHREAD_SET_NAME { NamedStory(l.roster, id, call.threadName, time, call); }
    else { SeenStory(l.roster, id, time, call); }
    forall k | 0 <= k < |l'.book.ops| && l'.book.ops[k].allocPtr != 0
      ensures HasAlive(l'.roster, l'.book.ops[k].callerThreadId)
    {
      KeptCrew(l.roster, l'.roster, l.book.ops[k].callerThreadId);
    }
  }

  lemma OtherTold(l: Ledger, call: HandlerCall)
    requires Crewed(l) && !call.OnMemoryOperation? && !call.OnThreadOperation?
    ensures var l' := l.Handle(call);
      Crewed(l') && AllTold(l.roster, l'.roster, call) && AllRecorded(l.roster, l'.roster, None)
  {
    hide OneAlive, HasAlive, Book.Attach;
    match call
    case OnBacktrace(origin, addrs) => AttachSame(l.book, Trace(origin, addrs));
    case OnNewConnection => ClearedAlive(l.roster);
    case OnSymbolInfos(_) =>
  }

  lemma ClearedAlive(r: Roster)
    requires OneAlive(r)
    ensures OneAlive(r.(listed := []))
  {
    var r' := r.(listed := []);
    forall i | 0 <= i < |r'.entries| ensures HasAlive(r', r'.entries[i].threadId) {
      StaysAlive(r, r', r.entries[i].threadId);
    }
  }

  // ---- Whole runs ----

  /** The server after some calls. */
  function After(calls: seq<HandlerCall>): (l: Ledger)
    ensures l.Valid()
  {
    Run(NewLedger(), calls)
  }

  lemma AfterNext(calls: seq<HandlerCall>)
    requires calls != []
    ensures After(calls) == After(calls[..|calls| - 1]).Handle(calls[|calls| - 1])
  {
    hide Ledger.Handle;
  }

  lemma {:induction false} RunCrewed(calls: seq<HandlerCall>)
    ensures Crewed(After(calls))
  {
    if calls == [] {
    } else {
      hide After, Crewed;
      RunCrewed(calls[..|calls| - 1]);
      AfterNext(calls);
      HandleTold(After(calls[..|calls| - 1]), calls[|calls| - 1]);
    }
  }

  function Entries(calls: seq<HandlerCall>): (entries: seq<Entry>) { After(calls).roster.entries }

  /** The highest size that an entry has had just after a charge. */
  function HighestCharge(calls: seq<HandlerCall>, i: nat): (size: nat) {
    if calls == [] then 0
    else
      var front := calls[..|calls| - 1];
      if ChargedBy(After(front), calls[|calls| - 1]) == Some(i) && i < |Entries(calls)|
      then Max(HighestCharge(front, i), Entries(calls)[i].currentSize) else HighestCharge(front, i)
  }

  /** The allocations charged to an entry. */
  function ChargeCount(calls: seq<HandlerCall>, i: nat): (n: nat) {
    if calls == [] then 0
    else
      var front := calls[..|calls| - 1];
      ChargeCount(front, i) + if ChargedBy(After(front), calls[|calls| - 1]) == Some(i) then 1 else 0
  }

  /** What the records of an entry are after some calls; none if there is no entry yet. */
  ghost predicate Recorded(calls: seq<HandlerCall>, i: nat) {
    if i < |Entries(calls)| then
      && Entries(calls)[i].peakSize == HighestCharge(calls, i)
      && Entries(calls)[i].totalAllocCount == ChargeCount(calls, i) % M32
    else HighestCharge(calls, i) == 0 && ChargeCount(calls, i) == 0
  }

  lemma RecordedNext(calls: seq<HandlerCall>, i: nat)
    requires calls != [] && Recorded(calls[..|calls| - 1], i)
    requires var front := calls[..|calls| - 1];
      AllRecorded(After(front).roster, After(calls).roster, ChargedBy(After(front), calls[|calls| - 1]))
    requires ChargedBy(After(calls[..|calls| - 1]), calls[|calls| - 1]) == Some(i) ==> i < |Entries(calls)|
    ensures Recorded(calls, i)
  {
    hide After, ChargedBy, AllRecorded, HighestCharge, ChargeCount;
    var front := calls[..|calls| - 1];
    RecordedAt(After(front).roster, After(calls).roster, ChargedBy(After(front), calls[|calls| - 1]), i);
    RecordsNext(calls, i);
    NextCount(ChargeCount(front, i));
  }

  lemma {:induction false} RunRecorded(calls: seq<HandlerCall>, i: nat)
    ensures Recorded(calls, i)
  {
    if calls == [] {
      NoEntries();
    } else {
      hide Recorded, After, Crewed, AllTold, AllRecorded, Ledger.Handle, ChargedBy;
      var front, last := calls[..|calls| - 1], calls[|calls| - 1];
      RunRecorded(front, i);
      RunCrewed(front);
      AfterNext(calls);
      HandleTold(After(front), last);
      ChargedInside(After(front), last);
      RecordedNext(calls, i);
    }
  }

  /** Over every run, connections included: the peak of an entry is the highest size it has had just after a charge, and
      its number of allocations is that of its charges, as a 32-bit number. */
  lemma EntryRecords(calls: seq<HandlerCall>, i: nat)
    requires i < |Entries(calls)|
    ensures Entries(calls)[i].peakSize == HighestCharge(calls, i)
    ensures Entries(calls)[i].totalAllocCount == ChargeCount(calls, i) % M32
  {
    hide Entries, HighestCharge, ChargeCount;
    RunRecorded(calls, i);
  }

  lemma NextCount(c: nat)
    ensures (c % M32 + 1) % M32 == (c + 1) % M32 && 0 % M32 == 0
  {
    ModAdd(c, 1, M32);
  }

  lemma RecordsNext(calls: seq<HandlerCall>, i: nat)
    requires calls != []
    ensures var front := calls[..|calls| - 1];
      var charged := ChargedBy(After(front), calls[|calls| - 1]) == Some(i);
      && HighestCharge(calls, i) == (if charged && i < |Entries(calls)|
                                     then Max(HighestCharge(front, i), Entries(calls)[i].currentSize)
                                     else HighestCharge(front, i))
      && ChargeCount(calls, i) == ChargeCount(front, i) + if charged then 1 else 0
  {
    hide After, ChargedBy;
  }

  lemma RecordedAt(r: Roster, r': Roster, charged: Option<nat>, i: nat)
    requires AllRecorded(r, r', charged)
    ensures |r.entries| <= |r'.entries|
    ensures i < |r'.entries| ==>
      var peak, count := if i < |r.entries| then r.entries[i].peakSize else 0,
                         if i < |r.entries| then r.entries[i].totalAllocCount else 0;
      && r'.entries[i].peakSize == (if charged == Some(i) then Max(peak, r'.entries[i].currentSize) else peak)
      && r'.entries[i].totalAllocCount == if charged == Some(i) then (count + 1) % M32 else count
  {
  }

  lemma ChargedInside(l: Ledger, call: HandlerCall)
    requires Crewed(l)
    ensures var i := ChargedBy(l, call); i.Some? ==> i.value < |l.Handle(call).roster.entries|
  {
    hide OneAlive, HasAlive, Roster.AddAlloc, Roster.AddFree, Roster.Get, Stats.Record, Book.Release, Ledger.Taken,
      AllSame;
    if call.OnMemoryOperation? {
      var o := NewOperation(call.header, call.allocSize, call.allocPtr, call.allocNum, call.freePtr);
      TakenStory(l, o);
      AllocStory(l.Taken(o), o.callerThreadId, o.msgNum, o.allocSize, o.time);
    }
  }

  /** How many calls it took until the entry was there. */
  function Made(calls: seq<HandlerCall>, i: nat): (n: nat)
    requires i < |Entries(calls)|
    ensures n <= |calls|
  {
    if calls != [] && i < |Entries(calls[..|calls| - 1])| then Made(calls[..|calls| - 1], i) else |calls|
  }

  lemma MadeNext(calls: seq<HandlerCall>, i: nat)
    requires calls != [] && i < |Entries(calls)|
    ensures var front := calls[..|calls| - 1];
      Made(calls, i) == if i < |Entries(front)| then Made(front, i) else |calls|
  {
    hide Entries;
  }

  /** When a thread ended: with the first creation of its id after the first `n` calls. */
  function EndOf(calls: seq<HandlerCall>, n: nat, id: nat): (end: Option<Timeval>) {
    if |calls| <= n then None
    else
      var front, last := EndOf(calls[..|calls| - 1], n, id), calls[|calls| - 1];
      if front.Some? then front else if IsCreationOf(last, id) then Some(TimeOf(last)) else None
  }

  /** The last name given to a thread that the n-th call has made, until it ended. */
  function LastName(calls: seq<HandlerCall>, n: nat, id: nat, first: seq<nat>): (name: seq<nat>) {
    if calls == [] || |calls| < n then first
    else
      var front, last := calls[..|calls| - 1], calls[|calls| - 1];
      if IsNamingOf(last, id) && EndOf(front, n, id).None? then last.threadName else LastName(front, n, id, first)
  }

  /** The name it has from the start: the first one made since the last connection is called main. */
  function FirstName(calls: seq<HandlerCall>): (name: seq<nat>) {
    if MadeSince(calls) == 0 then MainName() else []
  }

  /** The entries made since the last connection. */
  function MadeSince(calls: seq<HandlerCall>): (n: int) {
    if calls == [] || calls[|calls| - 1].OnNewConnection? then 0
    else MadeSince(calls[..|calls| - 1]) + |Entries(calls)| - |Entries(calls[..|calls| - 1])|
  }

  lemma {:induction false} ListedSince(calls: seq<HandlerCall>)
    ensures |After(calls).roster.listed| == MadeSince(calls)
  {
    if calls == [] {
    } else {
      hide After, Ledger.Handle;
      ListedSince(calls[..|calls| - 1]);
      AfterNext(calls);
      HandleListed(After(calls[..|calls| - 1]), calls[|calls| - 1]);
    }
  }

  /** Each new entry is listed. */
  predicate AllListed(r: Roster, r': Roster) {
    |r'.listed| == |r.listed| + |r'.entries| - |r.entries|
  }

  lemma GetListed(r: Roster, id: nat, isCreation: bool, time: Timeval)
    requires r.Valid()
    ensures AllListed(r, r.Get(id, isCreation, time).0)
  {
    hide Roster.AliveAt;
  }

  lemma ChargeListed(r: Roster, id: nat, num: nat, size: nat, time: Timeval)
    requires r.Valid()
    ensures AllListed(r, r.AddAlloc(id, num, size, time)) && AllListed(r, r.AddFree(id, num, size, time))
  {
    hide Roster.Get, Roster.Owner;
    GetListed(r, id, false, time);
  }

  lemma HandleListed(l: Ledger, call: HandlerCall)
    requires l.Valid()
    ensures var r, r' := l.roster, l.Handle(call).roster;
      if call.OnNewConnection? then r'.listed == [] else AllListed(r, r')
  {
    hide Roster.Get, Roster.AddAlloc, Roster.AddFree, Stats.Record, Book.Release, Book.Freed, Book.Attach;
    match call
    case OnMemoryOperation(h, size, ptr, num, freePtr) =>
      MemoryListed(l, NewOperation(h, size, ptr, num, freePtr));
    case OnThreadOperation(h, id, _) =>
      GetListed(l.roster, id, true, Timeval(h.timeSec, h.timeUsec));
      GetListed(l.roster, id, false, Timeval(h.timeSec, h.timeUsec));
    case _ =>
  }

  lemma MemoryListed(l: Ledger, o: Operation)
    requires l.Valid()
    ensures AllListed(l.roster, l.AddMemoryOperation(o).roster)
  {
    hide Roster.AddAlloc, Roster.AddFree, Stats.Record, Book.Add;
    var freed := l.FreedBy(o);
    if freed.Some? {
      ChargeListed(l.roster, freed.value.callerThreadId, freed.value.msgNum, freed.value.allocSize, o.time);
    }
    ChargeListed(l.Taken(o), o.callerThreadId, o.msgNum, o.allocSize, o.time);
  }

  ghost predicate HasStory(e: Entry, calls: seq<HandlerCall>, n: nat, first: seq<nat>) {
    && e.threadName == LastName(calls, n, e.threadId, first)
    && (e.terminated <==> EndOf(calls, n, e.threadId).Some?)
    && e.termination == if e.terminated then EndOf(calls, n, e.threadId).value else Timeval(0, 0)
  }

  lemma StoryGoesOn(calls: seq<HandlerCall>, n: nat, first: seq<nat>, e: Entry, e': Entry)
    requires calls != [] && n < |calls| && HasStory(e, calls[..|calls| - 1], n, first) &&
      Told(e, e', calls[|calls| - 1])
    ensures HasStory(e', calls, n, first)
  {
  }

  lemma StoryBegins(calls: seq<HandlerCall>, first: seq<nat>, e: Entry)
    requires calls != [] && Begun(e, calls[|calls| - 1], first)
    ensures HasStory(e, calls, |calls|, first)
  {
    var front := calls[..|calls| - 1];
    assert EndOf(front, |calls|, e.threadId).None? && LastName(front, |calls|, e.threadId, first) == first;
  }

  lemma ToldAt(r: Roster, r': Roster, call: HandlerCall, i: nat)
    requires AllTold(r, r', call) && i < |r'.entries|
    ensures i < |r.entries| ==> Told(r.entries[i], r'.entries[i], call)
    ensures i < |r.entries| ==> r'.entries[i].creation == r.entries[i].creation
    ensures |r.entries| <= i ==> Begun(r'.entries[i], call, DefaultName(r)) && r'.entries[i].creation == TimeOf(call)
    ensures i < |r.entries| ==> r'.entries[i].threadId == r.entries[i].threadId
  {
  }

  ghost predicate StoryOf(calls: seq<HandlerCall>, i: nat)
    requires i < |Entries(calls)|
  {
    var e, n := Entries(calls)[i], Made(calls, i);
    0 < n <= |calls| && e.creation == TimeOf(calls[n - 1]) && HasStory(e, calls, n, FirstName(calls[..n - 1]))
  }

  lemma {:induction false} AllStories(calls: seq<HandlerCall>, i: nat)
    requires i < |Entries(calls)|
    ensures StoryOf(calls, i)
  {
    assert calls != [] by { NoEntries(); }
    hide Ledger.Handle, Crewed, StoryOf, Entries, AllTold;
    var front, last := calls[..|calls| - 1], calls[|calls| - 1];
    RunCrewed(front);
    AfterNext(calls);
    HandleTold(After(front), last);
    EntriesAfter(calls);
    EntriesAfter(front);
    ToldAt(After(front).roster, After(calls).roster, last, i);
    if i < |Entries(front)| {
      AllStories(front, i);
      EntryGoesOn(calls, i);
    } else {
      ListedSince(front);
      EntryBegins(calls, i);
    }
  }

  lemma EntriesAfter(calls: seq<HandlerCall>)
    ensures Entries(calls) == After(calls).roster.entries
  {
    hide After;
  }

  lemma EntryGoesOn(calls: seq<HandlerCall>, i: nat)
    requires calls != [] && i < |Entries(calls[..|calls| - 1])| && i < |Entries(calls)|
    requires StoryOf(calls[..|calls| - 1], i)
    requires Told(Entries(calls[..|calls| - 1])[i], Entries(calls)[i], calls[|calls| - 1])
    ensures StoryOf(calls, i)
  {
    hide Entries, Made, HasStory, FirstName;
    var front := calls[..|calls| - 1];
    var n := Made(front, i);
    MadeNext(calls, i);
    assert front[..n - 1] == calls[..n - 1];
    StoryGoesOn(calls, n, FirstName(calls[..n - 1]), Entries(front)[i], Entries(calls)[i]);
  }

  lemma EntryBegins(calls: seq<HandlerCall>, i: nat)
    requires calls != [] && |Entries(calls[..|calls| - 1])| <= i < |Entries(calls)|
    requires Begun(Entries(calls)[i], calls[|calls| - 1], FirstName(calls[..|calls| - 1]))
    ensures StoryOf(calls, i)
  {
    hide Entries, Made, HasStory, FirstName;
    MadeNext(calls, i);
    StoryBegins(calls, FirstName(calls[..|calls| - 1]), Entries(calls)[i]);
  }

  lemma NoEntries()
    ensures Entries([]) == []
  {
  }

  /** Over every run: an entry begins with the call that makes it, has the last name given to its thread while it has
      not ended, and has ended, at that time, just if a later creation of its id came. */
  lemma EntryStory(calls: seq<HandlerCall>, i: nat)
    requires i < |Entries(calls)|
    ensures var e, n := Entries(calls)[i], Made(calls, i);
      && 0 < n <= |calls| && e.creation == TimeOf(calls[n - 1])
      && e.threadName == LastName(calls, n, e.threadId, FirstName(calls[..n - 1]))
      && (e.terminated <==> EndOf(calls, n, e.threadId).Some?)
      && e.termination == if e.terminated then EndOf(calls, n, e.threadId).value else Timeval(0, 0)
  {
    hide Entries, Made, LastName, EndOf, FirstName;
    AllStories(calls, i);
  }
}
