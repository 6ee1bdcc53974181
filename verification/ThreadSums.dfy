/** The sizes shown for the threads of a session add up, whatever the order of the message numbers. */
module ThreadSums {
  import opened Words
  import opened Lists
  import opened Messages
  import opened Operations
  import opened Threads
  import opened Ledger
  import opened Totals
  import opened Charging

  function CurrentSize(e: Entry): (n: nat) { e.currentSize }

  /** What an operation with an address holds. */
  function HoldingSize(o: Operation): (n: nat) {
    if o.allocPtr != 0 && !o.freed then o.allocSize else 0
  }

  /** What an operation without an address would hold. */
  function NowhereSize(o: Operation): (n: nat) {
    if o.allocPtr == 0 && !o.freed then o.allocSize else 0
  }

  /** The sizes of the threads listed, added up. */
  function ListedSize(r: Roster): (n: nat)
    requires r.Valid()
  {
    Total(View(r.entries, r.listed), CurrentSize)
  }

  /** The threads listed hold what the operations hold. */
  ghost predicate SumsUp(r: Roster, ops: seq<Operation>)
    requires r.Valid()
  {
    ListedSize(r) % M64 == Total(ops, HoldingSize) % M64
  }

  lemma ListedIsSuffix(r: Roster, base: nat)
    requires r.Valid() && InSession(r, base)
    ensures View(r.entries, r.listed) == r.entries[base..]
  {
  }

  lemma WithListed(r: Roster, base: nat, i: nat, e: Entry)
    requires r.Valid() && InSession(r, base) && base <= i < |r.entries|
    ensures InSession(r.With(i, e), base)
    ensures ListedSize(r.With(i, e)) + r.entries[i].currentSize == ListedSize(r) + e.currentSize
  {
    ListedIsSuffix(r, base);
    ListedIsSuffix(r.With(i, e), base);
    TotalUpdate(r.entries[base..], i - base, e, CurrentSize);
    assert r.With(i, e).entries[base..] == r.entries[base..][i - base := e];
  }

  lemma GetListed(r: Roster, base: nat, id: nat, isCreation: bool, time: Timeval)
    requires r.Valid() && InSession(r, base)
    ensures ListedSize(r.Get(id, isCreation, time).0) == ListedSize(r)
  {
    var g := r.Get(id, isCreation, time).0;
    GetInSession(r, base, id, isCreation, time);
    GetKeepsEntries(r, id, isCreation, time);
    var v, w := View(r.entries, r.listed), View(g.entries, g.listed);
    if |g.entries| == |r.entries| {
      assert v == w;
    } else {
      assert w[..|w| - 1] == w[..|v|];
      SameSizes(v, w[..|v|]);
      assert w[|w| - 1] == g.entries[|r.entries|];
    }
  }

  lemma {:induction false} SameSizes(v: seq<Entry>, w: seq<Entry>)
    requires |v| == |w| && forall k :: 0 <= k < |v| ==> v[k].currentSize == w[k].currentSize
    ensures Total(v, CurrentSize) == Total(w, CurrentSize)
  {
    if v == [] {
    } else {
      var a, b := v[..|v| - 1], w[..|w| - 1];
      forall k | 0 <= k < |a| ensures a[k].currentSize == b[k].currentSize {
        assert v[k].currentSize == w[k].currentSize;
      }
      SameSizes(a, b);
    }
  }

  lemma AddAllocListed(r: Roster, base: nat, id: nat, num: nat, size: nat, time: Timeval)
    requires r.Valid() && InSession(r, base)
    ensures InSession(r.AddAlloc(id, num, size, time), base)
    ensures ListedSize(r.AddAlloc(id, num, size, time)) % M64 == (ListedSize(r) + size) % M64
  {
    hide Roster.Get, ListedSize;
    var (g, i) := r.Get(id, false, time);
    GetInSession(r, base, id, false, time);
    GetListed(r, base, id, false, time);
    var e := g.entries[i];
    WithListed(g, base, i, Charged(e, num, size));
    TermAtMost(g, base, i);
    Carry(ListedSize(g), e.currentSize, (e.currentSize + size) % M64, size);
  }

  /** Replacing one term of a sum by what it becomes modulo 2 to the 64. */
  lemma Carry(sum: nat, term: nat, next: nat, change: int)
    requires term <= sum && next == (term + change) % M64
    ensures (sum - term + next) % M64 == (sum + change) % M64
  {
    var q := (term + change) / M64;
    assert term + change == q * M64 + next;
    ModShift(sum - term + next, q, M64);
  }

  lemma OwnerInSession(r: Roster, base: nat, id: nat, num: nat)
    requires r.Valid() && InSession(r, base)
    ensures r.Owner(id, num).Some? ==> base <= r.Owner(id, num).value
  {
    var a := First(View(r.entries, r.alive), HasWindow(id, num));
    if a.Some? { assert r.alive[a.value] in r.alive; }
  }

  lemma AddFreeListed(r: Roster, base: nat, id: nat, num: nat, size: nat, time: Timeval)
    requires r.Valid() && InSession(r, base)
    ensures InSession(r.AddFree(id, num, size, time), base)
    ensures ListedSize(r.AddFree(id, num, size, time)) % M64 == (ListedSize(r) - size) % M64
  {
    hide Roster.Get, Roster.Owner, ListedSize;
    OwnerInSession(r, base, id, num);
    GetInSession(r, base, id, false, time);
    GetListed(r, base, id, false, time);
    var g := if r.Owner(id, num).Some? then (r, r.Owner(id, num).value) else r.Get(id, false, time);
    var e := g.0.entries[g.1];
    WithListed(g.0, base, g.1, Discharged(e, size));
    TermAtMost(g.0, base, g.1);
    Carry(ListedSize(g.0), e.currentSize, (e.currentSize - size) % M64, 0 - size);
  }

  lemma TermAtMost(r: Roster, base: nat, i: nat)
    requires r.Valid() && InSession(r, base) && base <= i < |r.entries|
    ensures r.entries[i].currentSize <= ListedSize(r)
  {
    WithListed(r, base, i, r.entries[i].(currentSize := 0));
  }

  lemma AddSums(l: Ledger, base: nat, o: Operation)
    requires l.Valid() && InSession(l.roster, base) && SumsUp(l.roster, l.book.ops) && !o.freed && o.backtrace.None?
    ensures var l' := l.AddMemoryOperation(o); InSession(l'.roster, base) && SumsUp(l'.roster, l'.book.ops)
  {
    hide ListedSize, Roster.AddFree, Roster.AddAlloc, Book.Add, Total, Stats.Record, InSession;
    var j := l.book.Freed(o.freePtr);
    AddTotal(l.book, o, HoldingSize);
    var total, next := Total(l.book.ops, HoldingSize), Total(l.book.Add(o).ops, HoldingSize);
    var r, freedSize := l.roster, 0;
    if j.Some? {
      var p := l.book.ops[j.value];
      FreedIsLive(l.book, o.freePtr);
      AddFreeListed(r, base, p.callerThreadId, p.msgNum, p.allocSize, o.time);
      r, freedSize := r.AddFree(p.callerThreadId, p.msgNum, p.allocSize, o.time), p.allocSize;
      assert freedSize <= total by { TotalAtLeast(l.book.ops, j.value, HoldingSize); }
      SameMod(ListedSize(l.roster), total, -freedSize);
    }
    assert ListedSize(r) % M64 == (total - freedSize) % M64;
    if o.allocPtr != 0 {
      AddAllocListed(r, base, o.callerThreadId, o.msgNum, o.allocSize, o.time);
      SameMod(ListedSize(r), total - freedSize, o.allocSize);
    }
  }

  lemma SameMod(a: nat, b: nat, change: int)
    requires a % M64 == b % M64
    ensures (a + change) % M64 == (b + change) % M64
  {
    var p, q := a / M64, b / M64;
    assert a == p * M64 + a % M64 && b == q * M64 + b % M64;
    ModShift(b + change, p - q, M64);
    assert a + change == b + change + (p - q) * M64;
  }

  /** One connection: no call opens a new one. */
  predicate OneConnection(calls: seq<HandlerCall>) {
    forall i :: 0 <= i < |calls| ==> !calls[i].OnNewConnection?
  }

  /** In a session that starts with no thread alive, and for any message numbers, the sizes of the threads listed add up
      to what the operations with an address hold. */
  lemma {:induction false} SessionSums(l: Ledger, calls: seq<HandlerCall>)
    requires FreshSession(l) && OneConnection(calls)
    ensures InSession(Run(l, calls).roster, |l.roster.entries|)
    ensures SumsUp(Run(l, calls).roster, Run(l, calls).book.ops)
  {
    var base := |l.roster.entries|;
    if calls == [] {
    } else {
      hide SumsUp, Roster.Get, Book.Attach, InSession;
      var front := calls[..|calls| - 1];
      assert OneConnection(front);
      var before := Run(l, front);
      SessionSums(l, front);
      match calls[|calls| - 1]
      case OnNewConnection =>
      case OnMemoryOperation(h, size, ptr, num, freePtr) => AddSums(before, base,
        NewOperation(h, size, ptr, num, freePtr));
      case OnThreadOperation(h, id, name) => ThreadSums(before, base, h, id, name);
      case OnBacktrace(origin, addrs) => AttachSums(before, Trace(origin, addrs));
      case OnSymbolInfos(_) =>
    }
  }

  lemma ThreadSums(l: Ledger, base: nat, h: Header, id: nat, name: seq<nat>)
    requires l.Valid() && InSession(l.roster, base) && SumsUp(l.roster, l.book.ops)
    ensures var l' := l.UpdateThreadInfos(h, id, name); InSession(l'.roster, base) && SumsUp(l'.roster, l'.book.ops)
  {
    hide ListedSize, Roster.Get;
    var time := Timeval(h.timeSec, h.timeUsec);
    var isCreation := h.msgCode == CODE_PTHREAD_CREATE;
    GetInSession(l.roster, base, id, isCreation, time);
    GetListed(l.roster, base, id, isCreation, time);
    var (g, i) := l.roster.Get(id, isCreation, time);
    WithListed(g, base, i, g.entries[i].(creationMsgNum := h.msgNum, lastAllocMsgNum := h.msgNum));
    WithListed(g, base, i, g.entries[i].(threadName := name));
  }

  lemma AttachSums(l: Ledger, trace: Trace)
    requires l.Valid() && SumsUp(l.roster, l.book.ops)
    ensures SumsUp(l.roster, l.book.Attach(trace).ops)
  {
    AttachTotal(l.book, trace, HoldingSize);
  }

  /** What is listed for the threads is what remains, exactly if the operations without an address hold nothing. */
  lemma ListedIsRemainingExactly(l: Ledger, calls: seq<HandlerCall>)
    requires FreshSession(l) && Tallies(l.stats, l.book.ops) && OneConnection(calls)
    ensures var s := Run(l, calls);
      ListedSize(s.roster) % M64 == s.stats.totalRemainingSize
      <==> Total(s.book.ops, NowhereSize) % M64 == 0
  {
    hide Run, Total, InSession, ListedSize, Counts.Of;
    SessionSums(l, calls);
    RunTallies(l, calls);
    var ops := Run(l, calls).book.ops;
    TotalSum(ops, LiveSize, HoldingSize, NowhereSize);
    EqualMod(Total(ops, HoldingSize), Total(ops, LiveSize));
  }

  /** The first connection of a new controller starts such a session. */
  lemma FirstConnection()
    ensures var l := NewLedger().Handle(OnNewConnection); FreshSession(l) && Tallies(l.stats, l.book.ops)
  {
    TalliesNothing(NewLedger().Handle(OnNewConnection).stats);
  }

  lemma EqualMod(a: nat, b: nat)
    requires a <= b
    ensures a % M64 == b % M64 <==> (b - a) % M64 == 0
  {
    var p, q := a / M64, b / M64;
    assert a == p * M64 + a % M64 && b == q * M64 + b % M64;
    if a % M64 == b % M64 {
      ModShift(0, q - p, M64);
      assert b - a == (q - p) * M64;
    }
    var d := (b - a) / M64;
    if (b - a) % M64 == 0 {
      assert b == a + d * M64;
      ModShift(a, d, M64);
    }
  }

  // ---- The second connection ----

  /** Whatever follows this connection, the threads listed hold what the operations hold. */
  ghost predicate SumsUpFrom(l: Ledger)
    requires l.Valid()
  {
    forall calls :: OneConnection(calls) ==> SumsUp(Run(l, calls).roster, Run(l, calls).book.ops)
  }

  /** An allocation of one byte by a thread. */
  function OneByte(id: nat): (call: HandlerCall) {
    OnMemoryOperation(Header(1, 0, id, 1, CODE_MALLOC), 1, 1, 1, 0)
  }

  /** A new connection does not clear the list of threads alive. After it the thread sizes can be relied on exactly if
      that list was empty: a thread left in it is charged without being listed. */
  lemma NewConnectionExactly(l: Ledger)
    requires l.Valid()
    ensures SumsUpFrom(l.Handle(OnNewConnection)) <==> l.roster.alive == []
  {
    var s := l.Handle(OnNewConnection);
    if l.roster.alive == [] {
      forall calls | OneConnection(calls) ensures SumsUp(Run(s, calls).roster, Run(s, calls).book.ops) {
        SessionSums(s, calls);
      }
    } else {
      var id := l.roster.entries[l.roster.alive[0]].threadId;
      var calls := [OneByte(id)];
      assert calls[..0] == [];
      assert Run(s, calls) == s.Handle(OneByte(id));
      UnlistedCharge(s, id);
      assert !SumsUp(Run(s, calls).roster, Run(s, calls).book.ops);
    }
  }

  lemma UnlistedCharge(s: Ledger, id: nat)
    requires s.Valid() && s.book == NoBook() && s.roster.listed == [] && s.roster.AliveAt(id).Some?
    ensures !SumsUp(s.Handle(OneByte(id)).roster, s.Handle(OneByte(id)).book.ops)
  {
    hide Ledger.Handle;
    ChargeAlone(s, id);
    var l := s.Handle(OneByte(id));
    assert ListedSize(l.roster) == 0;
    assert l.book.ops[..0] == [];
    assert Total(l.book.ops, HoldingSize) == 1;
  }

  lemma ChargeAlone(s: Ledger, id: nat)
    requires s.Valid() && s.book == NoBook() && s.roster.listed == [] && s.roster.AliveAt(id).Some?
    ensures var l := s.Handle(OneByte(id));
      l.roster.listed == [] && |l.book.ops| == 1 && HoldingSize(l.book.ops[0]) == 1
  {
    hide Roster.AliveAt, Stats.Record;
  }
}
