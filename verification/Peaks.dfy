/** The peak, the usage table and the chart of the ledger, over whole runs of handler calls and timer ticks. */
module Peaks {
  import opened Sequences
  import opened Words
  import opened Lists
  import opened Messages
  import opened Operations
  import opened Threads
  import opened UsageChart
  import opened Ledger
  import opened Totals
  import opened Charging
  import opened Attribution

  datatype Event = Call(call: HandlerCall) | TimerTick

  function Play(events: seq<Event>): (l: Ledger)
    ensures l.Valid()
  {
    if events == [] then NewLedger()
    else
      After(Play(events[..|events| - 1]), events[|events| - 1])
  }

  /** The remaining size an operation leads to before anything is taken off. */
  function Level(l: Ledger, call: HandlerCall): (level: Option<nat>) {
    if call.OnMemoryOperation? then Some(Add64(l.stats.totalRemainingSize, call.allocSize)) else None
  }

  /** The highest level of a run, all connections together. */
  function Highest(events: seq<Event>): (peak: nat) {
    if events == [] then 0
    else
      var front, last := Highest(events[..|events| - 1]), events[|events| - 1];
      if last.Call? && Level(Play(events[..|events| - 1]), last.call).Some?
      then Max(front, Level(Play(events[..|events| - 1]), last.call).value) else front
  }

  /** The peak survives new connections: it is the highest level there ever was. */
  lemma {:induction false} PeakIsHighest(events: seq<Event>)
    ensures Play(events).stats.peakRemainingSize == Highest(events)
  {
    hide Ledger.Valid, Counts.Bump;
    if events == [] {
    } else {
      PeakIsHighest(events[..|events| - 1]);
    }
  }

  /** What the run means to the usage table and the chart. */
  function ChartEvents(events: seq<Event>): (chartEvents: seq<ChartEvent>) {
    if events == [] then []
    else
      var front := events[..|events| - 1];
      var l := Play(events);
      ChartEvents(front) + ChartEventOf(events[|events| - 1], l)
  }

  lemma {:induction false} PlayIsChartRun(events: seq<Event>)
    ensures (Play(events).stats.usage, Play(events).chart) == ChartRun(ChartEvents(events))
  {
    if events == [] {
    } else {
      var front := events[..|events| - 1];
      PlayIsChartRun(front);
      hide Play;
      PlayStep(events);
      StepIsChartRun(Play(front), events[|events| - 1], Play(events), ChartEvents(front), ChartEvents(events));
    }
  }

  function ChartEventOf(event: Event, l: Ledger): (chartEvents: seq<ChartEvent>) {
    match event
    case Call(OnMemoryOperation(h, _, _, _, _)) => [Record(h.timeSec, l.stats.totalRemainingSize)]
    case Call(OnNewConnection) => [Cleared]
    case Call(_) => []
    case TimerTick => [Ticked(l.stats.startTime.sec, l.stats.peakRemainingSize)]
  }

  function After(l: Ledger, event: Event): (l': Ledger)
    requires l.Valid()
    ensures l'.Valid()
  {
    match event
    case Call(call) => l.Handle(call)
    case TimerTick => l.Publish()
  }

  lemma StepIsChartRun(l: Ledger, event: Event, l': Ledger, before: seq<ChartEvent>, all: seq<ChartEvent>)
    requires l.Valid() && l' == After(l, event) && (l.stats.usage, l.chart) == ChartRun(before)
    requires all == before + ChartEventOf(event, l')
    ensures (l'.stats.usage, l'.chart) == ChartRun(all)
  {
    hide Usage.Update, Tick, Ledger.Handle, Ledger.Valid, Ledger.Publish;
    AfterUsage(l, event);
    if ChartEventOf(event, l') == [] {
      assert all == before;
    } else {
      assert all[..|all| - 1] == before;
    }
  }

  lemma AfterUsage(l: Ledger, event: Event)
    requires l.Valid()
    ensures var l' := After(l, event);
      (l'.stats.usage, l'.chart) ==
        match event
        case Call(OnMemoryOperation(h, _, _, _, _)) => (l.stats.usage.Update(h.timeSec, l'.stats.totalRemainingSize),
          l.chart)
        case Call(OnNewConnection) => (NoUsage(), NoChart())
        case Call(_) => (l.stats.usage, l.chart)
        case TimerTick => (l.stats.usage,
          Tick(l.stats.usage, l.chart, l'.stats.startTime.sec, l'.stats.peakRemainingSize))
  {
    hide Usage.Update, Tick, Counts.Bump, Roster.Get, Roster.AddAlloc, Roster.AddFree, Book.Attach, Book.Add;
  }

  /** The chart of the server shows its usage table after every tick of a timely run. */
  lemma LedgerChartInSync(events: seq<Event>)
    requires Timely(ChartEvents(events))
    ensures InSync(Play(events + [TimerTick]).stats.usage, Play(events + [TimerTick]).chart)
  {
    hide Play, Tick, InSync;
    assert (events + [TimerTick])[..|events|] == events;
    var start, top := Play(events).stats.startTime.sec, Play(events).stats.peakRemainingSize;
    TickedPlay(events);
    PlayIsChartRun(events + [TimerTick]);
    ChartRefinesTable(ChartEvents(events), start, top);
  }

  lemma TickedPlay(events: seq<Event>)
    ensures ChartEvents(events + [TimerTick]) ==
            ChartEvents(events) + [Ticked(Play(events).stats.startTime.sec, Play(events).stats.peakRemainingSize)]
  {
    assert (events + [TimerTick])[..|events|] == events;
  }

  lemma PlayStep(events: seq<Event>)
    requires events != []
    ensures Play(events) == After(Play(events[..|events| - 1]), events[|events| - 1])
  {
  }

  lemma {:induction false} PlayTallies(events: seq<Event>)
    ensures Tallies(Play(events).stats, Play(events).book.ops)
  {
    if events == [] {
      TalliesNothing(NewLedger().stats);
    } else {
      hide Tallies, Ledger.Handle;
      PlayTallies(events[..|events| - 1]);
      if events[|events| - 1].Call? {
        HandleTallies(Play(events[..|events| - 1]), events[|events| - 1].call);
      }
    }
  }

  /** Less than 2 to the 64 bytes are held with this operation. */
  predicate FitsIn(l: Ledger, event: Event) {
    event.Call? && event.call.OnMemoryOperation? ==> Total(l.book.ops, LiveSize) + event.call.allocSize < M64
  }

  predicate NoWrap(events: seq<Event>) {
    events == [] || (NoWrap(events[..|events| - 1]) && FitsIn(Play(events[..|events| - 1]), events[|events| - 1]))
  }

  ghost predicate WithinRange(l: Ledger) {
    && (forall time :: time in l.stats.usage.table ==> l.stats.usage.table[time] <= l.stats.peakRemainingSize)
    && l.stats.totalRemainingSize <= l.stats.peakRemainingSize
    && (forall k :: 0 <= k < |l.chart.series| ==> l.chart.series[k].size <= l.chart.series[k].rangeTop)
  }

  /** Every size in the table is at most the peak, so every point drawn lies in the range drawn with it. */
  lemma {:induction false} ChartWithinRange(events: seq<Event>)
    requires NoWrap(events)
    ensures WithinRange(Play(events))
  {
    if events == [] {
    } else {
      hide Play, Tallies, FitsIn;
      var front := events[..|events| - 1];
      ChartWithinRange(front);
      PlayTallies(front);
      PlayStep(events);
      match events[|events| - 1]
      case Call(OnMemoryOperation(h, size, ptr, num, freePtr)) =>
        AddWithinRange(Play(front), h, size, ptr, num, freePtr);
      case Call(_) =>
      case TimerTick => PublishWithinRange(Play(front));
    }
  }

  /** What is taken off is part of what is held. */
  lemma ExactLevel(l: Ledger, o: Operation)
    requires l.Valid() && Tallies(l.stats, l.book.ops) && Total(l.book.ops, LiveSize) + o.allocSize < M64
    ensures l.stats.Raise(o.allocSize).totalRemainingSize == Total(l.book.ops, LiveSize) + o.allocSize
    ensures l.book.Freed(o.freePtr).Some? ==>
      l.book.ops[l.book.Freed(o.freePtr).value].allocSize <= Total(l.book.ops, LiveSize)
  {
    hide Total;
    if l.book.Freed(o.freePtr).Some? {
      FreedIsLive(l.book, o.freePtr);
      TotalAtLeast(l.book.ops, l.book.Freed(o.freePtr).value, LiveSize);
    }
  }

  lemma AddWithinRange(l: Ledger, h: Header, size: nat, ptr: nat, num: nat, freePtr: nat)
    requires l.Valid() && Tallies(l.stats, l.book.ops) && WithinRange(l)
    requires FitsIn(l, Call(OnMemoryOperation(h, size, ptr, num, freePtr)))
    ensures WithinRange(l.Handle(OnMemoryOperation(h, size, ptr, num, freePtr)))
  {
    hide Tallies, Total, Roster.AddFree, Roster.AddAlloc, Book.Add, Counts.Bump;
    ExactLevel(l, NewOperation(h, size, ptr, num, freePtr));
  }

  lemma PublishWithinRange(l: Ledger)
    requires l.Valid() && WithinRange(l)
    ensures WithinRange(l.Publish())
  {
    var c, u := l.chart, l.stats.usage;
    FreshFromTable(u, c, if c.lastUpdateTime == 0 then u.firstTime else c.lastUpdateTime, u.lastTime);
  }

  /** A point drawn by the `i`-th event: a tick that found its size in the usage table, and drew it from the first time
      of the session to the peak of all sessions as they were then. */
  ghost predicate DrawnBy(events: seq<Event>, i: nat, p: Point) {
    && i < |events| && events[i].TimerTick?
    && InTable(Play(events[..i]).stats.usage, p.time) == Some(p.size)
    && p.rangeStart == Play(events[..i]).stats.startTime.sec && p.rangeTop == Highest(events[..i])
  }

  /** Every point of the chart was drawn by a tick of the run. */
  lemma {:induction false} PointsDrawn(events: seq<Event>, k: nat)
    requires k < |Play(events).chart.series|
    ensures exists i: nat :: DrawnBy(events, i, Play(events).chart.series[k])
    decreases |events|
  {
    hide Play, DrawnBy, Ledger.Handle, Highest;
    if events == [] {
      NothingPlayed();
    } else {
      var n := |events| - 1;
      var front, p := events[..n], Play(events).chart.series[k];
      PlayStep(events);
      DrawnStep(Play(front), events[n], k);
      if k < |Play(front).chart.series| && Play(front).chart.series[k] == p {
        PointsDrawn(front, k);
        var i: nat :| DrawnBy(front, i, p);
        DrawnEarlier(events, i, p);
      } else {
        PeakIsHighest(front);
        DrawnLast(events, p);
      }
    }
  }

  lemma NothingPlayed()
    ensures Play([]).chart.series == []
  {
  }

  lemma DrawnEarlier(events: seq<Event>, i: nat, p: Point)
    requires events != [] && DrawnBy(events[..|events| - 1], i, p)
    ensures DrawnBy(events, i, p)
  {
    hide Play, Highest;
    assert events[..|events| - 1][..i] == events[..i];
  }

  lemma DrawnLast(events: seq<Event>, p: Point)
    requires events != [] && events[|events| - 1].TimerTick?
    requires var l := Play(events[..|events| - 1]);
      && l.stats.peakRemainingSize == Highest(events[..|events| - 1])
      && InTable(l.stats.usage, p.time) == Some(p.size)
      && p.rangeStart == l.stats.startTime.sec && p.rangeTop == l.stats.peakRemainingSize
    ensures DrawnBy(events, |events| - 1, p)
  {
    hide Play, Highest, InTable;
  }

  /** A point of the chart was there before, or a tick has drawn it. */
  lemma DrawnStep(l: Ledger, event: Event, k: nat)
    requires l.Valid() && k < |After(l, event).chart.series|
    ensures var p := After(l, event).chart.series[k];
      || (k < |l.chart.series| && l.chart.series[k] == p)
      || (event.TimerTick? && InTable(l.stats.usage, p.time) == Some(p.size) &&
          p.rangeStart == l.stats.startTime.sec && p.rangeTop == l.stats.peakRemainingSize)
  {
    hide Ledger.Handle, Fresh;
    AfterChart(l, event);
    if event.TimerTick? {
      var c, u := l.chart, l.stats.usage;
      FreshFromTable(u, c, if c.lastUpdateTime == 0 then u.firstTime else c.lastUpdateTime, u.lastTime);
    }
  }

  lemma AfterChart(l: Ledger, event: Event)
    requires l.Valid()
    ensures event.Call? ==> After(l, event).chart == l.chart || After(l, event).chart == NoChart()
  {
    hide Usage.Update, Tick, Counts.Bump, Roster.Get, Roster.AddAlloc, Roster.AddFree, Book.Attach, Book.Add;
  }

  // ---- The peaks of the threads ----

  ghost predicate PeaksBounded(l: Ledger, base: nat) {
    forall i :: base <= i < |l.roster.entries| ==> l.roster.entries[i].peakSize <= l.stats.peakRemainingSize
  }

  /** At no moment of the session are 2 to the 64 bytes held. */
  predicate HeldFits(l: Ledger, calls: seq<HandlerCall>)
    requires l.Valid()
  {
    calls == [] || (HeldFits(l, calls[..|calls| - 1]) && FitsIn(Run(l, calls[..|calls| - 1]), Call(calls[|calls| - 1])))
  }

  /** In a session in which no creation is passed and less than 2 to the 64 bytes are ever held, the peak of a thread is
      at most the peak of the program. */
  lemma {:induction false} ThreadPeaksBounded(l: Ledger, calls: seq<HandlerCall>)
    requires FreshSession(l) && AllInTurn(calls) && NonePassed(l, calls) && Tallies(l.stats, l.book.ops) &&
      HeldFits(l, calls)
    ensures PeaksBounded(Run(l, calls), |l.roster.entries|)
  {
    if calls == [] {
    } else {
      hide Accounted, Tallies, Ledger.Handle, PeaksBounded, FitsIn, InTurn, Follows, Clears, Homes;
      var front, call := calls[..|calls| - 1], calls[|calls| - 1];
      SessionAccounted(l, front);
      RunTallies(l, front);
      ThreadPeaksBounded(l, front);
      PeakStep(Run(l, front), |l.roster.entries|, MarksOf(front), Homes(l, front), call);
    }
  }

  lemma PeakStep(l: Ledger, base: nat, marks: Marks, homes: seq<nat>, call: HandlerCall)
    requires l.Valid() && Accounted(l.roster, base, marks, l.book.ops, homes) && Tallies(l.stats, l.book.ops) &&
      PeaksBounded(l, base)
    requires InTurn(marks, call) && Follows(marks, call) && FitsIn(l, Call(call))
    ensures PeaksBounded(l.Handle(call), base)
  {
    hide Accounted, Tallies, Total, Stats.Record, Book.Add, Book.Attach, Roster.Get;
    match call
    case OnMemoryOperation(h, size, ptr, num, freePtr) =>
      AddPeak(l, base, marks, homes, NewOperation(h, size, ptr, num, freePtr));
    case OnThreadOperation(h, id, name) =>
      var time := Timeval(h.timeSec, h.timeUsec);
      GetPeaks(l.roster, base, id, true, time, l.stats.peakRemainingSize);
      GetPeaks(l.roster, base, id, false, time, l.stats.peakRemainingSize);
    case OnBacktrace(_, _) =>
    case OnSymbolInfos(_) =>
  }

  lemma GetPeaks(r: Roster, base: nat, id: nat, isCreation: bool, time: Timeval, peak: nat)
    requires r.Valid() && forall i :: base <= i < |r.entries| ==> r.entries[i].peakSize <= peak
    ensures var g := r.Get(id, isCreation, time); forall i :: base <= i < |g.0.entries| ==>
      g.0.entries[i].peakSize <= peak
  {
    GetKeepsEntries(r, id, isCreation, time);
  }

  lemma AddPeak(l: Ledger, base: nat, marks: Marks, homes: seq<nat>, o: Operation)
    requires l.Valid() && Accounted(l.roster, base, marks, l.book.ops, homes) && Tallies(l.stats, l.book.ops) &&
      PeaksBounded(l, base)
    requires o.allocPtr != 0 ==>
      && marks.alloc(o.callerThreadId) < o.msgNum && o.msgNum !in marks.created(o.callerThreadId)
      && marks.creation(o.callerThreadId) < o.msgNum
    requires !o.freed && o.backtrace.None? && Total(l.book.ops, LiveSize) + o.allocSize < M64
    ensures PeaksBounded(l.AddMemoryOperation(o), base)
  {
    hide Tallies, Total, Book.Add, Roster.Get, Counts.Bump, Roster.Owner, Settled, AllAlone, Balanced,
      Ledger.Taken, Home;
    var l' := l.AddMemoryOperation(o);
    ExactLevel(l, o);
    AddTotal(l.book, o, LiveSize);
    if l.book.Freed(o.freePtr).Some? { FreedIsLive(l.book, o.freePtr); }
    AddAccounted(l, base, marks, homes, o);
    forall i | base <= i < |l'.roster.entries| ensures l'.roster.entries[i].peakSize <= l'.stats.peakRemainingSize {
      PeakSource(l, o, i);
      assert Balanced(l'.roster.entries[i], l'.book.ops);
      HeldAtMostLive(l'.roster.entries[i], l'.book.ops);
    }
  }

  lemma HeldAtMostLive(e: Entry, ops: seq<Operation>)
    requires Balanced(e, ops)
    ensures e.currentSize <= Total(ops, LiveSize)
  {
    TotalAtMost(ops, HeldSize(e), LiveSize);
  }

  /** The peak of an entry was there before, or is its current size. */
  lemma PeakSource(l: Ledger, o: Operation, i: nat)
    requires l.Valid() && i < |l.AddMemoryOperation(o).roster.entries|
    ensures var e := l.AddMemoryOperation(o).roster.entries[i];
      || e.peakSize == e.currentSize
      || e.peakSize == 0
      || (i < |l.roster.entries| && e.peakSize == l.roster.entries[i].peakSize)
  {
    hide Book.Add, Stats.Record, Roster.Owner, Roster.AddFree, Roster.AddAlloc;
    if l.FreedBy(o).Some? {
      var p := l.FreedBy(o).value;
      FreePeaks(l.roster, p.callerThreadId, p.msgNum, p.allocSize, o.time);
    }
    if o.allocPtr != 0 {
      AllocPeaks(l.Taken(o), o.callerThreadId, o.msgNum, o.allocSize, o.time);
    }
  }

  lemma FreePeaks(r: Roster, id: nat, num: nat, size: nat, time: Timeval)
    requires r.Valid()
    ensures var r' := r.AddFree(id, num, size, time);
      && |r.entries| <= |r'.entries|
      && forall i :: 0 <= i < |r'.entries| ==>
        r'.entries[i].peakSize == if i < |r.entries| then r.entries[i].peakSize else 0
  {
    GetKeepsEntries(r, id, false, time);
  }

  lemma AllocPeaks(r: Roster, id: nat, num: nat, size: nat, time: Timeval)
    requires r.Valid()
    ensures var r' := r.AddAlloc(id, num, size, time);
      && |r.entries| <= |r'.entries|
      && forall i :: 0 <= i < |r'.entries| ==>
           || r'.entries[i].peakSize == r'.entries[i].currentSize
           || r'.entries[i].peakSize == if i < |r.entries| then r.entries[i].peakSize else 0
  {
    GetKeepsEntries(r, id, false, time);
  }

  // ---- Nothing is held beyond the peak ----

  ghost predicate Covered(r: Roster, base: nat) {
    forall i :: base <= i < |r.entries| ==> r.entries[i].currentSize <= r.entries[i].peakSize
  }

  lemma FreeCovered(r: Roster, base: nat, marks: Marks, ops: seq<Operation>, homes: seq<nat>, k: nat, time: Timeval)
    requires Accounted(r, base, marks, ops, homes) && k < |ops| && Holding(ops[k]) && Covered(r, base)
    requires Total(ops, LiveSize) < M64
    ensures Covered(r.AddFree(ops[k].callerThreadId, ops[k].msgNum, ops[k].allocSize, time), base)
  {
    hide Total, Settled, AllAlone, Balanced;
    SettledValid(r, base, marks, ops, homes);
    FreeAccounted(r, base, marks, ops, homes, k, time);
    OwnerOf(r, base, marks, ops, homes, k);
    var e := r.entries[homes[k]];
    assert Balanced(e, ops);
    BalancedExact(e, ops);
    assert HeldBy(e, ops[k]);
  }

  lemma GetCovered(r: Roster, base: nat, id: nat, isCreation: bool, time: Timeval)
    requires r.Valid() && Covered(r, base)
    ensures Covered(r.Get(id, isCreation, time).0, base)
  {
    GetKeepsEntries(r, id, isCreation, time);
  }

  lemma AllocCovered(r: Roster, base: nat, id: nat, num: nat, size: nat, time: Timeval)
    requires r.Valid() && Covered(r, base)
    ensures Covered(r.AddAlloc(id, num, size, time), base)
  {
    hide Roster.Get;
    GetCovered(r, base, id, false, time);
  }

  lemma CoverStep(l: Ledger, base: nat, marks: Marks, homes: seq<nat>, call: HandlerCall)
    requires l.Valid() && Accounted(l.roster, base, marks, l.book.ops, homes) && Covered(l.roster, base)
    requires InTurn(marks, call) && FitsIn(l, Call(call))
    ensures Covered(l.Handle(call).roster, base)
  {
    hide Accounted, Covered, Total, Stats.Record, Book.Add, Book.Attach, Roster.AddAlloc, Roster.AddFree;
    match call
    case OnMemoryOperation(h, size, ptr, num, freePtr) =>
      var o := NewOperation(h, size, ptr, num, freePtr);
      var j := l.book.Freed(freePtr);
      if j.Some? {
        FreedIsLive(l.book, freePtr);
        FreeCovered(l.roster, base, marks, l.book.ops, homes, j.value, o.time);
      }
      if ptr != 0 { AllocCovered(l.Taken(o), base, o.callerThreadId, o.msgNum, size, o.time); }
    case OnThreadOperation(h, id, name) => ThreadCovered(l, base, call);
    case OnBacktrace(_, _) =>
    case OnSymbolInfos(_) =>
  }

  lemma ThreadCovered(l: Ledger, base: nat, call: HandlerCall)
    requires l.Valid() && Covered(l.roster, base) && call.OnThreadOperation?
    ensures Covered(l.Handle(call).roster, base)
  {
    hide Roster.Get;
    var time := Timeval(call.header.timeSec, call.header.timeUsec);
    GetCovered(l.roster, base, call.threadId, true, time);
    GetCovered(l.roster, base, call.threadId, false, time);
  }

  /** Under the same conditions no thread holds more than its peak. */
  lemma {:induction false} PeakCovers(l: Ledger, calls: seq<HandlerCall>)
    requires FreshSession(l) && AllInTurn(calls) && NonePassed(l, calls) && HeldFits(l, calls)
    ensures Covered(Run(l, calls).roster, |l.roster.entries|)
  {
    if calls == [] {
    } else {
      hide Accounted, Ledger.Handle, Covered, FitsIn, InTurn, Follows, Clears, Homes;
      var front := calls[..|calls| - 1];
      SessionAccounted(l, front);
      PeakCovers(l, front);
      CoverStep(Run(l, front), |l.roster.entries|, MarksOf(front), Homes(l, front), calls[|calls| - 1]);
    }
  }
}
