/** The memory usage table, one size per second, and the chart that is published from it tick by tick. */
module UsageChart {
  import opened Sequences
  import opened Words

  /** The table on values. A time of 0 means that there is none yet. */
  datatype Usage = Usage(firstTime: nat, lastTime: nat, table: map<nat, nat>) {

    function Value(time: nat): (size: nat) {
      if time in table then table[time] else 0
    }

    /** The current size is read into a signed 32-bit variable before it is compared. */
    function Update(time: nat, size: nat): (u: Usage) {
      var current := ToInt32(Value(time));
      if current == 0 then Usage(if firstTime == 0 then time else firstTime, time, table[time := size])
      else if FromInt32(current) < size then Usage(firstTime, time, table[time := size])
      else this
    }
  }

  function NoUsage(): (u: Usage) { Usage(0, 0, map[]) }

  class MemoryUsage {
    var firstTime: nat
    var lastTime: nat
    var sizeByTimestamp: map<nat, nat>

    ghost function Table(): (u: Usage)
      reads this
    {
      Usage(firstTime, lastTime, sizeByTimestamp)
    }

    constructor ()
      ensures Table() == NoUsage()
    {
      firstTime, lastTime, sizeByTimestamp := 0, 0, map[];
    }

    method Clear()
      modifies this
      ensures Table() == NoUsage()
    {
      firstTime, lastTime, sizeByTimestamp := 0, 0, map[];
    }

    function Contains(time: nat): (b: bool)
      reads this
    {
      time in sizeByTimestamp
    }

    function Count(): (n: nat)
      reads this
    {
      |sizeByTimestamp|
    }

    function Value(time: nat): (size: nat)
      reads this
      ensures size == Table().Value(time)
    {
      if time in sizeByTimestamp then sizeByTimestamp[time] else 0
    }

    method Update(time: nat, size: nat)
      modifies this
      ensures Table() == old(Table()).Update(time, size)
    {
      var currentSize := ToInt32(Value(time));
      if currentSize == 0 {
        if firstTime == 0 {
          firstTime := time;
        }
        sizeByTimestamp := sizeByTimestamp[time := size];
        lastTime := time;
      } else {
        if FromInt32(currentSize) < size {
          sizeByTimestamp := sizeByTimestamp[time := size];
          lastTime := time;
        }
      }
    }
  }

  // ---- The table holds the maximum of each second, while sizes are small ----

  function Max(a: nat, b: nat): (m: nat) { if a < b then b else a }

  /** What an entry becomes. */
  function NextValue(current: nat, size: nat): (next: nat) {
    if ToInt32(current) == 0 || FromInt32(ToInt32(current)) < size then size else current
  }

  /** The 32-bit copy of an entry is faithful. */
  predicate Faithful(current: nat) {
    current < 0x8000_0000 || M64 - 0x8000_0000 <= current
  }

  lemma FaithfulCopy(current: nat)
    requires current < M64
    ensures Faithful(current) <==> FromInt32(ToInt32(current)) == current
    ensures FromInt32(ToInt32(current)) == current || FromInt32(ToInt32(current)) < 0x8000_0000 ||
      M64 - 0x8000_0000 <= FromInt32(ToInt32(current))
  {
    var low := current % M32;
    var high := current / M32;
    assert current == high * M32 + low;
  }

  /** An entry goes on to hold the maximum, whatever comes, exactly if the 32-bit copy of it is faithful. */
  lemma UpdateIsMaxExactly(u: Usage, time: nat)
    requires u.Value(time) < M64
    ensures (forall size :: 0 <= size < M64 ==> u.Update(time, size).Value(time) == Max(u.Value(time), size)) <==>
      Faithful(u.Value(time))
  {
    var current := u.Value(time);
    forall size: nat ensures u.Update(time, size).Value(time) == NextValue(current, size) {
    }
    FaithfulCopy(current);
    NextIsMaxExactly(current);
    if forall size :: 0 <= size < M64 ==> u.Update(time, size).Value(time) == Max(current, size) {
      forall size | 0 <= size < M64 ensures NextValue(current, size) == Max(current, size) {
        assert u.Update(time, size).Value(time) == NextValue(current, size);
      }
    }
  }

  lemma NextIsMaxExactly(current: nat)
    requires current < M64
    ensures (forall size :: 0 <= size < M64 ==> NextValue(current, size) == Max(current, size)) <==> Faithful(current)
  {
    hide ToInt32, FromInt32, Faithful;
    FaithfulCopy(current);
    var copy := FromInt32(ToInt32(current));
    CopyZero(current);
    if copy != current {
      if ToInt32(current) == 0 {
        assert NextValue(current, 0) == 0;
      } else if copy < current {
        assert NextValue(current, copy + 1) == copy + 1;
        if copy + 1 == current { Neighbours(copy); }
      } else {
        assert NextValue(current, copy) == current;
      }
    }
  }

  lemma CopyZero(current: nat)
    requires current < M64
    ensures ToInt32(current) == 0 ==> FromInt32(ToInt32(current)) == 0
    ensures ToInt32(0) == 0
  {
  }

  /** A value and the next one do not have the same 32 low bits. */
  lemma Neighbours(copy: nat)
    requires copy + 1 < M64
    ensures FromInt32(ToInt32(copy + 1)) != copy
  {
  }

  /** What has been recorded: sizes with their times, oldest first. */
  type Records = seq<(nat, nat)>

  function TableOf(records: Records): (u: Usage) {
    if records == [] then NoUsage()
    else
      var last := records[|records| - 1];
      TableOf(records[..|records| - 1]).Update(last.0, last.1)
  }

  /** The largest size recorded for a second, if any was. */
  function MaxAt(records: Records, time: nat): (m: Option<nat>) {
    if records == [] then None
    else
      var front, last := MaxAt(records[..|records| - 1], time), records[|records| - 1];
      if last.0 != time then front
      else if front.None? then Some(last.1)
      else Some(Max(front.value, last.1))
  }

  lemma {:induction false} TableHoldsMaxima(records: Records, time: nat)
    requires forall i :: 0 <= i < |records| ==> records[i].1 < 0x8000_0000
    ensures var u, m := TableOf(records), MaxAt(records, time);
      if m.None? then time !in u.table else time in u.table && u.table[time] == m.value < 0x8000_0000
  {
    if records == [] {
    } else {
      TableHoldsMaxima(records[..|records| - 1], time);
    }
  }

  // ---- The chart ----

  /** A point of the chart, with the range the chart is given when it is drawn. */
  datatype Point = Point(time: nat, size: nat, rangeStart: nat, rangeTop: nat)

  datatype Chart = Chart(lastUpdateTime: nat, lastUpdateValue: nat, series: seq<Point>)

  function NoChart(): (c: Chart) { Chart(0, 0, []) }

  function FreshAt(u: Usage, c: Chart, time: nat): (points: seq<(nat, nat)>) {
    if time in u.table && !(time == c.lastUpdateTime && u.table[time] == c.lastUpdateValue) then [(time, u.table[time])]
      else []
  }

  /** What a tick publishes: the seconds from `from` to `upTo` that are in the table, but for the one published last if
      it has not changed. */
  function Fresh(u: Usage, c: Chart, from: nat, upTo: nat): (points: seq<(nat, nat)>)
    decreases upTo + 1 - from
  {
    if upTo < from then [] else FreshAt(u, c, from) + Fresh(u, c, from + 1, upTo)
  }

  lemma {:induction false} FreshFromTable(u: Usage, c: Chart, from: nat, upTo: nat)
    ensures forall k :: 0 <= k < |Fresh(u, c, from, upTo)| ==>
      Fresh(u, c, from, upTo)[k].0 in u.table && Fresh(u, c, from, upTo)[k].1 == u.table[Fresh(u, c, from, upTo)[k].0]
    decreases upTo + 1 - from
  {
    if upTo < from {
    } else {
      FreshFromTable(u, c, from + 1, upTo);
    }
  }

  /** The size of the last second in the table from `from` to `upTo`. */
  function LastSize(u: Usage, from: nat, upTo: nat): (size: nat)
    decreases upTo + 1 - from
  {
    if upTo < from then 0
    else if upTo in u.table then u.table[upTo]
    else if upTo == 0 then 0
    else LastSize(u, from, upTo - 1)
  }

  function Plot(points: seq<(nat, nat)>, rangeStart: nat, rangeTop: nat): (series: seq<Point>)
    ensures |series| == |points|
  {
    seq(|points|, i requires 0 <= i < |points| => Point(points[i].0, points[i].1, rangeStart, rangeTop))
  }

  function Tick(u: Usage, c: Chart, rangeStart: nat, rangeTop: nat): (c': Chart) {
    var start := if c.lastUpdateTime == 0 then u.firstTime else c.lastUpdateTime;
    var points := Fresh(u, c, start, u.lastTime);
    if start == 0 || points == [] then c
    else
      Chart(points[|points| - 1].0, LastSize(u, start, u.lastTime), c.series + Plot(points, rangeStart, rangeTop))
  }

  // ---- What a tick collects in a table of its own, and appends from it ----

  lemma {:induction false} FreshSnoc(u: Usage, c: Chart, from: nat, upTo: nat)
    requires from <= upTo + 1
    ensures Fresh(u, c, from, upTo + 1) == Fresh(u, c, from, upTo) + FreshAt(u, c, upTo + 1)
    decreases upTo + 1 - from
  {
    hide FreshAt;
    if from <= upTo {
      FreshSnoc(u, c, from + 1, upTo);
    } else {
      assert Fresh(u, c, from + 1, upTo + 1) == [] && Fresh(u, c, from, upTo) == [];
    }
  }

  /** A table holds just the fresh part of the usage table. */
  ghost predicate HoldsFresh(v: Usage, u: Usage, c: Chart, from: nat, upTo: nat) {
    && UsageInv(v)
    && (forall t: nat :: t in v.table <==> from <= t <= upTo && FreshAt(u, c, t) != [])
    && (forall t: nat :: t in v.table ==> t in u.table && v.table[t] == u.table[t])
  }

  lemma HoldsFreshNext(v: Usage, u: Usage, c: Chart, from: nat, upTo: nat)
    requires 0 < from <= upTo + 1 && HoldsFresh(v, u, c, from, upTo)
    ensures var t: nat := upTo + 1;
      HoldsFresh(if FreshAt(u, c, t) == [] then v else v.Update(t, u.table[t]), u, c, from, t)
    ensures var t: nat := upTo + 1;
      FreshAt(u, c, t) != [] ==> v.Update(t, u.table[t]).lastTime == t && v.Update(t, u.table[t]).table != map[]
  {
    var t: nat := upTo + 1;
    if FreshAt(u, c, t) != [] {
      var w := v.Update(t, u.table[t]);
      assert t !in v.table && v.Value(t) == 0;
      assert w == Usage(if v.firstTime == 0 then t else v.firstTime, t, v.table[t := u.table[t]]);
      assert t in w.table;
    }
  }

  /** What a tick collects is the part of the usage table that is fresh. */
  lemma {:induction false} Collected(u: Usage, c: Chart, from: nat, upTo: nat)
    requires 0 < from
    ensures var points, v := Fresh(u, c, from, upTo), TableOf(Fresh(u, c, from, upTo));
      && HoldsFresh(v, u, c, from, upTo) && (points == [] <==> v.table == map[])
      && (points != [] ==> v.lastTime == points[|points| - 1].0)
    decreases upTo
  {
    hide HoldsFresh, Usage.Update;
    if upTo < from {
      NoneHeld(u, c, from, upTo);
    } else {
      var points := Fresh(u, c, from, upTo - 1);
      if upTo == from { NoneHeld(u, c, from, upTo - 1); } else { Collected(u, c, from, upTo - 1); }
      FreshSnoc(u, c, from, upTo - 1);
      HoldsFreshNext(TableOf(points), u, c, from, upTo - 1);
      TableOfSnoc(points, u, c, upTo);
    }
  }

  lemma NoneHeld(u: Usage, c: Chart, from: nat, upTo: nat)
    requires upTo < from
    ensures Fresh(u, c, from, upTo) == [] && TableOf([]) == NoUsage() && HoldsFresh(NoUsage(), u, c, from, upTo)
  {
  }

  lemma TableOfSnoc(points: seq<(nat, nat)>, u: Usage, c: Chart, time: nat)
    ensures TableOf(points + FreshAt(u, c, time)) ==
            if FreshAt(u, c, time) == [] then TableOf(points) else TableOf(points).Update(time, u.table[time])
  {
    if FreshAt(u, c, time) == [] {
      assert points + FreshAt(u, c, time) == points;
    } else {
      assert (points + FreshAt(u, c, time))[..|points|] == points;
    }
  }

  lemma {:induction false} FreshAlike(u: Usage, c: Chart, u': Usage, c': Chart, from: nat, upTo: nat)
    requires forall t: nat :: from <= t <= upTo ==> FreshAt(u, c, t) == FreshAt(u', c', t)
    ensures Fresh(u, c, from, upTo) == Fresh(u', c', from, upTo)
    decreases upTo + 1 - from
  {
    hide FreshAt;
    if upTo < from {
    } else {
      FreshAlike(u, c, u', c', from + 1, upTo);
    }
  }

  lemma {:induction false} FreshFrom(u: Usage, c: Chart, from: nat, first: nat, upTo: nat)
    requires from <= first && forall t: nat :: from <= t < first ==> FreshAt(u, c, t) == []
    ensures Fresh(u, c, from, upTo) == Fresh(u, c, first, upTo)
    decreases first - from
  {
    hide FreshAt;
    if from < first {
      FreshFrom(u, c, from + 1, first, upTo);
    }
  }

  lemma {:induction false} FreshUpTo(u: Usage, c: Chart, from: nat, last: nat, upTo: nat)
    requires from <= last + 1 && last <= upTo && forall t: nat :: last < t <= upTo ==> FreshAt(u, c, t) == []
    ensures Fresh(u, c, from, upTo) == Fresh(u, c, from, last)
    decreases upTo - last
  {
    hide FreshAt;
    if last < upTo {
      FreshUpTo(u, c, from, last, upTo - 1);
      FreshSnoc(u, c, from, upTo - 1);
    }
  }

  /** Going through the table collected, from its first time to its last, gives back what was fresh. */
  lemma Republished(u: Usage, c: Chart, from: nat, upTo: nat)
    requires 0 < from
    ensures var v := TableOf(Fresh(u, c, from, upTo));
      v.table != map[] ==> Fresh(v, NoChart(), v.firstTime, v.lastTime) == Fresh(u, c, from, upTo)
  {
    Collected(u, c, from, upTo);
    var v := TableOf(Fresh(u, c, from, upTo));
    if v.table != map[] {
      FreshAlike(u, c, v, NoChart(), from, upTo);
      FreshFrom(v, NoChart(), from, v.firstTime, upTo);
      FreshUpTo(v, NoChart(), v.firstTime, v.lastTime, upTo);
    }
  }

  /** The size shown for a second: that of the last point appended for it. */
  function Shown(series: seq<Point>, time: nat): (size: Option<nat>) {
    if series == [] then None
    else if series[|series| - 1].time == time then Some(series[|series| - 1].size)
    else Shown(series[..|series| - 1], time)
  }

  function InTable(u: Usage, time: nat): (size: Option<nat>) {
    if time in u.table then Some(u.table[time]) else None
  }

  /** The chart shows the table. */
  ghost predicate InSync(u: Usage, c: Chart) {
    forall time: nat :: Shown(c.series, time) == InTable(u, time)
  }

  ghost predicate UsageInv(u: Usage) {
    && (u.table == map[] <==> u.firstTime == 0)
    && (u.table == map[] <==> u.lastTime == 0)
    && (u.table != map[] ==> u.firstTime in u.table && u.lastTime in u.table)
    && forall time :: time in u.table ==> u.firstTime <= time <= u.lastTime
  }

  /** Up to the last second published, the chart shows the table, and in that second the size it was published with. */
  ghost predicate ChartInv(u: Usage, c: Chart) {
    && UsageInv(u)
    && (c.lastUpdateTime != 0 ==> c.lastUpdateTime in u.table)
    && forall time: nat :: Shown(c.series, time) ==
         if time < c.lastUpdateTime then InTable(u, time)
         else if time == c.lastUpdateTime != 0 then Some(c.lastUpdateValue)
         else None
  }

  lemma {:induction false} ShownConcat(a: seq<Point>, b: seq<Point>, time: nat)
    ensures Shown(a + b, time) == if Shown(b, time).Some? then Shown(b, time) else Shown(a, time)
  {
    if b == [] {
      assert a + b == a;
    } else {
      assert (a + b)[..|a + b| - 1] == a + b[..|b| - 1];
      ShownConcat(a, b[..|b| - 1], time);
    }
  }

  lemma {:induction false} ShownFresh(u: Usage, c: Chart, from: nat, upTo: nat, start: nat, top: nat, time: nat)
    ensures Shown(Plot(Fresh(u, c, from, upTo), start, top), time) ==
            if from <= time <= upTo && time in u.table &&
              !(time == c.lastUpdateTime && u.table[time] == c.lastUpdateValue)
            then Some(u.table[time]) else None
    decreases upTo + 1 - from
  {
    if upTo < from {
    } else {
      hide FreshAt, Shown, Plot;
      ShownFresh(u, c, from + 1, upTo, start, top, time);
      PlotConcat(FreshAt(u, c, from), Fresh(u, c, from + 1, upTo), start, top);
      ShownConcat(Plot(FreshAt(u, c, from), start, top), Plot(Fresh(u, c, from + 1, upTo), start, top), time);
      ShownFreshAt(u, c, from, start, top, time);
    }
  }

  lemma PlotConcat(a: seq<(nat, nat)>, b: seq<(nat, nat)>, start: nat, top: nat)
    ensures Plot(a + b, start, top) == Plot(a, start, top) + Plot(b, start, top)
  {
  }

  lemma ShownFreshAt(u: Usage, c: Chart, at: nat, start: nat, top: nat, time: nat)
    ensures Shown(Plot(FreshAt(u, c, at), start, top), time) ==
            if time == at && FreshAt(u, c, at) != [] then Some(u.table[at]) else None
  {
    if FreshAt(u, c, at) != [] {
      ShownOne(Plot(FreshAt(u, c, at), start, top), time);
    }
  }

  lemma ShownOne(series: seq<Point>, time: nat)
    requires |series| == 1
    ensures Shown(series, time) == if series[0].time == time then Some(series[0].size) else None
  {
    assert |series[..0]| == 0;
  }

  /** The last second published is the last one of the range, if anything but a change of the last published second is
      new. */
  lemma {:induction false} FreshLast(u: Usage, c: Chart, from: nat, upTo: nat)
    requires from <= upTo && upTo in u.table
    ensures var points := Fresh(u, c, from, upTo);
      if upTo == c.lastUpdateTime && u.table[upTo] == c.lastUpdateValue
      then points != [] ==> points[|points| - 1].0 < upTo
      else points != [] && points[|points| - 1] == (upTo, u.table[upTo])
    decreases upTo - from
  {
    hide FreshAt;
    var first, rest := FreshAt(u, c, from), Fresh(u, c, from + 1, upTo);
    assert Fresh(u, c, from, upTo) == first + rest;
    FreshAtOne(u, c, from);
    if from < upTo {
      FreshLast(u, c, from + 1, upTo);
    } else {
      assert rest == [];
    }
  }

  lemma FreshAtOne(u: Usage, c: Chart, time: nat)
    ensures (FreshAt(u, c, time) == []) <==>
      (time !in u.table || (time == c.lastUpdateTime && u.table[time] == c.lastUpdateValue))
    ensures FreshAt(u, c, time) != [] ==> FreshAt(u, c, time) == [(time, u.table[time])]
  {
  }

  /** Publishing: after a tick the chart shows the table, whatever had changed since the last one. */
  lemma TickSyncs(u: Usage, c: Chart, start: nat, top: nat)
    requires ChartInv(u, c)
    ensures ChartInv(u, Tick(u, c, start, top)) && InSync(u, Tick(u, c, start, top))
    ensures Tick(u, c, start, top).lastUpdateTime == u.lastTime
  {
    var c', from := Tick(u, c, start, top), if c.lastUpdateTime == 0 then u.firstTime else c.lastUpdateTime;
    var points := Fresh(u, c, from, u.lastTime);
    if u.table == map[] {
      forall time: nat ensures Shown(c.series, time) == None {
      }
    } else {
      FreshLast(u, c, from, u.lastTime);
      forall time: nat ensures Shown(c.series + Plot(points, start, top), time) == InTable(u, time) {
        ShownFresh(u, c, from, u.lastTime, start, top, time);
        ShownConcat(c.series, Plot(points, start, top), time);
        assert Shown(c.series, time) == Shown(c.series, time);
      }
      if points == [] {
        assert c.series + Plot(points, start, top) == c.series;
      }
    }
  }

  /** Recording at the present second or later keeps what the chart has shown. */
  lemma RecordKeeps(u: Usage, c: Chart, time: nat, size: nat)
    requires ChartInv(u, c) && 0 < time && u.lastTime <= time
    ensures ChartInv(u.Update(time, size), c)
  {
    var u' := u.Update(time, size);
    forall t: nat ensures Shown(c.series, t) ==
      if t < c.lastUpdateTime then InTable(u', t)
      else if t == c.lastUpdateTime != 0 then Some(c.lastUpdateValue)
      else None
    {
      assert Shown(c.series, t) == Shown(c.series, t);
    }
  }

  // ---- What a tick appends ----

  /** The points of a chart from the `n`-th on are drawn with one range, oldest second first, each with the size the
      table holds for its second and the chart did not yet show. */
  ghost predicate Redrawn(u: Usage, c: Chart, c': Chart, start: nat, top: nat) {
    && |c.series| <= |c'.series| && c'.series[..|c.series|] == c.series
    && (forall k :: |c.series| <= k < |c'.series| ==> PointOf(u, c, c'.series[k], start, top))
    && (forall j, k :: |c.series| <= j < k < |c'.series| ==> c'.series[j].time < c'.series[k].time)
  }

  predicate PointOf(u: Usage, c: Chart, p: Point, start: nat, top: nat) {
    && p.rangeStart == start && p.rangeTop == top
    && InTable(u, p.time) == Some(p.size) != Shown(c.series, p.time)
  }

  /** A tick appends a point for each second that is not shown as it is in the table, and no other point. */
  lemma TickAppends(u: Usage, c: Chart, start: nat, top: nat)
    requires ChartInv(u, c)
    ensures Redrawn(u, c, Tick(u, c, start, top), start, top)
    ensures forall time: nat :: Shown(c.series, time) != InTable(u, time) ==>
      exists k :: |c.series| <= k < |Tick(u, c, start, top).series| && Tick(u, c, start, top).series[k].time == time
  {
    hide Tick, Shown, InTable, InSync;
    TickNew(u, c, start, top);
    TickSyncs(u, c, start, top);
    var c' := Tick(u, c, start, top);
    var added := c'.series[|c.series|..];
    assert c'.series == c.series + added;
    forall time: nat | Shown(c.series, time) != InTable(u, time)
      ensures exists k :: |c.series| <= k < |c'.series| && c'.series[k].time == time
    {
      SyncedAt(u, c', time);
      ShownConcat(c.series, added, time);
      ShownSomewhere(added, time);
      var k :| 0 <= k < |added| && added[k].time == time;
      assert c'.series[|c.series| + k].time == time;
    }
  }

  lemma SyncedAt(u: Usage, c: Chart, time: nat)
    requires InSync(u, c)
    ensures Shown(c.series, time) == InTable(u, time)
  {
  }

  lemma {:induction false} ShownSomewhere(series: seq<Point>, time: nat)
    requires Shown(series, time).Some?
    ensures exists k :: 0 <= k < |series| && series[k].time == time
  {
    if series[|series| - 1].time != time {
      ShownSomewhere(series[..|series| - 1], time);
    }
  }

  lemma TickNew(u: Usage, c: Chart, start: nat, top: nat)
    requires ChartInv(u, c)
    ensures Redrawn(u, c, Tick(u, c, start, top), start, top)
  {
    hide Fresh, Shown, PointOf, Unpublished, ChartInv;
    var from := if c.lastUpdateTime == 0 then u.firstTime else c.lastUpdateTime;
    var points := Fresh(u, c, from, u.lastTime);
    FreshOrdered(u, c, from, u.lastTime);
    forall k | 0 <= k < |points|
      ensures PointOf(u, c, Point(points[k].0, points[k].1, start, top), start, top)
    {
      UnpublishedNew(u, c, points[k], start, top);
    }
  }

  lemma UnpublishedNew(u: Usage, c: Chart, point: (nat, nat), start: nat, top: nat)
    requires ChartInv(u, c) && c.lastUpdateTime <= point.0 && Unpublished(u, c, point)
    ensures PointOf(u, c, Point(point.0, point.1, start, top), start, top)
  {
    hide Shown;
    assert Shown(c.series, point.0) == Shown(c.series, point.0);
  }

  predicate Unpublished(u: Usage, c: Chart, point: (nat, nat)) {
    InTable(u, point.0) == Some(point.1) && point != (c.lastUpdateTime, c.lastUpdateValue)
  }

  /** Seconds and sizes to publish, in the order of time, from `from` on. */
  predicate AllUnpublished(u: Usage, c: Chart, points: seq<(nat, nat)>, from: nat) {
    && (forall k :: 0 <= k < |points| ==> from <= points[k].0 && Unpublished(u, c, points[k]))
    && (forall j, k :: 0 <= j < k < |points| ==> points[j].0 < points[k].0)
  }

  lemma {:induction false} FreshOrdered(u: Usage, c: Chart, from: nat, upTo: nat)
    ensures AllUnpublished(u, c, Fresh(u, c, from, upTo), from)
    decreases upTo + 1 - from
  {
    if upTo < from {
    } else {
      FreshOrdered(u, c, from + 1, upTo);
      OneMoreUnpublished(u, c, from, Fresh(u, c, from + 1, upTo));
    }
  }

  lemma OneMoreUnpublished(u: Usage, c: Chart, from: nat, points: seq<(nat, nat)>)
    requires AllUnpublished(u, c, points, from + 1)
    ensures AllUnpublished(u, c, FreshAt(u, c, from) + points, from)
  {
    var first := FreshAt(u, c, from);
    if first == [] {
      assert first + points == points;
    } else {
      assert Unpublished(u, c, first[0]) && first == [first[0]];
    }
  }

  /** A second tick with nothing recorded in between appends nothing. */
  lemma TickTwice(u: Usage, c: Chart, start: nat, top: nat, start': nat, top': nat)
    requires ChartInv(u, c)
    ensures Tick(u, Tick(u, c, start, top), start', top') == Tick(u, c, start, top)
  {
    var c1 := Tick(u, c, start, top);
    TickSyncs(u, c, start, top);
    TickNew(u, c1, start', top');
    var c2 := Tick(u, c1, start', top');
    if c2.series != c1.series {
      assert PointOf(u, c1, c2.series[|c1.series|], start', top');
      SyncedAt(u, c1, c2.series[|c1.series|].time);
    }
  }

  // ---- Whole runs ----

  datatype ChartEvent = Record(time: nat, size: nat) | Ticked(rangeStart: nat, rangeTop: nat) | Cleared

  function ChartRun(events: seq<ChartEvent>): (s: (Usage, Chart)) {
    if events == [] then (NoUsage(), NoChart())
    else
      var s := ChartRun(events[..|events| - 1]);
      match events[|events| - 1]
      case Record(time, size) => (s.0.Update(time, size), s.1)
      case Ticked(start, top) => (s.0, Tick(s.0, s.1, start, top))
      case Cleared => (NoUsage(), NoChart())
  }

  /** The latest time recorded since the data was last cleared. */
  function Now(events: seq<ChartEvent>): (time: nat) {
    if events == [] then 0
    else
      match events[|events| - 1]
      case Record(time, _) => time
      case Ticked(_, _) => Now(events[..|events| - 1])
      case Cleared => 0
  }

  /** Times are set, and do not go back. */
  predicate Timely(events: seq<ChartEvent>) {
    if events == [] then true
    else
      && Timely(events[..|events| - 1])
      && match events[|events| - 1]
         case Record(time, _) => 0 < time && Now(events[..|events| - 1]) <= time
         case _ => true
  }

  lemma {:induction false} RunInv(events: seq<ChartEvent>)
    requires Timely(events)
    ensures ChartInv(ChartRun(events).0, ChartRun(events).1) && ChartRun(events).0.lastTime <= Now(events)
  {
    if events == [] {
    } else {
      var front := events[..|events| - 1];
      RunInv(front);
      var s := ChartRun(front);
      match events[|events| - 1]
      case Record(time, size) => RecordKeeps(s.0, s.1, time, size);
      case Ticked(start, top) => TickSyncs(s.0, s.1, start, top);
      case Cleared =>
    }
  }

  /** The incremental chart refines the table: after every tick of a timely run, wherever the ticks fall, each second
      in the table, and no other, is shown with the size the table holds for it. */
  lemma ChartRefinesTable(events: seq<ChartEvent>, rangeStart: nat, rangeTop: nat)
    requires Timely(events)
    ensures InSync(ChartRun(events + [Ticked(rangeStart, rangeTop)]).0,
      ChartRun(events + [Ticked(rangeStart, rangeTop)]).1)
  {
    RunInv(events);
    assert (events + [Ticked(rangeStart, rangeTop)])[..|events|] == events;
    TickSyncs(ChartRun(events).0, ChartRun(events).1, rangeStart, rangeTop);
  }

  /** What was recorded since the data was last cleared. */
  function Recorded(events: seq<ChartEvent>): (records: Records) {
    if events == [] then []
    else
      var front := Recorded(events[..|events| - 1]);
      match events[|events| - 1]
      case Record(time, size) => front + [(time, size)]
      case Ticked(_, _) => front
      case Cleared => []
  }

  lemma {:induction false} RunTable(events: seq<ChartEvent>)
    ensures ChartRun(events).0 == TableOf(Recorded(events))
  {
    if events == [] {
    } else {
      RunTable(events[..|events| - 1]);
      if events[|events| - 1].Record? {
        var records := Recorded(events);
        assert records[..|records| - 1] == Recorded(events[..|events| - 1]);
      }
    }
  }

  /** With sizes below 2 to the 31: after every tick the chart shows, for each second, the maximum recorded in it. */
  lemma ChartShowsMaxima(events: seq<ChartEvent>, rangeStart: nat, rangeTop: nat, time: nat)
    requires Timely(events) && forall i :: 0 <= i < |Recorded(events)| ==> Recorded(events)[i].1 < 0x8000_0000
    ensures Shown(ChartRun(events + [Ticked(rangeStart, rangeTop)]).1.series, time) == MaxAt(Recorded(events), time)
  {
    ChartRefinesTable(events, rangeStart, rangeTop);
    assert (events + [Ticked(rangeStart, rangeTop)])[..|events|] == events;
    RunTable(events);
    TableHoldsMaxima(Recorded(events), time);
  }

  /** A record for an earlier second, exactly: the next tick shows it if and only if that second is not before the last
      one published, or the table did not change. */
  lemma LateRecordExactly(u: Usage, c: Chart, time: nat, size: nat, start: nat, top: nat)
    requires ChartInv(u, c) && InSync(u, c) && c.lastUpdateTime == u.lastTime && 0 < time
    ensures InSync(u.Update(time, size), Tick(u.Update(time, size), c, start, top))
            <==> u.lastTime <= time || InTable(u.Update(time, size), time) == InTable(u, time)
  {
    var u' := u.Update(time, size);
    if u.lastTime <= time {
      RecordKeeps(u, c, time, size);
      TickSyncs(u', c, start, top);
    } else {
      LateTickSilent(u, u', c, time, start, top);
      assert Shown(c.series, time) == InTable(u, time);
      if InTable(u', time) == InTable(u, time) {
        forall t: nat ensures Shown(c.series, t) == InTable(u', t) {
          assert Shown(c.series, t) == InTable(u, t);
        }
      }
    }
  }

  lemma LateTickSilent(u: Usage, u': Usage, c: Chart, time: nat, start: nat, top: nat)
    requires ChartInv(u, c) && InSync(u, c) && c.lastUpdateTime == u.lastTime
    requires exists size :: u' == u.Update(time, size)
    requires 0 < time < u.lastTime
    ensures Tick(u', c, start, top) == c
  {
    var last := u.lastTime;
    assert Shown(c.series, last) == InTable(u, last);
    if u'.lastTime == last {
      assert u'.table[last] == c.lastUpdateValue;
      assert Fresh(u', c, last + 1, last) == [];
    } else {
      assert u'.lastTime == time;
    }
  }
}
