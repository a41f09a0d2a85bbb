/**
 * The overnight chart-alignment transform of `useChartData`.
 *
 * Two raw visitor series (the selected night and the same shop one week
 * earlier) are resampled onto a 10-minute grid from 18:00 of the anchor day
 * to 02:50 of the next day. For each slot the first sample, in ascending
 * timestamp order, whose normalised minutes lie within 5 of the slot's is
 * taken from each series; a slot with no such sample keeps its counts absent.
 */
module ChartData {
  import opened Wrappers
  import opened LocalTime

  /** One raw observation of the counter. */
  datatype Sample = Sample(timestamp: int, male: int, female: int)

  /** A loaded raw series. */
  datatype VisitorData = VisitorData(shop: string, date: string, data: seq<Sample>)

  /** One aligned output row; `None` means "no sample observed", never zero. */
  datatype ChartPoint = ChartPoint(
    timestamp: int,
    time: string,
    hour: int,
    male: Option<int>,
    female: Option<int>,
    prevMale: Option<int>,
    prevFemale: Option<int>)

  /** 10 minutes, in seconds. */
  const SlotInterval: int := 600
  /** The largest accepted difference of normalised minutes. */
  const Tolerance: int := 5
  /** 18:00 through 02:50 inclusive in steps of 10 minutes. */
  const SlotCount: int := 54

  // ---------------------------------------------------------------------
  // Grid

  function StartTime(date: int): int
  {
    SetHours(date, 18, 0)
  }

  function EndTime(date: int): int
  {
    SetHours(AddDays(date, 1), 2, 50)
  }

  /** The `i`-th instant the grid loop visits. */
  function Slot(date: int, i: int): int
  {
    StartTime(date) + 600 * i
  }

  /** The hour filter applied to every grid instant. */
  predicate InWindow(hour: int)
  {
    hour >= 18 || hour < 3
  }

  // ---------------------------------------------------------------------
  // Matching

  function Abs(x: int): int
  {
    if x < 0 then -x else x
  }

  /** The `find` predicate: the sample's normalised minutes are within tolerance. */
  predicate Within(item: Sample, minutes: int)
  {
    Abs(TimeMinutes(item.timestamp) - minutes) <= Tolerance
  }

  /** `k` is the first index of `s` whose sample is within tolerance. */
  ghost predicate IsFirstWithin(s: seq<Sample>, minutes: int, k: int)
  {
    0 <= k < |s| && Within(s[k], minutes) &&
    forall j :: 0 <= j < k ==> !Within(s[j], minutes)
  }

  /** `Array.prototype.find` with the tolerance predicate. */
  function FirstWithin(s: seq<Sample>, minutes: int): (r: Option<Sample>)
    ensures r.None? <==> forall k :: 0 <= k < |s| ==> !Within(s[k], minutes)
    ensures r.Some? ==> r.value in s && Within(r.value, minutes)
  {
    if s == [] then None
    else if Within(s[0], minutes) then Some(s[0])
    else FirstWithin(s[1..], minutes)
  }

  /** The linear scan that `find` performs. */
  method Find(s: seq<Sample>, minutes: int) returns (r: Option<Sample>)
    ensures r == FirstWithin(s, minutes)
  {
    var i := 0;
    while i < |s|
      invariant 0 <= i <= |s|
      invariant FirstWithin(s[i..], minutes) == FirstWithin(s, minutes)
    {
      if Within(s[i], minutes) {
        return Some(s[i]);
      }
      assert s[i..][1..] == s[i + 1..];
      i := i + 1;
    }
    assert s[i..] == [];
    r := None;
  }

  // ---------------------------------------------------------------------
  // Sorting: `[...xs].sort((a, b) => a.timestamp - b.timestamp)`, which is stable

  predicate SortedByTimestamp(s: seq<Sample>)
  {
    forall i, j :: 0 <= i < j < |s| ==> s[i].timestamp <= s[j].timestamp
  }

  /** Places `x` before the first element whose timestamp is not smaller. */
  function Insert(x: Sample, s: seq<Sample>): seq<Sample>
  {
    if s == [] || x.timestamp <= s[0].timestamp then [x] + s
    else [s[0]] + Insert(x, s[1..])
  }

  /** A fresh sorted copy; the input sequence itself is a value and stays as it was. */
  function SortByTimestamp(s: seq<Sample>): seq<Sample>
  {
    if s == [] then [] else Insert(s[0], SortByTimestamp(s[1..]))
  }

  /** Inserting adds exactly `x`. */
  lemma {:induction false} InsertPermutes(x: Sample, s: seq<Sample>)
    ensures |Insert(x, s)| == |s| + 1
    ensures multiset(Insert(x, s)) == multiset(s) + multiset{x}
  {
    if !(s == [] || x.timestamp <= s[0].timestamp) {
      assert s == [s[0]] + s[1..];
      InsertPermutes(x, s[1..]);
    }
  }

  /** Inserting into a sorted series keeps it sorted. */
  lemma {:induction false} InsertSorted(x: Sample, s: seq<Sample>)
    requires SortedByTimestamp(s)
    ensures SortedByTimestamp(Insert(x, s))
  {
    if s == [] || x.timestamp <= s[0].timestamp {
      assert Insert(x, s) == [x] + s;
      ConsSorted(x, s);
    } else {
      var rest := Insert(x, s[1..]);
      assert Insert(x, s) == [s[0]] + rest;
      assert s == [s[0]] + s[1..];
      InsertSorted(x, s[1..]);
      InsertPermutes(x, s[1..]);
      forall k | 0 <= k < |rest| ensures s[0].timestamp <= rest[k].timestamp {
        assert rest[k] in multiset(rest);
        assert rest[k] == x || rest[k] in multiset(s[1..]);
      }
      ConsSorted(s[0], rest);
    }
  }

  lemma ConsSorted(y: Sample, t: seq<Sample>)
    requires SortedByTimestamp(t)
    requires forall k :: 0 <= k < |t| ==> y.timestamp <= t[k].timestamp
    ensures SortedByTimestamp([y] + t)
  {
    var r := [y] + t;
    forall i, j | 0 <= i < j < |r| ensures r[i].timestamp <= r[j].timestamp {
      assert r[j] == t[j - 1];
      if i > 0 {
        assert r[i] == t[i - 1];
      }
    }
  }

  /** The sorted copy is ascending by timestamp and a permutation of the series. */
  lemma {:induction false} SortSortsAndPermutes(s: seq<Sample>)
    ensures SortedByTimestamp(SortByTimestamp(s))
    ensures multiset(SortByTimestamp(s)) == multiset(s)
  {
    if s != [] {
      assert s == [s[0]] + s[1..];
      SortSortsAndPermutes(s[1..]);
      InsertSorted(s[0], SortByTimestamp(s[1..]));
      InsertPermutes(s[0], SortByTimestamp(s[1..]));
    }
  }

  /** The samples of `s` stamped exactly `key`, in their order in `s`. */
  function WithTimestamp(s: seq<Sample>, key: int): seq<Sample>
  {
    if s == [] then []
    else (if s[0].timestamp == key then [s[0]] else []) + WithTimestamp(s[1..], key)
  }

  // ---------------------------------------------------------------------
  // Point assembly and the loop

  function MaleOf(o: Option<Sample>): Option<int>
  {
    if o.Some? then Some(o.value.male) else None
  }

  function FemaleOf(o: Option<Sample>): Option<int>
  {
    if o.Some? then Some(o.value.female) else None
  }

  /** The point pushed for grid instant `t`. */
  function MakePoint(t: int, sortedData: seq<Sample>, sortedComparison: seq<Sample>): ChartPoint
  {
    var minutes := TimeMinutes(t);
    var currentData := FirstWithin(sortedData, minutes);
    var comparisonPoint := FirstWithin(sortedComparison, minutes);
    ChartPoint(t, Label(t), Hour(t),
      MaleOf(currentData), FemaleOf(currentData),
      MaleOf(comparisonPoint), FemaleOf(comparisonPoint))
  }

  /** What the `while (current <= endTime)` loop appends from `current` on. */
  function PointsFrom(current: int, end: int, sortedData: seq<Sample>, sortedComparison: seq<Sample>): seq<ChartPoint>
    decreases end - current + SlotInterval
  {
    if current > end then []
    else
      (if InWindow(Hour(current)) then [MakePoint(current, sortedData, sortedComparison)] else [])
      + PointsFrom(current + SlotInterval, end, sortedData, sortedComparison)
  }

  /** The whole transform, as a value. */
  function ChartPoints(date: int, data: Option<VisitorData>, comparisonData: Option<VisitorData>): (r: seq<ChartPoint>)
    ensures data.Some? && comparisonData.Some? ==> |r| == SlotCount
  {
    if data.None? || comparisonData.None? then []
    else
      var sortedData := SortByTimestamp(data.value.data);
      var sortedComparison := SortByTimestamp(comparisonData.value.data);
      assert Slot(date, 0) == StartTime(date);
      PointsFromSlot(date, 0, sortedData, sortedComparison);
      PointsFrom(StartTime(date), EndTime(date), sortedData, sortedComparison)
  }

  /** `useChartData`. */
  method UseChartData(date: int, data: Option<VisitorData>, comparisonData: Option<VisitorData>)
    returns (timePoints: seq<ChartPoint>)
    ensures timePoints == ChartPoints(date, data, comparisonData)
    ensures data.None? || comparisonData.None? ==> timePoints == []
    ensures data.Some? && comparisonData.Some? ==> |timePoints| == SlotCount
  {
    if data.None? || comparisonData.None? {
      return [];
    }
    var startTime := StartTime(date);
    var endTime := EndTime(date);
    var sortedData := SortByTimestamp(data.value.data);
    var sortedComparisonData := SortByTimestamp(comparisonData.value.data);
    timePoints := [];
    var current := startTime;
    while current <= endTime
      invariant timePoints + PointsFrom(current, endTime, sortedData, sortedComparisonData)
        == PointsFrom(startTime, endTime, sortedData, sortedComparisonData)
      decreases endTime - current + SlotInterval
    {
      ghost var rest := PointsFrom(current + SlotInterval, endTime, sortedData, sortedComparisonData);
      PointsFromStep(current, endTime, sortedData, sortedComparisonData);
      var hour := Hour(current);
      if hour >= 18 || hour < 3 {
        var point := AssemblePoint(current, sortedData, sortedComparisonData);
        assert timePoints + ([point] + rest) == (timePoints + [point]) + rest;
        timePoints := timePoints + [point];
      }
      current := current + SlotInterval;
    }
    assert timePoints + [] == timePoints;
  }

  /** The body of the loop for an instant inside the window: two `find`s and the point. */
  method AssemblePoint(current: int, sortedData: seq<Sample>, sortedComparisonData: seq<Sample>)
    returns (point: ChartPoint)
    ensures point == MakePoint(current, sortedData, sortedComparisonData)
  {
    var hour := Hour(current);
    var currentMinutes := TimeMinutes(current);
    var currentData := Find(sortedData, currentMinutes);
    var comparisonPoint := Find(sortedComparisonData, currentMinutes);
    point := ChartPoint(current, Label(current), hour,
      MaleOf(currentData), FemaleOf(currentData),
      MaleOf(comparisonPoint), FemaleOf(comparisonPoint));
  }

  /** One turn of the loop: the point at `current`, if its hour is in the window, then the rest. */
  lemma PointsFromStep(current: int, end: int, sortedData: seq<Sample>, sortedComparison: seq<Sample>)
    requires current <= end
    ensures InWindow(Hour(current)) ==>
      PointsFrom(current, end, sortedData, sortedComparison)
        == [MakePoint(current, sortedData, sortedComparison)] + PointsFrom(current + SlotInterval, end, sortedData, sortedComparison)
    ensures !InWindow(Hour(current)) ==>
      PointsFrom(current, end, sortedData, sortedComparison) == PointsFrom(current + SlotInterval, end, sortedData, sortedComparison)
  {
    assert [] + PointsFrom(current + SlotInterval, end, sortedData, sortedComparison)
      == PointsFrom(current + SlotInterval, end, sortedData, sortedComparison);
  }

  // ---------------------------------------------------------------------
  // The grid

  lemma StartAndEnd(date: int)
    ensures StartTime(date) == DayStart(date) + 18 * 3600
    ensures EndTime(date) == Slot(date, SlotCount - 1)
    ensures DayStart(EndTime(date)) == DayStart(date) + 86400
  {
  }

  /** Normalised minutes from 04:00 to 04:00 across the night, read as an offset `r` from 18:00. */
  lemma NightMinutes(date: int, r: int)
    requires -50400 <= r < 36000
    ensures TimeMinutes(StartTime(date) + r) == 1080 + r / 60
  {
    var t := StartTime(date) + r;
    TimeMinutesSinceFour(t);
    DivModUnique(t - 14400, 86400, date / 86400, 50400 + r);
    DivModUnique(50400 + r, 60, 840 + r / 60, r % 60);
  }

  /** The clock reading of grid slot `i`. */
  lemma SlotClock(date: int, i: int)
    requires 0 <= i < SlotCount
    ensures TimeMinutes(Slot(date, i)) == 1080 + 10 * i
    ensures Hour(Slot(date, i)) == (18 + i / 6) % 24
    ensures Minute(Slot(date, i)) == 10 * (i % 6)
    ensures InWindow(Hour(Slot(date, i)))
  {
    NightMinutes(date, 600 * i);
    DivModUnique(600 * i, 60, 10 * i, 0);
    TimeMinutesParts(Slot(date, i));
    DivModUnique(1080 + 10 * i, 60, 18 + i / 6, 10 * (i % 6));
  }

  lemma PointsFromSlot(date: int, j: int, sortedData: seq<Sample>, sortedComparison: seq<Sample>)
    requires 0 <= j <= SlotCount
    ensures var r := PointsFrom(Slot(date, j), EndTime(date), sortedData, sortedComparison);
      |r| == SlotCount - j &&
      forall k :: 0 <= k < SlotCount - j ==> r[k] == MakePoint(Slot(date, j + k), sortedData, sortedComparison)
  {
    var start := StartTime(date);
    StartAndEnd(date);
    assert EndTime(date) == start + 31800;
    assert Slot(date, j) == start + 600 * j;
    NightInWindow(date);
    PointsFromGrid(start, j, sortedData, sortedComparison);
  }

  /** Every grid slot's hour is inside the evening window. */
  lemma NightInWindow(date: int)
    ensures forall i :: 0 <= i < SlotCount ==> Visible(StartTime(date), i)
  {
    forall i | 0 <= i < SlotCount ensures Visible(StartTime(date), i) {
      SlotClock(date, i);
    }
  }

  /** The loop's filter keeps the `i`-th instant after `start`. */
  ghost predicate Visible(start: int, i: int)
  {
    InWindow(Hour(start + 600 * i))
  }

  /** The points of grid slots `j` to 53, slot by slot, as a reference for what the loop appends. */
  ghost function GridPoints(start: int, j: int, sortedData: seq<Sample>, sortedComparison: seq<Sample>): seq<ChartPoint>
    requires 0 <= j <= 54
  {
    seq(54 - j, k => MakePoint(start + 600 * (j + k), sortedData, sortedComparison))
  }

  /** When every remaining slot is visible, the loop from slot `j` appends exactly the grid points. */
  lemma {:induction false} PointsFromGrid(start: int, j: int, sortedData: seq<Sample>, sortedComparison: seq<Sample>)
    requires 0 <= j <= 54
    requires forall i :: j <= i < 54 ==> Visible(start, i)
    ensures PointsFrom(start + 600 * j, start + 31800, sortedData, sortedComparison)
      == GridPoints(start, j, sortedData, sortedComparison)
    decreases 54 - j
  {
    if j < 54 {
      HeadSplit(start, j, sortedData, sortedComparison);
      PointsFromGrid(start, j + 1, sortedData, sortedComparison);
      GridCons(start, j, sortedData, sortedComparison);
    }
  }

  lemma GridCons(start: int, j: int, sortedData: seq<Sample>, sortedComparison: seq<Sample>)
    requires 0 <= j < 54
    ensures GridPoints(start, j, sortedData, sortedComparison)
      == [MakePoint(start + 600 * j, sortedData, sortedComparison)] + GridPoints(start, j + 1, sortedData, sortedComparison)
  {
    var g := GridPoints(start, j, sortedData, sortedComparison);
    var h := [MakePoint(start + 600 * j, sortedData, sortedComparison)] + GridPoints(start, j + 1, sortedData, sortedComparison);
    assert |g| == |h|;
    forall k | 0 <= k < |g| ensures g[k] == h[k] {
      if k > 0 {
        assert j + 1 + (k - 1) == j + k;
      }
    }
  }

  /** A visible instant before the end contributes its point ahead of the rest. */
  lemma HeadSplit(start: int, j: int, sortedData: seq<Sample>, sortedComparison: seq<Sample>)
    requires 0 <= j < 54 && Visible(start, j)
    ensures PointsFrom(start + 600 * j, start + 31800, sortedData, sortedComparison)
      == [MakePoint(start + 600 * j, sortedData, sortedComparison)]
        + PointsFrom(start + 600 * (j + 1), start + 31800, sortedData, sortedComparison)
  {
    assert start + 600 * j + 600 == start + 600 * (j + 1);
    PointsFromStep(start + 600 * j, start + 31800, sortedData, sortedComparison);
  }

  /** Both series loaded: one point per grid slot, slot `i` built from instant `Slot(date, i)`. */
  lemma Grid(date: int, data: Option<VisitorData>, comparisonData: Option<VisitorData>)
    requires data.Some? && comparisonData.Some?
    ensures var r := ChartPoints(date, data, comparisonData);
      |r| == SlotCount &&
      (forall i :: 0 <= i < SlotCount ==>
        r[i] == MakePoint(Slot(date, i), SortByTimestamp(data.value.data), SortByTimestamp(comparisonData.value.data))) &&
      (forall i :: 0 <= i < SlotCount ==> r[i].timestamp == Slot(date, i))
  {
    var sortedData := SortByTimestamp(data.value.data);
    var sortedComparison := SortByTimestamp(comparisonData.value.data);
    assert Slot(date, 0) == StartTime(date);
    assert ChartPoints(date, data, comparisonData) == PointsFrom(Slot(date, 0), EndTime(date), sortedData, sortedComparison);
    PointsFromSlot(date, 0, sortedData, sortedComparison);
  }

  /** The grid starts at 18:00 of the anchor day and ends at 02:50 of the next day. */
  lemma GridEnds(date: int, data: Option<VisitorData>, comparisonData: Option<VisitorData>)
    requires data.Some? && comparisonData.Some?
    ensures var r := ChartPoints(date, data, comparisonData);
      |r| == SlotCount &&
      r[0].timestamp == StartTime(date) && DayStart(r[0].timestamp) == DayStart(date) &&
      Hour(r[0].timestamp) == 18 && Minute(r[0].timestamp) == 0 && r[0].time == "18:00" &&
      r[SlotCount - 1].timestamp == EndTime(date) &&
      DayStart(r[SlotCount - 1].timestamp) == DayStart(date) + 86400 &&
      Hour(r[SlotCount - 1].timestamp) == 2 && Minute(r[SlotCount - 1].timestamp) == 50 &&
      r[SlotCount - 1].time == "02:50" &&
      EndTime(date) < r[SlotCount - 1].timestamp + SlotInterval
  {
    Grid(date, data, comparisonData);
    var r := ChartPoints(date, data, comparisonData);
    assert r[0].timestamp == Slot(date, 0) && r[0].time == Label(Slot(date, 0));
    assert r[SlotCount - 1].timestamp == Slot(date, SlotCount - 1) && r[SlotCount - 1].time == Label(Slot(date, SlotCount - 1));
    FirstAndLastSlot(date);
  }

  lemma FirstAndLastSlot(date: int)
    ensures Slot(date, 0) == StartTime(date) && DayStart(Slot(date, 0)) == DayStart(date)
    ensures Hour(Slot(date, 0)) == 18 && Minute(Slot(date, 0)) == 0 && Label(Slot(date, 0)) == "18:00"
    ensures Slot(date, SlotCount - 1) == EndTime(date) && DayStart(Slot(date, SlotCount - 1)) == DayStart(date) + 86400
    ensures Hour(Slot(date, SlotCount - 1)) == 2 && Minute(Slot(date, SlotCount - 1)) == 50
    ensures Label(Slot(date, SlotCount - 1)) == "02:50"
  {
    StartAndEnd(date);
    SlotClock(date, 0);
    LabelOf(Slot(date, 0), 18, 0);
    SlotClock(date, SlotCount - 1);
    LabelOf(Slot(date, SlotCount - 1), 2, 50);
  }

  lemma LabelOf(t: int, h: int, m: int)
    requires Hour(t) == h && Minute(t) == m
    ensures Label(t) == [Digit(h / 10), Digit(h % 10), ':', Digit(m / 10), Digit(m % 10)]
  {
  }

  /** Consecutive points are exactly one slot apart, so timestamps strictly increase. */
  lemma GridSpacing(date: int, data: Option<VisitorData>, comparisonData: Option<VisitorData>)
    requires data.Some? && comparisonData.Some?
    ensures var r := ChartPoints(date, data, comparisonData);
      |r| == SlotCount &&
      (forall i :: 0 <= i < SlotCount - 1 ==> r[i + 1].timestamp == r[i].timestamp + SlotInterval) &&
      (forall i, j :: 0 <= i < j < SlotCount ==> r[i].timestamp < r[j].timestamp)
  {
    Grid(date, data, comparisonData);
    var r := ChartPoints(date, data, comparisonData);
    forall i, j | 0 <= i < j < SlotCount ensures r[i].timestamp < r[j].timestamp {
      assert r[i].timestamp == Slot(date, i) && r[j].timestamp == Slot(date, j);
    }
  }

  /** Each point carries its slot's own hour, label and normalised minutes, all inside the window. */
  lemma PointClock(date: int, data: Option<VisitorData>, comparisonData: Option<VisitorData>, i: int)
    requires data.Some? && comparisonData.Some? && 0 <= i < SlotCount
    ensures var p := ChartPoints(date, data, comparisonData)[i];
      p.timestamp == Slot(date, i) &&
      p.hour == Hour(p.timestamp) && InWindow(p.hour) &&
      p.time == Label(p.timestamp) &&
      TimeMinutes(p.timestamp) == 1080 + 10 * i
  {
    Grid(date, data, comparisonData);
    SlotClock(date, i);
  }

  // ---------------------------------------------------------------------
  // Matching

  /** A sample near the night matches slot `i` exactly when its whole-minute offset is within 5. */
  lemma WithinSlot(date: int, i: int, s: Sample)
    requires 0 <= i < SlotCount
    requires -50400 <= s.timestamp - StartTime(date) < 36000
    ensures Within(s, TimeMinutes(Slot(date, i))) <==>
      -Tolerance <= (s.timestamp - Slot(date, i)) / 60 <= Tolerance
  {
    var x := s.timestamp - StartTime(date);
    NightMinutes(date, x);
    SlotClock(date, i);
    DivModUnique(x - 600 * i, 60, x / 60 - 10 * i, x % 60);
  }

  /** The tolerance boundary: 5 minutes from a slot matches, 6 minutes does not. */
  lemma ToleranceBoundary(date: int, i: int, male: int, female: int)
    requires 0 <= i < SlotCount
    ensures var m := TimeMinutes(Slot(date, i));
      Within(Sample(Slot(date, i) + 5 * 60, male, female), m) &&
      Within(Sample(Slot(date, i) - 5 * 60, male, female), m) &&
      !Within(Sample(Slot(date, i) + 6 * 60, male, female), m) &&
      !Within(Sample(Slot(date, i) - 6 * 60, male, female), m)
  {
    WithinSlot(date, i, Sample(Slot(date, i) + 5 * 60, male, female));
    WithinSlot(date, i, Sample(Slot(date, i) - 5 * 60, male, female));
    WithinSlot(date, i, Sample(Slot(date, i) + 6 * 60, male, female));
    WithinSlot(date, i, Sample(Slot(date, i) - 6 * 60, male, female));
  }

  /**
   * The bound is inclusive on both sides and the step is twice the bound, so a
   * sample halfway between two slots is taken by both of them.
   */
  lemma HalfwaySampleFillsBothSlots(date: int, i: int, male: int, female: int)
    requires 0 <= i < SlotCount - 1
    ensures var s := Sample(Slot(date, i) + 5 * 60, male, female);
      Within(s, TimeMinutes(Slot(date, i))) && Within(s, TimeMinutes(Slot(date, i + 1)))
  {
    var s := Sample(Slot(date, i) + 5 * 60, male, female);
    WithinSlot(date, i, s);
    WithinSlot(date, i + 1, s);
  }

  lemma {:induction false} FirstWithinIndex(s: seq<Sample>, minutes: int)
    ensures FirstWithin(s, minutes).Some? ==>
      exists k :: IsFirstWithin(s, minutes, k) && s[k] == FirstWithin(s, minutes).value
  {
    if s != [] {
      if Within(s[0], minutes) {
        assert IsFirstWithin(s, minutes, 0);
      } else {
        FirstWithinIndex(s[1..], minutes);
        if FirstWithin(s[1..], minutes).Some? {
          var k :| IsFirstWithin(s[1..], minutes, k) && s[1..][k] == FirstWithin(s[1..], minutes).value;
          assert IsFirstWithin(s, minutes, k + 1);
        }
      }
    }
  }

  /** Inserting never reorders samples that share a timestamp. */
  lemma {:induction false} InsertStable(x: Sample, s: seq<Sample>, key: int)
    ensures WithTimestamp(Insert(x, s), key) == (if x.timestamp == key then [x] else []) + WithTimestamp(s, key)
  {
    var here := if x.timestamp == key then [x] else [];
    if s == [] || x.timestamp <= s[0].timestamp {
      assert Insert(x, s) == [x] + s;
      assert ([x] + s)[0] == x && ([x] + s)[1..] == s;
      assert WithTimestamp([x] + s, key) == here + WithTimestamp(s, key);
    } else {
      var rest := Insert(x, s[1..]);
      var first := if s[0].timestamp == key then [s[0]] else [];
      assert Insert(x, s) == [s[0]] + rest;
      assert ([s[0]] + rest)[0] == s[0] && ([s[0]] + rest)[1..] == rest;
      InsertStable(x, s[1..], key);
      assert WithTimestamp([s[0]] + rest, key) == first + (here + WithTimestamp(s[1..], key));
      assert WithTimestamp(s, key) == first + WithTimestamp(s[1..], key);
      assert first == [] || here == [];
      assert first + (here + WithTimestamp(s[1..], key)) == here + (first + WithTimestamp(s[1..], key));
    }
  }

  /** The sort is stable: samples with equal timestamps keep their input order. */
  lemma {:induction false} SortStable(s: seq<Sample>, key: int)
    ensures WithTimestamp(SortByTimestamp(s), key) == WithTimestamp(s, key)
  {
    if s != [] {
      InsertStable(s[0], SortByTimestamp(s[1..]), key);
      SortStable(s[1..], key);
    }
  }

  lemma {:induction false} WithTimestampHead(s: seq<Sample>, k: int, key: int)
    requires 0 <= k < |s| && s[k].timestamp == key
    requires forall j :: 0 <= j < k ==> s[j].timestamp != key
    ensures |WithTimestamp(s, key)| > 0 && WithTimestamp(s, key)[0] == s[k]
  {
    if k > 0 {
      WithTimestampHead(s[1..], k - 1, key);
    }
  }

  /**
   * The sample a series contributes to a slot, described without the sort:
   * an eligible sample with the smallest timestamp among the eligible ones,
   * and among samples sharing that timestamp the one listed first.
   */
  ghost predicate Chosen(series: seq<Sample>, minutes: int, c: Sample)
  {
    c in series && Within(c, minutes) &&
    (forall s :: s in series && Within(s, minutes) ==> c.timestamp <= s.timestamp) &&
    |WithTimestamp(series, c.timestamp)| > 0 && WithTimestamp(series, c.timestamp)[0] == c
  }

  /** The sorted copy holds the same samples as the series. */
  lemma SortKeepsMembers(series: seq<Sample>)
    ensures forall s :: s in SortByTimestamp(series) <==> s in series
  {
    var t := SortByTimestamp(series);
    SortSortsAndPermutes(series);
    forall s ensures s in t <==> s in series {
      assert s in t <==> s in multiset(t);
      assert s in series <==> s in multiset(series);
    }
  }

  /** In a sorted series the first eligible sample is the earliest eligible one and heads its timestamp's group. */
  lemma FirstInSorted(t: seq<Sample>, minutes: int, k: int)
    requires SortedByTimestamp(t) && IsFirstWithin(t, minutes, k)
    ensures forall s :: s in t && Within(s, minutes) ==> t[k].timestamp <= s.timestamp
    ensures |WithTimestamp(t, t[k].timestamp)| > 0 && WithTimestamp(t, t[k].timestamp)[0] == t[k]
  {
    forall s | s in t && Within(s, minutes) ensures t[k].timestamp <= s.timestamp {
      var j :| 0 <= j < |t| && t[j] == s;
      assert j >= k;
    }
    forall j | 0 <= j < k ensures t[j].timestamp != t[k].timestamp {
      assert !Within(t[j], minutes);
    }
    WithTimestampHead(t, k, t[k].timestamp);
  }

  /** What `find` on the sorted copy returns, in terms of the unsorted series. */
  lemma FirstMatch(series: seq<Sample>, minutes: int)
    ensures var r := FirstWithin(SortByTimestamp(series), minutes);
      (r.None? <==> forall s :: s in series ==> !Within(s, minutes)) &&
      (r.Some? ==> Chosen(series, minutes, r.value))
  {
    var t := SortByTimestamp(series);
    var r := FirstWithin(t, minutes);
    SortKeepsMembers(series);
    SortSortsAndPermutes(series);
    if r.Some? {
      FirstWithinIndex(t, minutes);
      var k :| IsFirstWithin(t, minutes, k) && t[k] == r.value;
      FirstInSorted(t, minutes, k);
      SortStable(series, r.value.timestamp);
    }
  }

  /** The choice is a function of the series: at most one sample is `Chosen`. */
  lemma ChosenUnique(series: seq<Sample>, minutes: int, c1: Sample, c2: Sample)
    requires Chosen(series, minutes, c1) && Chosen(series, minutes, c2)
    ensures c1 == c2
  {
  }

  /**
   * Samples at 18:00 and 18:10 are both 5 minutes from 18:05; the earlier one
   * is taken, whatever order the series lists them in.
   */
  lemma TieGoesToEarlier(date: int, a: Sample, b: Sample)
    requires a.timestamp == Slot(date, 0) && b.timestamp == Slot(date, 1)
    ensures FirstWithin(SortByTimestamp([b, a]), TimeMinutes(StartTime(date) + 5 * 60)) == Some(a)
    ensures FirstWithin(SortByTimestamp([a, b]), TimeMinutes(StartTime(date) + 5 * 60)) == Some(a)
  {
    NightMinutes(date, 5 * 60);
    SlotClock(date, 0);
    assert SortByTimestamp([a]) == [a] by {
      assert [a][1..] == [];
    }
    assert [b, a][1..] == [a];
    assert Insert(b, [a]) == [a] + Insert(b, []) == [a, b];
    assert SortByTimestamp([b, a]) == [a, b];
    assert [a, b][1..] == [b];
  }

  /**
   * The match is the first eligible sample, not the nearest: for slot 18:00
   * with samples at 17:56 and 18:01, the 17:56 sample is taken.
   */
  lemma FirstNotNearest(date: int, a: Sample, b: Sample)
    requires a.timestamp == StartTime(date) - 4 * 60
    requires b.timestamp == StartTime(date) + 1 * 60
    ensures Abs(TimeMinutes(b.timestamp) - TimeMinutes(Slot(date, 0))) < Abs(TimeMinutes(a.timestamp) - TimeMinutes(Slot(date, 0)))
    ensures FirstWithin(SortByTimestamp([b, a]), TimeMinutes(Slot(date, 0))) == Some(a)
  {
    NightMinutes(date, -4 * 60);
    NightMinutes(date, 1 * 60);
    SlotClock(date, 0);
    assert SortByTimestamp([a]) == [a] by {
      assert [a][1..] == [];
    }
    assert [b, a][1..] == [a];
    assert Insert(b, [a]) == [a] + Insert(b, []) == [a, b];
    assert SortByTimestamp([b, a]) == [a, b];
  }

  // ---------------------------------------------------------------------
  // The counts of a point

  /**
   * `male`/`female` of slot `i` are copied from the chosen sample of the current
   * series, and are absent exactly when no sample of it is eligible.
   */
  lemma CurrentCounts(date: int, data: Option<VisitorData>, comparisonData: Option<VisitorData>, i: int)
    requires data.Some? && comparisonData.Some? && 0 <= i < SlotCount
    ensures var p := ChartPoints(date, data, comparisonData)[i];
      var series, minutes := data.value.data, 1080 + 10 * i;
      (p.male.None? <==> forall s :: s in series ==> !Within(s, minutes)) &&
      (p.female.None? <==> p.male.None?) &&
      (p.male.Some? ==> exists c :: Chosen(series, minutes, c) && p.male == Some(c.male) && p.female == Some(c.female))
  {
    Grid(date, data, comparisonData);
    SlotClock(date, i);
    FirstMatch(data.value.data, 1080 + 10 * i);
  }

  /** The same for `prevMale`/`prevFemale` and the comparison series. */
  lemma PreviousCounts(date: int, data: Option<VisitorData>, comparisonData: Option<VisitorData>, i: int)
    requires data.Some? && comparisonData.Some? && 0 <= i < SlotCount
    ensures var p := ChartPoints(date, data, comparisonData)[i];
      var series, minutes := comparisonData.value.data, 1080 + 10 * i;
      (p.prevMale.None? <==> forall s :: s in series ==> !Within(s, minutes)) &&
      (p.prevFemale.None? <==> p.prevMale.None?) &&
      (p.prevMale.Some? ==> exists c :: Chosen(series, minutes, c) && p.prevMale == Some(c.male) && p.prevFemale == Some(c.female))
  {
    Grid(date, data, comparisonData);
    SlotClock(date, i);
    FirstMatch(comparisonData.value.data, 1080 + 10 * i);
  }

  /** The current counts read only the current series. */
  lemma CurrentIgnoresComparison(date: int, data: Option<VisitorData>, c1: Option<VisitorData>, c2: Option<VisitorData>)
    requires data.Some? && c1.Some? && c2.Some?
    ensures var r1, r2 := ChartPoints(date, data, c1), ChartPoints(date, data, c2);
      |r1| == |r2| &&
      forall i :: 0 <= i < |r1| ==>
        r1[i].timestamp == r2[i].timestamp && r1[i].time == r2[i].time && r1[i].hour == r2[i].hour &&
        r1[i].male == r2[i].male && r1[i].female == r2[i].female
  {
    Grid(date, data, c1);
    Grid(date, data, c2);
  }

  /** The comparison counts read only the comparison series. */
  lemma PreviousIgnoresCurrent(date: int, d1: Option<VisitorData>, d2: Option<VisitorData>, comparisonData: Option<VisitorData>)
    requires d1.Some? && d2.Some? && comparisonData.Some?
    ensures var r1, r2 := ChartPoints(date, d1, comparisonData), ChartPoints(date, d2, comparisonData);
      |r1| == |r2| &&
      forall i :: 0 <= i < |r1| ==>
        r1[i].prevMale == r2[i].prevMale && r1[i].prevFemale == r2[i].prevFemale
  {
    Grid(date, d1, comparisonData);
    Grid(date, d2, comparisonData);
  }

  /**
   * A sample 2 minutes after 18:00 fills the 18:00 slot with its counts, zero
   * included, and leaves the 18:10 slot absent.
   */
  lemma SingleSampleExample(date: int, male: int, female: int, shop: string, day: string, comparisonData: Option<VisitorData>)
    requires comparisonData.Some?
    ensures var r := ChartPoints(date, Some(VisitorData(shop, day, [Sample(StartTime(date) + 2 * 60, male, female)])), comparisonData);
      |r| == SlotCount &&
      r[0].male == Some(male) && r[0].female == Some(female) &&
      r[1].male.None? && r[1].female.None?
  {
    var s := Sample(StartTime(date) + 2 * 60, male, female);
    var data := Some(VisitorData(shop, day, [s]));
    Grid(date, data, comparisonData);
    assert [s][1..] == [];
    assert SortByTimestamp([s]) == [s];
    NightMinutes(date, 2 * 60);
    SlotClock(date, 0);
    SlotClock(date, 1);
  }

  // ---------------------------------------------------------------------
  // Week-over-week alignment

  /** The series moved by `n` whole days, counts untouched. */
  function ShiftDays(s: seq<Sample>, n: int): seq<Sample>
  {
    if s == [] then []
    else [s[0].(timestamp := s[0].timestamp + n * 86400)] + ShiftDays(s[1..], n)
  }

  lemma {:induction false} InsertShift(x: Sample, s: seq<Sample>, n: int)
    ensures Insert(x.(timestamp := x.timestamp + n * 86400), ShiftDays(s, n)) == ShiftDays(Insert(x, s), n)
  {
    var x' := x.(timestamp := x.timestamp + n * 86400);
    var t := ShiftDays(s, n);
    if s == [] {
      assert ([x] + s)[1..] == s;
    } else {
      var s0' := s[0].(timestamp := s[0].timestamp + n * 86400);
      assert t == [s0'] + ShiftDays(s[1..], n);
      assert t[0] == s0' && t[1..] == ShiftDays(s[1..], n);
      if x.timestamp <= s[0].timestamp {
        assert ([x] + s)[1..] == s;
        assert Insert(x', t) == [x'] + t;
      } else {
        var rest := Insert(x, s[1..]);
        assert ([s[0]] + rest)[1..] == rest;
        assert ShiftDays([s[0]] + rest, n) == [s0'] + ShiftDays(rest, n);
        InsertShift(x, s[1..], n);
        assert Insert(x', t) == [s0'] + Insert(x', ShiftDays(s[1..], n));
      }
    }
  }

  lemma {:induction false} SortShift(s: seq<Sample>, n: int)
    ensures SortByTimestamp(ShiftDays(s, n)) == ShiftDays(SortByTimestamp(s), n)
  {
    if s != [] {
      var t := ShiftDays(s, n);
      var x' := s[0].(timestamp := s[0].timestamp + n * 86400);
      assert t == [x'] + ShiftDays(s[1..], n);
      assert t[0] == x' && t[1..] == ShiftDays(s[1..], n);
      SortShift(s[1..], n);
      InsertShift(s[0], SortByTimestamp(s[1..]), n);
      calc {
        SortByTimestamp(t);
        Insert(x', SortByTimestamp(ShiftDays(s[1..], n)));
        Insert(x', ShiftDays(SortByTimestamp(s[1..]), n));
        ShiftDays(Insert(s[0], SortByTimestamp(s[1..])), n);
        ShiftDays(SortByTimestamp(s), n);
      }
    }
  }

  lemma {:induction false} FirstWithinShift(s: seq<Sample>, minutes: int, n: int)
    ensures MaleOf(FirstWithin(ShiftDays(s, n), minutes)) == MaleOf(FirstWithin(s, minutes))
    ensures FemaleOf(FirstWithin(ShiftDays(s, n), minutes)) == FemaleOf(FirstWithin(s, minutes))
  {
    if s != [] {
      var t := ShiftDays(s, n);
      assert t[0] == s[0].(timestamp := s[0].timestamp + n * 86400);
      assert t[1..] == ShiftDays(s[1..], n);
      TimeMinutesPeriodic(s[0].timestamp, n);
      assert Within(t[0], minutes) == Within(s[0], minutes);
      FirstWithinShift(s[1..], minutes, n);
    }
  }

  /**
   * Points are aligned by grid slot, not by timestamp: a comparison series that
   * repeats the current one exactly seven days earlier yields `prevMale` and
   * `prevFemale` equal to `male` and `female` at every slot.
   */
  lemma SameNightLastWeek(date: int, shop: string, day: string, weekBefore: string, samples: seq<Sample>)
    ensures var r := ChartPoints(date, Some(VisitorData(shop, day, samples)),
                                 Some(VisitorData(shop, weekBefore, ShiftDays(samples, -7))));
      |r| == SlotCount &&
      forall i :: 0 <= i < SlotCount ==> r[i].prevMale == r[i].male && r[i].prevFemale == r[i].female
  {
    var data := Some(VisitorData(shop, day, samples));
    var comparisonData := Some(VisitorData(shop, weekBefore, ShiftDays(samples, -7)));
    Grid(date, data, comparisonData);
    SortShift(samples, -7);
    forall i | 0 <= i < SlotCount
      ensures ChartPoints(date, data, comparisonData)[i].prevMale == ChartPoints(date, data, comparisonData)[i].male
      ensures ChartPoints(date, data, comparisonData)[i].prevFemale == ChartPoints(date, data, comparisonData)[i].female
    {
      FirstWithinShift(SortByTimestamp(samples), TimeMinutes(Slot(date, i)), -7);
    }
  }
}
