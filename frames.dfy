/**
 * Time frames of a Gantt column: the records the calendar resolves for each
 * day, how the column clips them to its own span, and how the per-day slices
 * are concatenated (src/core/logic/column/column.factory.js, updateTimeFrames).
 *
 * Time is an integer number of milliseconds and one day is a fixed step of
 * DAY milliseconds.
 */
module TimeFrames {
  import opened Wrappers

  /** Milliseconds in one day: the step of the day loop. */
  const DAY: int := 86_400_000

  /** What the column does with one classification (working or non-working) of frames. */
  datatype Mode = Visible | Hidden | Cropped | Unset

  /** One interval as the calendar resolves it; a missing edge is None. */
  datatype CalendarFrame = CalendarFrame(start: Option<int>, end: Option<int>, working: bool, magnet: bool)

  /**
   * The calendar, reduced to what the column asks of it: given the window
   * [windowStart, windowEnd) of one day, the resolved (solved) intervals of
   * that window.
   */
  type Calendar = (int, int) -> seq<CalendarFrame>

  /** A {left, width} pair; left is None once the frame has been collapsed. */
  datatype Size = Size(left: Option<real>, width: real)

  /** The column's own copy of a calendar interval, with the layout fields the column attaches. */
  datatype TimeFrame = TimeFrame(
    start: int, end: int, working: bool, magnet: bool,
    left: Option<real>, width: real, hidden: bool, cropped: bool, originalSize: Size)

  function Min(a: int, b: int): int
  {
    if a <= b then a else b
  }

  /**
   * The frame the column keeps for calendar record `cf` of the day that starts
   * at `dayStart` and whose next day starts at `dayEnd`: a missing edge
   * defaults to the day bound, then both edges are clamped into the column's
   * [date, endDate]. The result is a fresh value, so the calendar's record is
   * never changed.
   */
  function Clip(cf: CalendarFrame, dayStart: int, dayEnd: int, date: int, endDate: int): (tf: TimeFrame)
    ensures date <= tf.start && cf.start.GetOr(dayStart) <= tf.start
    ensures tf.start == date || tf.start == cf.start.GetOr(dayStart)
    ensures tf.end <= endDate && tf.end <= cf.end.GetOr(dayEnd)
    ensures tf.end == endDate || tf.end == cf.end.GetOr(dayEnd)
    ensures tf.working == cf.working && tf.magnet == cf.magnet
    ensures tf.left == None && !tf.cropped
  {
    var start := cf.start.GetOr(dayStart);
    var end := cf.end.GetOr(dayEnd);
    TimeFrame(if start < date then date else start, if end > endDate then endDate else end,
              cf.working, cf.magnet, None, 0.0, false, false, Size(None, 0.0))
  }

  /** The clipped copies of one day's calendar records, in the calendar's order. */
  function DaySlice(cfs: seq<CalendarFrame>, dayStart: int, dayEnd: int, date: int, endDate: int): seq<TimeFrame>
  {
    seq(|cfs|, i requires 0 <= i < |cfs| => Clip(cfs[i], dayStart, dayEnd, date, endDate))
  }

  /** Start of the k-th day the loop visits: the column start advanced by k days. */
  function DayStart(date: int, k: nat): int
  {
    date + k * DAY
  }

  /** How many days the loop visits: the number of k with DayStart(date, k) < endDate. */
  function DayCount(date: int, endDate: int): nat
  {
    if endDate <= date then 0 else (endDate - date - 1) / DAY + 1
  }

  lemma DayCountSpec(date: int, endDate: int, k: nat)
    ensures k < DayCount(date, endDate) <==> DayStart(date, k) < endDate
  {
  }

  /**
   * End of the window the column asks the calendar to resolve for the day
   * starting at `cDate`: the next day, but never past the column's end.
   */
  function SolveWindowEnd(cDate: int, endDate: int): int
  {
    Min(cDate + DAY, endDate)
  }

  /** The window end as the source computes it: the whole next day, whatever the column's end. */
  function AsWrittenSolveWindowEnd(cDate: int): int
  {
    cDate + DAY
  }

  /** The clipped frames of the j-th day. */
  function DayFrames(cal: Calendar, date: int, endDate: int, j: nat): seq<TimeFrame>
  {
    var ds := DayStart(date, j);
    DaySlice(cal(ds, SolveWindowEnd(ds, endDate)), ds, ds + DAY, date, endDate)
  }

  /** The j-th day's frames when the calendar is asked for the as-written window. */
  function AsWrittenDayFrames(cal: Calendar, date: int, endDate: int, j: nat): seq<TimeFrame>
  {
    var ds := DayStart(date, j);
    DaySlice(cal(ds, AsWrittenSolveWindowEnd(ds)), ds, ds + DAY, date, endDate)
  }

  /** The concatenation, in day order, of the frames of the first k days. */
  function Collected(cal: Calendar, date: int, endDate: int, k: nat): seq<TimeFrame>
    decreases k
  {
    if k == 0 then [] else Collected(cal, date, endDate, k - 1) + DayFrames(cal, date, endDate, k - 1)
  }

  /** Day key of an instant: the number of the calendar day it falls in. */
  function DateKey(t: int): (k: int)
    ensures k * DAY <= t < k * DAY + DAY
  {
    t / DAY
  }

  lemma {:induction false} DateKeyOfDayStart(date: int, k: nat)
    ensures DateKey(DayStart(date, k)) == DateKey(date) + k
  {
    var q, r := date / DAY, date % DAY;
    assert date == q * DAY + r;
    assert DayStart(date, k) == (q + k) * DAY + r;
  }

  /**
   * The calendar's contract for one window: the intervals (missing edges read
   * as the window bounds) are non-empty, in order, gap-free and cover exactly
   * [ws, we).
   */
  predicate Resolved(cfs: seq<CalendarFrame>, ws: int, we: int)
  {
    && |cfs| > 0
    && cfs[0].start.GetOr(ws) == ws
    && cfs[|cfs| - 1].end.GetOr(we) == we
    && (forall i :: 0 <= i < |cfs| ==>
          ws <= cfs[i].start.GetOr(ws) < cfs[i].end.GetOr(we) <= we)
    && (forall i :: 0 <= i < |cfs| - 1 ==> cfs[i].end.GetOr(we) == cfs[i + 1].start.GetOr(ws))
  }

  /** The calendar honours its contract for the j-th day's window. */
  predicate ResolvesDay(cal: Calendar, date: int, endDate: int, j: nat)
  {
    var ds := DayStart(date, j);
    Resolved(cal(ds, SolveWindowEnd(ds, endDate)), ds, SolveWindowEnd(ds, endDate))
  }

  /** `fs` is an ordered, gap-free partition of [a, b) into non-empty frames. */
  predicate Partition(fs: seq<TimeFrame>, a: int, b: int)
  {
    && |fs| > 0
    && fs[0].start == a
    && fs[|fs| - 1].end == b
    && (forall i :: 0 <= i < |fs| ==> fs[i].start < fs[i].end)
    && (forall i :: 0 <= i < |fs| - 1 ==> fs[i].end == fs[i + 1].start)
  }

  lemma PartitionConcat(xs: seq<TimeFrame>, ys: seq<TimeFrame>, a: int, m: int, b: int)
    requires Partition(xs, a, m) && Partition(ys, m, b)
    ensures Partition(xs + ys, a, b)
  {
    var zs := xs + ys;
    forall i | 0 <= i < |zs| - 1
      ensures zs[i].end == zs[i + 1].start
    {
      if i < |xs| - 1 {
      } else if i == |xs| - 1 {
      } else {
        assert zs[i] == ys[i - |xs|] && zs[i + 1] == ys[i - |xs| + 1];
      }
    }
  }

  /** A resolved day window inside the column is kept unchanged by clipping, so it stays a partition. */
  lemma DaySlicePartition(cfs: seq<CalendarFrame>, ds: int, date: int, endDate: int)
    requires date <= ds < endDate
    requires Resolved(cfs, ds, SolveWindowEnd(ds, endDate))
    ensures Partition(DaySlice(cfs, ds, ds + DAY, date, endDate), ds, SolveWindowEnd(ds, endDate))
  {
    var we := SolveWindowEnd(ds, endDate);
    var s := DaySlice(cfs, ds, ds + DAY, date, endDate);
    forall i | 0 <= i < |s|
      ensures s[i].start == cfs[i].start.GetOr(ds) && s[i].end == cfs[i].end.GetOr(we)
    {
      assert s[i] == Clip(cfs[i], ds, ds + DAY, date, endDate);
    }
  }

  /**
   * When the calendar honours its contract for every visited day, the
   * collected frames partition the column's span [date, endDate).
   */
  lemma {:induction false} CollectedPartition(cal: Calendar, date: int, endDate: int)
    requires date < endDate
    requires forall j :: 0 <= j < DayCount(date, endDate) ==> ResolvesDay(cal, date, endDate, j)
    ensures Partition(Collected(cal, date, endDate, DayCount(date, endDate)), date, endDate)
  {
    var n := DayCount(date, endDate);
    DayCountSpec(date, endDate, n - 1);
    DayCountSpec(date, endDate, n);
    CollectedPrefixPartition(cal, date, endDate, n);
  }

  /** A day the loop visits, resolved by the calendar, is a partition of its solve window. */
  lemma DayPartition(cal: Calendar, date: int, endDate: int, j: nat)
    requires j < DayCount(date, endDate) && ResolvesDay(cal, date, endDate, j)
    ensures Partition(DayFrames(cal, date, endDate, j), DayStart(date, j), SolveWindowEnd(DayStart(date, j), endDate))
  {
    var ds := DayStart(date, j);
    DayCountSpec(date, endDate, j);
    DaySlicePartition(cal(ds, SolveWindowEnd(ds, endDate)), ds, date, endDate);
  }

  lemma {:induction false} CollectedPrefixPartition(cal: Calendar, date: int, endDate: int, k: nat)
    requires 0 < k <= DayCount(date, endDate)
    requires forall j :: 0 <= j < DayCount(date, endDate) ==> ResolvesDay(cal, date, endDate, j)
    ensures Partition(Collected(cal, date, endDate, k), date, SolveWindowEnd(DayStart(date, k - 1), endDate))
  {
    var ds := DayStart(date, k - 1);
    var day := DayFrames(cal, date, endDate, k - 1);
    DayPartition(cal, date, endDate, k - 1);
    if k == 1 {
      assert Collected(cal, date, endDate, 1) == [] + day;
    } else {
      var front := Collected(cal, date, endDate, k - 1);
      CollectedPrefixPartition(cal, date, endDate, k - 1);
      DayCountSpec(date, endDate, k - 1);
      assert SolveWindowEnd(DayStart(date, k - 2), endDate) == ds;
      assert Collected(cal, date, endDate, k) == front + day;
      PartitionConcat(front, day, date, ds, SolveWindowEnd(ds, endDate));
    }
  }

  lemma {:induction false} CollectedGrows(cal: Calendar, date: int, endDate: int, j: nat, k: nat)
    requires j <= k
    ensures |Collected(cal, date, endDate, j)| <= |Collected(cal, date, endDate, k)|
    ensures Collected(cal, date, endDate, k)[..|Collected(cal, date, endDate, j)|] == Collected(cal, date, endDate, j)
    decreases k
  {
    if j < k {
      CollectedGrows(cal, date, endDate, j, k - 1);
      var a := Collected(cal, date, endDate, k - 1);
      var c := Collected(cal, date, endDate, j);
      assert Collected(cal, date, endDate, k)[..|a|] == a;
      assert Collected(cal, date, endDate, k)[..|c|] == a[..|c|];
    }
  }

  /**
   * The j-th day's frames sit in the concatenation exactly between the
   * lengths of the first j and the first j + 1 days' frames.
   */
  lemma CollectedDaySlice(cal: Calendar, date: int, endDate: int, j: nat, k: nat)
    requires j < k
    ensures |Collected(cal, date, endDate, j + 1)| <= |Collected(cal, date, endDate, k)|
    ensures Collected(cal, date, endDate, k)[|Collected(cal, date, endDate, j)|..|Collected(cal, date, endDate, j + 1)|]
            == DayFrames(cal, date, endDate, j)
  {
    CollectedGrows(cal, date, endDate, j + 1, k);
    var all := Collected(cal, date, endDate, k);
    var lo, hi := |Collected(cal, date, endDate, j)|, |Collected(cal, date, endDate, j + 1)|;
    assert all[lo..hi] == all[..hi][lo..];
  }

  /** A calendar that splits every window at its midpoint into a working and a non-working half. */
  function NoonSplit(ws: int, we: int): seq<CalendarFrame>
  {
    [CalendarFrame(Some(ws), Some(ws + (we - ws) / 2), true, true),
     CalendarFrame(Some(ws + (we - ws) / 2), None, false, true)]
  }

  /**
   * With the window the source asks for, a one-hour column on a calendar that
   * honours its contract gets a frame that starts after it ends.
   */
  lemma AsWrittenWindowInvertsFrame()
    ensures Resolved(NoonSplit(0, AsWrittenSolveWindowEnd(0)), 0, AsWrittenSolveWindowEnd(0))
    ensures var s := AsWrittenDayFrames(NoonSplit, 0, 3_600_000, 0);
            |s| == 2 && s[1].start == 43_200_000 && s[1].end == 3_600_000
  {
    var s := AsWrittenDayFrames(NoonSplit, 0, 3_600_000, 0);
    assert s[1] == Clip(NoonSplit(0, DAY)[1], 0, DAY, 0, 3_600_000);
  }
}
