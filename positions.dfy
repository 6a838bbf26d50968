/**
 * The queries of a laid-out column: the position of a date
 * (src/core/logic/column/column.factory.js:316-353), the date at a position
 * (:271-306), the frames of one day (:308-314) and the magnet
 * (:212-269). They read a `Layout`, the column's state frozen as a value.
 */
module Positions {
  import opened Wrappers
  import opened TimeFrames
  import opened Geometry
  import opened Crop
  import opened Rounding
  import opened Magnet

  /** The frames of one day: the index range [lo, hi) into the column's frame list. */
  datatype Slice = Slice(lo: nat, hi: nat)

  /** What the queries read of a column. */
  datatype Layout = Layout(date: int, endDate: int, left: real, width: real,
                           workingMode: Mode, nonWorkingMode: Mode,
                           frames: seq<TimeFrame>, days: map<int, Slice>)

  /** `p` clamped, in this order, to be at least 0 and then at most `width`. */
  function ClampPosition(p: real, width: real): (r: real)
    ensures 0.0 <= width ==> 0.0 <= r <= width
    ensures 0.0 <= p <= width ==> r == p
  {
    var low := if p < 0.0 then 0.0 else p;
    if low > width then width else low
  }

  /** The position of `d` by the column's linear scale, clamped to the column, plus the column's left. */
  function LinearPosition(L: Layout, d: int): real
    requires L.date < L.endDate
  {
    L.left + ClampPosition(Position(d, L.date, L.endDate - L.date, L.width), L.width)
  }

  /** Offset into a frame of duration `dur` and width `w`; a frame of duration 0 gives 0 (JavaScript gives NaN). */
  function InFrame(offset: int, dur: int, w: real): real
  {
    if dur == 0 then 0.0 else offset as real / dur as real * w
  }

  /**
   * The scan over one day's frames from frame i on, `cd` being the date moved
   * forward by the collapsed frames met so far: the first frame containing
   * `cd` (both ends included) decides, a collapsed one moving `cd` to the next
   * frame's start (its own end when it is the last); when no frame decides,
   * the position of the original date `d` on the linear scale.
   */
  function ScanPosition(L: Layout, ts: seq<TimeFrame>, i: nat, cd: int, d: int): real
    requires L.date < L.endDate
    decreases |ts| - i
  {
    if i >= |ts| then LinearPosition(L, d)
    else
      var f := ts[i];
      if f.start <= cd <= f.end then
        if f.cropped then ScanPosition(L, ts, i + 1, if i + 1 < |ts| then ts[i + 1].start else f.end, d)
        else L.left + LeftOf(f.left) + InFrame(cd - f.start, f.end - f.start, f.width)
      else ScanPosition(L, ts, i + 1, cd, d)
  }

  /** The frames stored for the day of `d`, or none (getDayTimeFrame). */
  function DayView(L: Layout, d: int): (r: seq<TimeFrame>)
    ensures DateKey(d) !in L.days ==> r == []
  {
    var key := DateKey(d);
    if key in L.days && L.days[key].lo <= L.days[key].hi <= |L.frames|
    then L.frames[L.days[key].lo .. L.days[key].hi]
    else []
  }

  /** getPositionByDate. */
  function PositionAt(L: Layout, d: int): real
    requires L.date < L.endDate
  {
    if CropActive(L.workingMode, L.nonWorkingMode) then ScanPosition(L, DayView(L, d), 0, d, d)
    else LinearPosition(L, d)
  }

  /** JavaScript's truncation toward zero of a real number. */
  function Trunc(x: real): int
  {
    if x >= 0.0 then x.Floor else -((-x).Floor)
  }

  /**
   * moment's add of a fractional number of milliseconds to instant t: the sum
   * is formed first and Date.setTime truncates it toward zero.
   */
  function AddMillis(t: int, x: real): int
  {
    Trunc(t as real + x)
  }

  /**
   * getDateByPositionUsingTimeFrames from frame i on: the first frame that is
   * not collapsed and whose [left, left + width] contains p gives its start
   * plus the proportional share of its duration; none gives undefined.
   */
  function FrameDate(fs: seq<TimeFrame>, i: nat, p: real): Option<int>
    decreases |fs| - i
  {
    if i >= |fs| then None
    else
      var f := fs[i];
      if Covers(f, p) then Some(AddMillis(f.start, FrameOffset(f, p)))
      else FrameDate(fs, i + 1, p)
  }

  /** How far past its start, in time, position p lies inside frame f; 0 for a frame of width 0. */
  function FrameOffset(f: TimeFrame, p: real): real
    requires f.left.Some?
  {
    if f.width == 0.0 then 0.0 else (f.end - f.start) as real / f.width * (p - f.left.value)
  }

  /** Frame f is not collapsed and its [left, left + width] contains p. */
  predicate Covers(f: TimeFrame, p: real)
  {
    !f.cropped && f.left.Some? && f.left.value <= p <= f.left.value + f.width
  }

  /** The date at position p on the column's linear scale, p clamped to the column first. */
  function LinearDate(L: Layout, p: real): int
    requires L.width != 0.0
  {
    AddMillis(L.date, DateShare(L.endDate - L.date, L.width, ClampPosition(p, L.width)))
  }

  /** The time that position q stands for on a column of duration `dur` and width `w`. */
  function DateShare(dur: int, w: real, q: real): real
    requires w != 0.0
  {
    dur as real / w * q
  }

  /** getDateByPosition before the magnet: the frames decide when cropping is on and one matches. */
  function DateAt(L: Layout, p: real): int
    requires L.width != 0.0
  {
    var q := ClampPosition(p, L.width);
    var r := if CropActive(L.workingMode, L.nonWorkingMode) then FrameDate(L.frames, 0, q) else None;
    if r.Some? then r.value else LinearDate(L, p)
  }

  /** The magnet's unit: the column's own borders, or a calendar unit to round to. */
  datatype MagnetUnit = ColumnUnit | CalendarUnit(unit: Unit)

  /** The column border nearer to d: compares d's position within the column with half the width. */
  function ColumnSnap(L: Layout, d: int): int
    requires L.date < L.endDate
  {
    if PositionAt(L, d) - L.left < L.width / 2.0 then L.date else L.endDate
  }

  /** The column snap as the source writes it: the position compared includes the column's left. */
  function AsWrittenColumnSnap(L: Layout, d: int): int
    requires L.date < L.endDate
  {
    if PositionAt(L, d) < L.width / 2.0 then L.date else L.endDate
  }

  /** A date moved back into [date, endDate]. */
  function ClampToColumn(L: Layout, t: int): int
  {
    if t < L.date then L.date else if t > L.endDate then L.endDate else t
  }

  /**
   * The date before the frame magnet: the nearer column border, or the date
   * rounded to the unit with the magnet value as offset and moved back into
   * the column. `fieldsOf` and `timeOf` stand for the date library's reading
   * and writing of a date's fields.
   */
  function Snap(L: Layout, d: int, value: int, unit: MagnetUnit,
                fieldsOf: int -> Fields, timeOf: Fields -> int): int
    requires L.date < L.endDate
  {
    match unit
    case ColumnUnit => ColumnSnap(L, d)
    case CalendarUnit(u) => ClampToColumn(L, timeOf(RoundedFields(fieldsOf(d), u, value, Nearest)))
  }

  /** getMagnetDate. */
  function MagnetDate(L: Layout, d: int, value: int, unit: Option<MagnetUnit>, framesMagnet: bool,
                      fieldsOf: int -> Fields, timeOf: Fields -> int): int
    requires L.date < L.endDate
  {
    if value > 0 && unit.Some? then
      var snapped := Snap(L, d, value, unit.value, fieldsOf, timeOf);
      if framesMagnet then Pick(Candidates(L.frames, |L.frames|), d, Dist(d, snapped), Best(None, snapped)).date
      else snapped
    else d
  }

  /** getDateByPosition. */
  function DateByPosition(L: Layout, p: real, value: int, unit: Option<MagnetUnit>, framesMagnet: bool,
                          fieldsOf: int -> Fields, timeOf: Fields -> int): int
    requires L.date < L.endDate && L.width != 0.0
  {
    MagnetDate(L, DateAt(L, p), value, unit, framesMagnet, fieldsOf, timeOf)
  }

  // ---------------------------------------------------------------------
  // Arithmetic on the linear scale

  lemma DivMulMono(a: real, b: real, D: real, W: real)
    requires a <= b && D > 0.0 && W >= 0.0
    ensures a / D * W <= b / D * W
  {
    assert b / D - a / D == (b - a) / D;
    assert (b - a) / D >= 0.0;
    assert b / D * W - a / D * W == ((b - a) / D) * W;
  }

  lemma DivSelf(D: real, W: real)
    requires D != 0.0
    ensures D / D * W == W
  {
    assert D / D == 1.0;
  }

  lemma ScaleInverse(x: real, D: real, W: real)
    requires D != 0.0 && W != 0.0
    ensures D / W * (x / D * W) == x
  {
  }

  /** An instant of the column lies, on the linear scale, between 0 and the width. */
  lemma PositionInColumn(t: int, date: int, endDate: int, width: real)
    requires date <= t <= endDate && date < endDate && width >= 0.0
    ensures 0.0 <= Position(t, date, endDate - date, width) <= width
  {
    var D := (endDate - date) as real;
    var a := (t - date) as real;
    assert Position(t, date, endDate - date, width) == a / D * width;
    assert 0.0 <= a <= D;
    DivMulMono(0.0, a, D, width);
    DivMulMono(a, D, D, width);
    assert 0.0 / D * width == 0.0;
    DivSelf(D, width);
  }

  /** On the linear scale a later date is never to the left of an earlier one. */
  lemma LinearPositionMonotone(L: Layout, d1: int, d2: int)
    requires L.date < L.endDate && L.width >= 0.0 && d1 <= d2
    ensures L.left <= LinearPosition(L, d1) <= LinearPosition(L, d2) <= L.left + L.width
  {
    var D := (L.endDate - L.date) as real;
    var p1 := Position(d1, L.date, L.endDate - L.date, L.width);
    var p2 := Position(d2, L.date, L.endDate - L.date, L.width);
    assert p1 == (d1 - L.date) as real / D * L.width;
    assert p2 == (d2 - L.date) as real / D * L.width;
    DivMulMono((d1 - L.date) as real, (d2 - L.date) as real, D, L.width);
    ClampMonotone(p1, p2, L.width);
  }

  lemma ClampMonotone(p: real, q: real, width: real)
    requires p <= q && 0.0 <= width
    ensures ClampPosition(p, width) <= ClampPosition(q, width)
  {
  }

  /** Without cropping, getPositionByDate and getDateByPosition use the column's linear scale only. */
  lemma UncroppedIsLinear(L: Layout, d: int, p: real)
    requires L.date < L.endDate && L.width != 0.0
    requires !CropActive(L.workingMode, L.nonWorkingMode)
    ensures PositionAt(L, d) == LinearPosition(L, d)
    ensures DateAt(L, p) == LinearDate(L, p)
  {
  }

  /** Position, then date: on the linear scale a date of the column comes back unchanged. */
  lemma LinearRoundTrip(L: Layout, d: int)
    requires L.date < L.endDate && L.width > 0.0 && L.date <= d <= L.endDate
    ensures LinearDate(L, LinearPosition(L, d) - L.left) == d
  {
    var D := L.endDate - L.date;
    var pos := Position(d, L.date, D, L.width);
    PositionInColumn(d, L.date, L.endDate, L.width);
    assert LinearPosition(L, d) - L.left == pos;
    ScaleInverse((d - L.date) as real, D as real, L.width);
    assert D as real / L.width * pos == (d - L.date) as real;
    AddMillisWhole(L.date, d - L.date);
  }

  /** A whole number of milliseconds is added exactly. */
  lemma AddMillisWhole(t: int, k: int)
    ensures AddMillis(t, k as real) == t + k
  {
    assert t as real + k as real == (t + k) as real;
  }

  /** Adding a share of at most n milliseconds stays within n milliseconds. */
  lemma AddMillisWithin(t: int, x: real, n: int)
    requires 0.0 <= x <= n as real
    ensures t <= AddMillis(t, x) <= t + n
  {
    var y := t as real + x;
    if y < 0.0 {
      assert -(t + n) as real <= -y <= -t as real;
    }
  }

  lemma ScaledShare(q: real, D: real, W: real)
    requires 0.0 <= q <= W && W > 0.0 && D >= 0.0
    ensures 0.0 <= D / W * q <= D
  {
    assert D / W >= 0.0;
    assert D / W * q <= D / W * W;
  }

  /** On the linear scale the date at any position lies within the column. */
  lemma LinearDateInColumn(L: Layout, p: real)
    requires L.date < L.endDate && L.width > 0.0
    ensures L.date <= LinearDate(L, p) <= L.endDate
  {
    var q := ClampPosition(p, L.width);
    var x := DateShare(L.endDate - L.date, L.width, q);
    assert 0.0 <= x <= (L.endDate - L.date) as real by {
      ScaledShare(q, (L.endDate - L.date) as real, L.width);
    }
    AddMillisWithin(L.date, x, L.endDate - L.date);
  }

  /** Without cropping, position then date gives back every date of the column. */
  lemma UncroppedRoundTrip(L: Layout, d: int)
    requires L.date < L.endDate && L.width > 0.0 && L.date <= d <= L.endDate
    requires !CropActive(L.workingMode, L.nonWorkingMode)
    ensures DateAt(L, PositionAt(L, d) - L.left) == d
  {
    UncroppedIsLinear(L, d, LinearPosition(L, d) - L.left);
    LinearRoundTrip(L, d);
  }

  /** Truncation toward zero moves a real by less than one. */
  lemma TruncClose(y: real)
    ensures -1.0 < Trunc(y) as real - y < 1.0
  {
  }

  /** Scaling a share back: a time x that stands for position p, moved by e, stands for p moved by e·W/D. */
  /** A factor of magnitude below one shrinks a positive c. */
  lemma BelowOneScales(e: real, c: real)
    requires -1.0 < e < 1.0 && c > 0.0
    ensures -c < e * c < c
  {
    MulLess(e, 1.0, c);
    MulLess(-1.0, e, c);
  }

  /**
   * Without cropping, date then position gives back every position of the
   * column up to the width of one millisecond, which is what the truncation
   * of the date can lose.
   */
  /** Without cropping, the date at an in-column position is the truncated linear share. */
  lemma UncroppedDateShare(L: Layout, p: real)
    requires L.date < L.endDate && L.width > 0.0 && 0.0 <= p <= L.width
    requires !CropActive(L.workingMode, L.nonWorkingMode)
    ensures DateAt(L, p) == AddMillis(L.date, DateShare(L.endDate - L.date, L.width, p))
    ensures L.date <= DateAt(L, p) <= L.endDate
  {
    UncroppedIsLinear(L, L.date, p);
    assert ClampPosition(p, L.width) == p;
    LinearDateInColumn(L, p);
  }

  /** Without cropping, the position of an in-column date is its unclamped linear position. */
  lemma UncroppedPositionShare(L: Layout, t: int)
    requires L.date <= t <= L.endDate && L.date < L.endDate && L.width > 0.0
    requires !CropActive(L.workingMode, L.nonWorkingMode)
    ensures PositionAt(L, t) - L.left == Position(t, L.date, L.endDate - L.date, L.width)
  {
    UncroppedIsLinear(L, t, 0.0);
    PositionInColumn(t, L.date, L.endDate, L.width);
  }

  /** A date shifted by `x` and truncated lies less than one millisecond from the exact sum. */
  lemma AddMillisClose(t: int, x: real)
    ensures -1.0 < (AddMillis(t, x) - t) as real - x < 1.0
  {
    TruncClose(t as real + x);
  }

  /** Scaling back a share that is off by less than one unit misses by less than one unit's width. */
  lemma ShareBackError(t: int, date: int, dur: int, W: real, p: real)
    requires dur > 0 && W > 0.0 && -1.0 < (t - date) as real - DateShare(dur, W, p) < 1.0
    ensures -(W / dur as real) < Position(t, date, dur, W) - p < W / dur as real
  {
    var D := dur as real;
    var a := (t - date) as real;
    var x := DateShare(dur, W, p);
    var c := W / D;
    assert Position(t, date, dur, W) == a / D * W;
    assert a / D * W == a * c;
    assert x * c == p by {
      assert x == D / W * p;
    }
    var e := a - x;
    assert a / D * W - p == e * c;
    BelowOneScales(e, c);
  }

  lemma UncroppedPositionRoundTrip(L: Layout, p: real)
    requires L.date < L.endDate && L.width > 0.0 && 0.0 <= p <= L.width
    requires !CropActive(L.workingMode, L.nonWorkingMode)
    ensures var unit := L.width / (L.endDate - L.date) as real;
            -unit < PositionAt(L, DateAt(L, p)) - L.left - p < unit
  {
    var t := DateAt(L, p);
    UncroppedDateShare(L, p);
    UncroppedPositionShare(L, t);
    AddMillisClose(L.date, DateShare(L.endDate - L.date, L.width, p));
    ShareBackError(t, L.date, L.endDate - L.date, L.width, p);
  }

  // ---------------------------------------------------------------------
  // Cropped columns

  lemma InFrameBounds(offset: int, dur: int, w: real)
    requires 0 <= offset <= dur && w >= 0.0
    ensures 0.0 <= InFrame(offset, dur, w) <= w
  {
    if dur != 0 {
      DivMulMono(0.0, offset as real, dur as real, w);
      DivMulMono(offset as real, dur as real, dur as real, w);
      assert 0.0 / dur as real * w == 0.0;
      DivSelf(dur as real, w);
    }
  }

  /** A date inside a frame that is not collapsed is placed within that frame's [left, left + width]. */
  lemma ScanPositionInFrame(L: Layout, ts: seq<TimeFrame>, i: nat, cd: int, d: int)
    requires L.date < L.endDate && i < |ts|
    requires ts[i].start <= cd <= ts[i].end && !ts[i].cropped && ts[i].width >= 0.0
    ensures var base := L.left + LeftOf(ts[i].left);
            base <= ScanPosition(L, ts, i, cd, d) <= base + ts[i].width
  {
    InFrameBounds(cd - ts[i].start, ts[i].end - ts[i].start, ts[i].width);
  }

  /** A date inside a collapsed frame is placed at the left of the next frame, when that one is not collapsed. */
  lemma CollapsedFrameTakesNextLeft(L: Layout, ts: seq<TimeFrame>, i: nat, cd: int, d: int)
    requires L.date < L.endDate && i + 1 < |ts|
    requires ts[i].start <= cd <= ts[i].end && ts[i].cropped
    requires !ts[i + 1].cropped && ts[i + 1].start <= ts[i + 1].end
    ensures ScanPosition(L, ts, i, cd, d) == L.left + LeftOf(ts[i + 1].left)
  {
    assert InFrame(0, ts[i + 1].end - ts[i + 1].start, ts[i + 1].width) == 0.0;
  }

  /** A date inside the day's last frame, when it is collapsed, falls back to the linear scale. */
  lemma CollapsedLastFrameFallsBack(L: Layout, ts: seq<TimeFrame>, cd: int, d: int)
    requires L.date < L.endDate && |ts| > 0
    requires ts[|ts| - 1].start <= cd <= ts[|ts| - 1].end && ts[|ts| - 1].cropped
    ensures ScanPosition(L, ts, |ts| - 1, cd, d) == LinearPosition(L, d)
  {
  }

  /**
   * getDateByPositionUsingTimeFrames finds a date exactly when some frame
   * covers p, and then the first such frame decides: the date lies within
   * that frame's [start, end].
   */
  lemma {:induction false} FrameDateChoice(fs: seq<TimeFrame>, i: nat, p: real)
    requires i <= |fs|
    requires forall k :: 0 <= k < |fs| ==> fs[k].start <= fs[k].end
    ensures FrameDate(fs, i, p).None? <==> forall k :: i <= k < |fs| ==> !Covers(fs[k], p)
    ensures FrameDate(fs, i, p).Some? ==>
              exists k :: i <= k < |fs| && Covers(fs[k], p)
                          && (forall k' :: i <= k' < k ==> !Covers(fs[k'], p))
                          && fs[k].start <= FrameDate(fs, i, p).value <= fs[k].end
    decreases |fs| - i
  {
    if i < |fs| {
      if Covers(fs[i], p) {
        var f := fs[i];
        var x := FrameOffset(f, p);
        assert 0.0 <= x <= (f.end - f.start) as real by {
          if f.width != 0.0 {
            ScaledShare(p - f.left.value, (f.end - f.start) as real, f.width);
          }
        }
        AddMillisWithin(f.start, x, f.end - f.start);
      } else {
        FrameDateChoice(fs, i + 1, p);
      }
    }
  }

  // ---------------------------------------------------------------------
  // The magnet

  /** Without a positive magnet value and a unit, getMagnetDate returns the date unchanged. */
  lemma MagnetOff(L: Layout, d: int, value: int, unit: Option<MagnetUnit>, framesMagnet: bool,
                  fieldsOf: int -> Fields, timeOf: Fields -> int)
    requires L.date < L.endDate
    requires value <= 0 || unit.None?
    ensures MagnetDate(L, d, value, unit, framesMagnet, fieldsOf, timeOf) == d
  {
  }

  /** The snapped date lies in [date, endDate]; with the column unit it is one of the two borders. */
  lemma SnapInColumn(L: Layout, d: int, value: int, unit: MagnetUnit, fieldsOf: int -> Fields, timeOf: Fields -> int)
    requires L.date < L.endDate
    ensures L.date <= Snap(L, d, value, unit, fieldsOf, timeOf) <= L.endDate
    ensures unit == ColumnUnit ==> Snap(L, d, value, unit, fieldsOf, timeOf) in {L.date, L.endDate}
  {
  }

  lemma HalfWidth(a: int, D: int, W: real)
    requires D > 0 && W > 0.0
    ensures a as real / D as real * W < W / 2.0 <==> 2 * a < D
  {
    var x := a as real / D as real;
    BelowHalfOfWidth(x, W);
    BelowHalfFraction(a, D);
  }

  lemma BelowHalfOfWidth(x: real, W: real)
    requires W > 0.0
    ensures x * W < W / 2.0 <==> x < 0.5
  {
    assert x * W - W / 2.0 == (x - 0.5) * W;
  }

  lemma BelowHalfFraction(a: int, D: int)
    requires D > 0
    ensures a as real / D as real < 0.5 <==> 2 * a < D
  {
    var x := a as real / D as real;
    var d := D as real;
    assert x * d == a as real;
    if x < 0.5 {
      MulLess(x, 0.5, d);
    } else {
      MulLess(0.5, x, d);
    }
  }

  lemma MulLess(x: real, y: real, d: real)
    requires d > 0.0 && x <= y
    ensures x * d <= y * d && (x < y ==> x * d < y * d)
  {
    assert y * d - x * d == (y - x) * d;
  }

  /**
   * Without cropping, the column magnet snaps a date of the column to the
   * nearer border: to the start exactly when the date lies in the first half.
   */
  lemma ColumnSnapNearerBorder(L: Layout, d: int)
    requires L.date < L.endDate && L.width > 0.0 && L.date <= d <= L.endDate
    requires !CropActive(L.workingMode, L.nonWorkingMode)
    ensures ColumnSnap(L, d) == L.date <==> 2 * (d - L.date) < L.endDate - L.date
  {
    UncroppedIsLinear(L, d, 0.0);
    PositionInColumn(d, L.date, L.endDate, L.width);
    HalfWidth(d - L.date, L.endDate - L.date, L.width);
  }

  /**
   * The column magnet as written compares a position that includes the
   * column's left: for any column whose left is at least half its width,
   * every date snaps to the end.
   */
  lemma AsWrittenColumnSnapAlwaysEnd(L: Layout, d: int)
    requires L.date < L.endDate && L.width > 0.0 && L.left >= L.width / 2.0
    requires !CropActive(L.workingMode, L.nonWorkingMode)
    ensures AsWrittenColumnSnap(L, d) == L.endDate
  {
    UncroppedIsLinear(L, d, 0.0);
  }

  /** The second column of a 100-pixel grid: its own start snaps to its end as written, to its start as intended. */
  lemma AsWrittenColumnSnapCounterexample()
    ensures var L := Layout(0, DAY, 100.0, 100.0, Visible, Visible, [], map[]);
            AsWrittenColumnSnap(L, 0) == DAY && ColumnSnap(L, 0) == 0
  {
    var L := Layout(0, DAY, 100.0, 100.0, Visible, Visible, [], map[]);
    assert PositionAt(L, 0) == 100.0;
  }

  /** Without the frame magnet, getMagnetDate is the snapped date. */
  lemma MagnetWithoutFrames(L: Layout, d: int, value: int, unit: Option<MagnetUnit>,
                            fieldsOf: int -> Fields, timeOf: Fields -> int)
    requires L.date < L.endDate && value > 0 && unit.Some?
    ensures var r := MagnetDate(L, d, value, unit, false, fieldsOf, timeOf);
            r == Snap(L, d, value, unit.value, fieldsOf, timeOf) && L.date <= r <= L.endDate
  {
    SnapInColumn(L, d, value, unit.value, fieldsOf, timeOf);
  }

  /**
   * With the frame magnet, the result is the snapped date exactly when no
   * offered frame edge is strictly closer to the date; otherwise it is the
   * first closest such edge, a start or end of a magnet frame. The result is
   * never farther from the date than the snapped date.
   */
  lemma FramesMagnetChoice(L: Layout, d: int, value: int, unit: Option<MagnetUnit>,
                           fieldsOf: int -> Fields, timeOf: Fields -> int)
    requires L.date < L.endDate && value > 0 && unit.Some?
    ensures var s := Snap(L, d, value, unit.value, fieldsOf, timeOf);
            var r := MagnetDate(L, d, value, unit, true, fieldsOf, timeOf);
            var edges := Candidates(L.frames, |L.frames|);
            && Dist(d, r) <= Dist(d, s)
            && (r == s <==> forall k :: 0 <= k < |edges| ==> Dist(d, edges[k]) >= Dist(d, s))
            && (r != s ==> exists j :: 0 <= j < |edges| && edges[j] == r && FirstClosest(edges, d, j))
            && (r != s ==> exists i :: 0 <= i < |L.frames| && L.frames[i].magnet
                                       && (r == L.frames[i].start || r == L.frames[i].end))
  {
    var s := Snap(L, d, value, unit.value, fieldsOf, timeOf);
    var edges := Candidates(L.frames, |L.frames|);
    PickChoice(edges, d, Dist(d, s), s);
    var b := Pick(edges, d, Dist(d, s), Best(None, s));
    if b.diff.Some? {
      var j :| 0 <= j < |edges| && edges[j] == b.date && b.diff.value == Dist(d, edges[j]) < Dist(d, s)
               && FirstClosest(edges, d, j);
      assert edges[j] in edges;
      CandidatesAreFrameEdges(L.frames, |L.frames|, b.date);
    }
  }
}
