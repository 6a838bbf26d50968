/**
 * The column itself (src/core/logic/column/column.factory.js:6-353): a class
 * whose constructor derives the time frames, and whose queries read them.
 * The three passes of updateTimeFrames are loops over the frame list, each
 * proved against the specification function of Build it implements.
 */
module Columns {
  import opened Wrappers
  import opened TimeFrames
  import opened Geometry
  import opened Crop
  import opened Rounding
  import opened Magnet
  import opened Positions
  import opened Build

  /**
   * The day loop: for each day from `date` on, ask the calendar for the day's
   * resolved records, clip a copy of each into the column and the day's
   * bounds, append the copies and index them under the day's key.
   */
  method CollectDays(cal: Calendar, date: int, endDate: int) returns (frames: seq<TimeFrame>, days: map<int, Slice>)
    ensures frames == RawFrames(cal, date, endDate)
    ensures days == DaysMap(cal, date, endDate, DayCount(date, endDate))
  {
    frames, days := [], map[];
    var cDate := date;
    ghost var k: nat := 0;
    while cDate < endDate
      invariant cDate == DayStart(date, k) && k <= DayCount(date, endDate)
      invariant frames == Collected(cal, date, endDate, k)
      invariant days == DaysMap(cal, date, endDate, k)
      decreases endDate - cDate
    {
      DayCountSpec(date, endDate, k);
      var nextCDate := cDate + DAY;
      var cTimeFrames := ClipDay(cal(cDate, SolveWindowEnd(cDate, endDate)), cDate, nextCDate, date, endDate);
      assert cTimeFrames == DayFrames(cal, date, endDate, k);
      var lo := |frames|;
      frames := frames + cTimeFrames;
      days := days[DateKey(cDate) := Slice(lo, |frames|)];
      cDate := nextCDate;
      k := k + 1;
    }
    DayCountSpec(date, endDate, k);
  }

  /** The clip loop of one day: a copy of each resolved record, its edges defaulted and clamped. */
  method ClipDay(resolved: seq<CalendarFrame>, cDate: int, nextCDate: int, date: int, endDate: int)
    returns (cTimeFrames: seq<TimeFrame>)
    ensures cTimeFrames == DaySlice(resolved, cDate, nextCDate, date, endDate)
  {
    cTimeFrames := [];
    var i := 0;
    while i < |resolved|
      invariant 0 <= i <= |resolved|
      invariant cTimeFrames == DaySlice(resolved[..i], cDate, nextCDate, date, endDate)
    {
      var cf := resolved[i];
      var start := if cf.start.Some? then cf.start.value else cDate;
      var end := if cf.end.Some? then cf.end.value else nextCDate;
      if start < date {
        start := date;
      }
      if end > endDate {
        end := endDate;
      }
      var copy := TimeFrame(start, end, cf.working, cf.magnet, None, 0.0, false, false, Size(None, 0.0));
      assert copy == Clip(cf, cDate, nextCDate, date, endDate);
      assert resolved[..i + 1] == resolved[..i] + [cf];
      cTimeFrames := cTimeFrames + [copy];
      i := i + 1;
    }
    assert resolved[..i] == resolved;
  }

  /**
   * The geometry pass: each frame gets its left and width from the column's
   * affine map, its hidden flag from the modes and a snapshot of both in
   * originalSize; the indices of the frames left visible are collected in order.
   */
  method LayOutFrames(raw: seq<TimeFrame>, date: int, duration: int, width: real,
                      workingMode: Mode, nonWorkingMode: Mode) returns (frames: seq<TimeFrame>, visible: seq<nat>)
    requires |raw| > 0 ==> duration != 0
    ensures |frames| == |raw|
    ensures forall j :: 0 <= j < |raw| ==> frames[j] == LayOutFrame(raw[j], date, duration, width, workingMode, nonWorkingMode)
    ensures visible == VisibleIndices(frames, |frames|)
  {
    frames, visible := raw, [];
    var i := 0;
    while i < |frames|
      invariant 0 <= i <= |frames| == |raw|
      invariant forall j :: 0 <= j < i ==> frames[j] == LayOutFrame(raw[j], date, duration, width, workingMode, nonWorkingMode)
      invariant forall j :: i <= j < |frames| ==> frames[j] == raw[j]
      invariant visible == VisibleIndices(frames, i)
    {
      var timeFrame := frames[i];
      var position := Position(timeFrame.start, date, duration, width);
      var timeFramePosition := FrameWidth(timeFrame.start, timeFrame.end, duration, width);
      var hidden := false;
      if timeFrame.working && workingMode != Visible {
        hidden := true;
      } else if !timeFrame.working && nonWorkingMode != Visible {
        hidden := true;
      }
      var laidFrame := timeFrame.(hidden := hidden, left := Some(position), width := timeFramePosition,
                                  originalSize := Size(Some(position), timeFramePosition));
      assert laidFrame == LayOutFrame(raw[i], date, duration, width, workingMode, nonWorkingMode);
      ghost var before := frames;
      frames := frames[i := laidFrame];
      VisibleIndicesPrefix(before, frames, i);
      if !hidden {
        visible := visible + [i];
      }
      i := i + 1;
    }
  }

  /** The visible indices among the first n frames depend on those frames only. */
  lemma {:induction false} VisibleIndicesPrefix(a: seq<TimeFrame>, b: seq<TimeFrame>, n: nat)
    requires n <= |a| && n <= |b|
    requires forall j :: 0 <= j < n ==> a[j] == b[j]
    ensures VisibleIndices(a, n) == VisibleIndices(b, n)
  {
    if n > 0 {
      VisibleIndicesPrefix(a, b, n - 1);
    }
  }

  /** The first crop pass: the summed width of the frames of a classification that is not cropped. */
  method SurvivingWidth(frames: seq<TimeFrame>, workingMode: Mode, nonWorkingMode: Mode) returns (timeFramesWidth: real)
    ensures timeFramesWidth == ExpandedWidth(frames, workingMode, nonWorkingMode)
  {
    timeFramesWidth := 0.0;
    var j := 0;
    while j < |frames|
      invariant 0 <= j <= |frames|
      invariant timeFramesWidth == ExpandedWidth(frames[..j], workingMode, nonWorkingMode)
    {
      var aTimeFrame := frames[j];
      if (!aTimeFrame.working && nonWorkingMode != Cropped) || (aTimeFrame.working && workingMode != Cropped) {
        timeFramesWidth := timeFramesWidth + aTimeFrame.width;
      }
      assert frames[..j + 1][..j] == frames[..j];
      j := j + 1;
    }
    assert frames[..j] == frames;
  }

  /**
   * The second crop pass: frames of a cropped classification collapse, the
   * others are shifted left by the width collapsed before them and scaled by
   * the ratio; the result says whether every frame collapsed.
   */
  method Redistribute(laid: seq<TimeFrame>, croppedRatio: real, workingMode: Mode, nonWorkingMode: Mode)
    returns (frames: seq<TimeFrame>, allCropped: bool)
    ensures frames == CropPass(laid, croppedRatio, workingMode, nonWorkingMode)
    ensures allCropped == AllCollapsed(laid, workingMode, nonWorkingMode)
  {
    frames := laid;
    var croppedWidth := 0.0;
    var originalCroppedWidth := 0.0;
    allCropped := true;
    ghost var out := CropPass(laid, croppedRatio, workingMode, nonWorkingMode);
    var j := 0;
    while j < |frames|
      invariant 0 <= j <= |frames| == |laid| == |out|
      invariant forall m :: 0 <= m < j ==> frames[m] == out[m]
      invariant forall m :: j <= m < |frames| ==> frames[m] == laid[m]
      invariant croppedWidth == CollapsedWidth(laid[..j], workingMode, nonWorkingMode)
      invariant originalCroppedWidth == CollapsedOriginalWidth(laid[..j], workingMode, nonWorkingMode)
      invariant allCropped == AllCollapsed(laid[..j], workingMode, nonWorkingMode)
    {
      PrefixStep(laid, j, workingMode, nonWorkingMode);
      var c, survives;
      c, croppedWidth, originalCroppedWidth, survives
        := CropOne(frames[j], laid[..j], croppedWidth, originalCroppedWidth, croppedRatio, workingMode, nonWorkingMode);
      assert c == out[j];
      frames := frames[j := c];
      allCropped := allCropped && !survives;
      j := j + 1;
    }
    assert laid[..j] == laid;
    assert frames == out;
  }

  /**
   * One frame of the crop pass, given the totals collapsed before it: a frame
   * of a classification that is not cropped is shifted and scaled, any other
   * collapses and adds its widths to the totals.
   */
  method CropOne(bTimeFrame: TimeFrame, ghost before: seq<TimeFrame>, croppedWidth: real, originalCroppedWidth: real,
                 croppedRatio: real, workingMode: Mode, nonWorkingMode: Mode)
    returns (c: TimeFrame, croppedWidth': real, originalCroppedWidth': real, survives: bool)
    requires croppedWidth == CollapsedWidth(before, workingMode, nonWorkingMode)
    requires originalCroppedWidth == CollapsedOriginalWidth(before, workingMode, nonWorkingMode)
    ensures c == CropFrame(bTimeFrame, before, croppedRatio, workingMode, nonWorkingMode)
    ensures survives == Survives(bTimeFrame.working, workingMode, nonWorkingMode)
    ensures croppedWidth' == croppedWidth + (if survives then 0.0 else bTimeFrame.width)
    ensures originalCroppedWidth' == originalCroppedWidth + (if survives then 0.0 else bTimeFrame.originalSize.width)
  {
    CropFrameByTotals(bTimeFrame, before, croppedRatio, workingMode, nonWorkingMode);
    croppedWidth', originalCroppedWidth' := croppedWidth, originalCroppedWidth;
    if (!bTimeFrame.working && nonWorkingMode != Cropped) || (bTimeFrame.working && workingMode != Cropped) {
      c := bTimeFrame.(left := Some(Scaled(LeftOf(bTimeFrame.left) - croppedWidth, croppedRatio)),
                       width := Scaled(bTimeFrame.width, croppedRatio),
                       originalSize := Size(Some(Scaled(LeftOf(bTimeFrame.originalSize.left) - originalCroppedWidth, croppedRatio)),
                                            Scaled(bTimeFrame.originalSize.width, croppedRatio)),
                       cropped := false);
      survives := true;
    } else {
      croppedWidth' := croppedWidth + bTimeFrame.width;
      originalCroppedWidth' := originalCroppedWidth + bTimeFrame.originalSize.width;
      c := bTimeFrame.(left := None, width := 0.0, originalSize := Size(None, 0.0), cropped := true);
      survives := false;
    }
  }

  /**
   * The time frame magnet of getMagnetDate: scan the frames, comparing each
   * offered edge with the best so far; an edge wins when it is strictly closer
   * to the initial date than the snapped date and than every earlier winner.
   */
  method FramesMagnet(timeFrames: seq<TimeFrame>, initialDate: int, snapped: int) returns (date: int)
    ensures date == Pick(Candidates(timeFrames, |timeFrames|), initialDate, Dist(initialDate, snapped), Best(None, snapped)).date
  {
    date := snapped;
    var maxTimeFrameDiff := Dist(initialDate, snapped);
    var currentTimeFrameDiff: Option<nat> := None;
    var i := 0;
    while i < |timeFrames|
      invariant 0 <= i <= |timeFrames|
      invariant Best(currentTimeFrameDiff, date)
                == Pick(Candidates(timeFrames, i), initialDate, maxTimeFrameDiff, Best(None, snapped))
    {
      PickStep(timeFrames, i, initialDate, maxTimeFrameDiff, Best(None, snapped));
      var timeFrame := timeFrames[i];
      ghost var b0 := Best(currentTimeFrameDiff, date);
      if StartEligible(timeFrames, i) {
        var timeFrameDiff := Dist(initialDate, timeFrame.start);
        if timeFrameDiff < maxTimeFrameDiff && (currentTimeFrameDiff.None? || timeFrameDiff < currentTimeFrameDiff.value) {
          currentTimeFrameDiff := Some(timeFrameDiff);
          date := timeFrame.start;
        }
      }
      ghost var b1 := Best(currentTimeFrameDiff, date);
      assert b1 == if StartEligible(timeFrames, i) then Consider(b0, timeFrame.start, initialDate, maxTimeFrameDiff) else b0;
      if EndEligible(timeFrames, i) {
        var timeFrameDiff := Dist(initialDate, timeFrame.end);
        if timeFrameDiff < maxTimeFrameDiff && (currentTimeFrameDiff.None? || timeFrameDiff < currentTimeFrameDiff.value) {
          currentTimeFrameDiff := Some(timeFrameDiff);
          date := timeFrame.end;
        }
      }
      assert Best(currentTimeFrameDiff, date)
             == if EndEligible(timeFrames, i) then Consider(b1, timeFrame.end, initialDate, maxTimeFrameDiff) else b1;
      i := i + 1;
    }
  }

  /**
   * The body of updateTimeFrames on values: with a calendar and unless both
   * modes are 'hidden', the day loop, the geometry pass and the crop step.
   */
  method DeriveTimeFrames(calendar: Option<Calendar>, date: int, endDate: int, duration: int, width: real,
                          workingMode: Mode, nonWorkingMode: Mode)
    returns (frames: seq<TimeFrame>, days: map<int, Slice>, visible: seq<nat>, isCropped: bool)
    requires duration == endDate - date
    ensures frames == BuiltFrames(calendar, date, endDate, width, workingMode, nonWorkingMode)
    ensures days == BuiltDays(calendar, date, endDate, workingMode, nonWorkingMode)
    ensures visible == BuiltVisible(calendar, date, endDate, width, workingMode, nonWorkingMode)
    ensures isCropped == ColumnCropped(calendar, date, endDate, width, workingMode, nonWorkingMode)
  {
    frames, days, visible, isCropped := [], map[], [], false;
    if calendar.Some? && (nonWorkingMode != Hidden || workingMode != Hidden) {
      var cal := calendar.value;
      frames, days := CollectDays(cal, date, endDate);
      DayCountSpec(date, endDate, 0);
      var laid;
      laid, visible := LayOutFrames(frames, date, duration, width, workingMode, nonWorkingMode);
      assert laid == LaidFrames(cal, date, endDate, width, workingMode, nonWorkingMode) by {
        LaidFramesByElement(cal, date, endDate, width, workingMode, nonWorkingMode, frames, laid);
      }
      frames, isCropped := CropColumn(laid, width, workingMode, nonWorkingMode);
    }
  }

  /**
   * The crop step (column.factory.js:121-163): when a mode is 'cropped', sum the
   * surviving width and, when it differs from the column width, redistribute;
   * the column is cropped when a redistribution left no frame surviving.
   */
  method CropColumn(laid: seq<TimeFrame>, width: real, workingMode: Mode, nonWorkingMode: Mode)
    returns (frames: seq<TimeFrame>, isCropped: bool)
    ensures frames == if CropApplies(laid, width, workingMode, nonWorkingMode)
                      then CropPass(laid, CropRatio(width, ExpandedWidth(laid, workingMode, nonWorkingMode)), workingMode, nonWorkingMode)
                      else laid
    ensures isCropped == (CropApplies(laid, width, workingMode, nonWorkingMode) && AllCollapsed(laid, workingMode, nonWorkingMode))
  {
    frames, isCropped := laid, false;
    if nonWorkingMode == Cropped || workingMode == Cropped {
      var timeFramesWidth := SurvivingWidth(laid, workingMode, nonWorkingMode);
      if timeFramesWidth != width {
        var croppedRatio := if timeFramesWidth != 0.0 then width / timeFramesWidth else 0.0;
        frames, isCropped := Redistribute(laid, croppedRatio, workingMode, nonWorkingMode);
      } else {
        isCropped := false;
      }
    }
  }

  lemma LaidFramesByElement(cal: Calendar, date: int, endDate: int, width: real, workingMode: Mode, nonWorkingMode: Mode,
                            raw: seq<TimeFrame>, laid: seq<TimeFrame>)
    requires raw == RawFrames(cal, date, endDate) && (date < endDate || raw == [])
    requires |laid| == |raw|
    requires forall j :: 0 <= j < |raw| ==> laid[j] == LayOutFrame(raw[j], date, endDate - date, width, workingMode, nonWorkingMode)
    ensures laid == LaidFrames(cal, date, endDate, width, workingMode, nonWorkingMode)
  {
  }

  /** The crop of one frame written with the running totals of the frames before it. */
  lemma CropFrameByTotals(f: TimeFrame, before: seq<TimeFrame>, ratio: real, workingMode: Mode, nonWorkingMode: Mode)
    ensures var cw := CollapsedWidth(before, workingMode, nonWorkingMode);
            var ocw := CollapsedOriginalWidth(before, workingMode, nonWorkingMode);
            CropFrame(f, before, ratio, workingMode, nonWorkingMode)
            == if Survives(f.working, workingMode, nonWorkingMode) then
                 f.(left := Some(Scaled(LeftOf(f.left) - cw, ratio)), width := Scaled(f.width, ratio),
                    originalSize := Size(Some(Scaled(LeftOf(f.originalSize.left) - ocw, ratio)), Scaled(f.originalSize.width, ratio)),
                    cropped := false)
               else f.(left := None, width := 0.0, originalSize := Size(None, 0.0), cropped := true)
  {
  }

  /** The running totals of the crop pass after one more frame. */
  lemma PrefixStep(fs: seq<TimeFrame>, j: nat, workingMode: Mode, nonWorkingMode: Mode)
    requires j < |fs|
    ensures var s := Survives(fs[j].working, workingMode, nonWorkingMode);
            && CollapsedWidth(fs[..j + 1], workingMode, nonWorkingMode)
               == CollapsedWidth(fs[..j], workingMode, nonWorkingMode) + (if s then 0.0 else fs[j].width)
            && CollapsedOriginalWidth(fs[..j + 1], workingMode, nonWorkingMode)
               == CollapsedOriginalWidth(fs[..j], workingMode, nonWorkingMode) + (if s then 0.0 else fs[j].originalSize.width)
            && (AllCollapsed(fs[..j + 1], workingMode, nonWorkingMode) <==> AllCollapsed(fs[..j], workingMode, nonWorkingMode) && !s)
  {
    assert fs[..j + 1][..j] == fs[..j];
    assert fs[..j + 1][j] == fs[j];
  }

  /** The frames, day map, visible indices and cropped flag that updateTimeFrames derives from a column's arguments. */
  ghost predicate Derived(calendar: Option<Calendar>, date: int, endDate: int, width: real, workingMode: Mode, nonWorkingMode: Mode,
                          frames: seq<TimeFrame>, days: map<int, Slice>, visible: seq<nat>, isCropped: bool)
  {
    && frames == BuiltFrames(calendar, date, endDate, width, workingMode, nonWorkingMode)
    && days == BuiltDays(calendar, date, endDate, workingMode, nonWorkingMode)
    && visible == BuiltVisible(calendar, date, endDate, width, workingMode, nonWorkingMode)
    && isCropped == ColumnCropped(calendar, date, endDate, width, workingMode, nonWorkingMode)
  }

  class Column {
    var date: int
    var endDate: int
    var left: real
    var width: real
    var calendar: Option<Calendar>
    var duration: int
    var workingMode: Mode
    var nonWorkingMode: Mode
    var timeFrames: seq<TimeFrame>
    var currentDate: bool
    /** Indices into timeFrames: the visible frames are the same frames, not copies. */
    var visibleTimeFrames: seq<nat>
    /** Each visited day's key and the index range of its frames in timeFrames. */
    var daysTimeFrames: map<int, Slice>
    var cropped: bool
    var originalSize: Size

    /** The derived state is what updateTimeFrames computes from the constructor's arguments. */
    ghost predicate Valid()
      reads this
    {
      && duration == endDate - date
      && Derived(calendar, date, endDate, width, workingMode, nonWorkingMode,
                 timeFrames, daysTimeFrames, visibleTimeFrames, cropped)
    }

    /** What the queries read. */
    function Snapshot(): Layout
      reads this
    {
      Layout(date, endDate, left, width, workingMode, nonWorkingMode, timeFrames, daysTimeFrames)
    }

    constructor (date: int, endDate: int, left: real, width: real, calendar: Option<Calendar>,
                 workingMode: Mode, nonWorkingMode: Mode)
      ensures this.date == date && this.endDate == endDate && this.left == left && this.width == width
      ensures this.calendar == calendar && this.workingMode == workingMode && this.nonWorkingMode == nonWorkingMode
      ensures !currentDate && originalSize == Size(Some(left), width)
      ensures Valid()
      ensures Snapshot() == BuiltLayout(calendar, date, endDate, left, width, workingMode, nonWorkingMode)
    {
      this.date := date;
      this.endDate := endDate;
      this.left := left;
      this.width := width;
      this.calendar := calendar;
      this.duration := endDate - date;
      this.workingMode := workingMode;
      this.nonWorkingMode := nonWorkingMode;
      this.timeFrames := [];
      this.currentDate := false;
      this.visibleTimeFrames := [];
      this.daysTimeFrames := map[];
      this.cropped := false;
      this.originalSize := Size(Some(left), width);
      new;
      UpdateTimeFrames();
    }

    /** updateTimeFrames, run once on a column whose derived state is still empty. */
    method UpdateTimeFrames()
      requires timeFrames == [] && visibleTimeFrames == [] && daysTimeFrames == map[] && !cropped
      requires duration == endDate - date
      modifies this
      ensures date == old(date) && endDate == old(endDate) && left == old(left) && width == old(width)
      ensures calendar == old(calendar) && duration == old(duration)
      ensures workingMode == old(workingMode) && nonWorkingMode == old(nonWorkingMode)
      ensures currentDate == old(currentDate) && originalSize == old(originalSize)
      ensures Valid()
    {
      var frames, days, visible, isCropped := DeriveTimeFrames(calendar, date, endDate, duration, width, workingMode, nonWorkingMode);
      assert Derived(calendar, date, endDate, width, workingMode, nonWorkingMode, frames, days, visible, isCropped);
      timeFrames, daysTimeFrames, visibleTimeFrames, cropped := frames, days, visible, isCropped;
    }

    /** clone: a column over the same span, geometry and calendar, with both modes left undefined. */
    method Clone() returns (c: Column)
      ensures fresh(c)
      ensures c.date == date && c.endDate == endDate && c.left == left && c.width == width && c.calendar == calendar
      ensures c.workingMode == Unset && c.nonWorkingMode == Unset
      ensures c.Valid() && c.Equals(this)
    {
      c := new Column(date, endDate, left, width, calendar, Unset, Unset);
    }

    /** containsDate: the column's span, open at its start and closed at its end. */
    predicate ContainsDate(d: int): (r: bool)
      reads this
      ensures r ==> date < endDate
      ensures d <= date ==> !r
      ensures d == endDate ==> (r <==> date < endDate)
      ensures endDate < d ==> !r
    {
      date < d <= endDate
    }

    /**
     * equals: two columns are equal when they start at the same instant, so
     * neither holds the other's start, and with the same end they hold the
     * same dates.
     */
    predicate Equals(other: Column): (r: bool)
      reads this, other
      ensures r ==> !ContainsDate(other.date) && !other.ContainsDate(date)
      ensures r && endDate == other.endDate ==> forall d :: ContainsDate(d) <==> other.ContainsDate(d)
      ensures date != other.date ==> !r
    {
      date == other.date
    }

    /** getPositionByDate. */
    method GetPositionByDate(d: int) returns (p: real)
      requires duration == endDate - date && date < endDate
      ensures p == PositionAt(Snapshot(), d)
    {
      if nonWorkingMode == Cropped || workingMode == Cropped {
        var croppedDate := d;
        var frames := DayView(Snapshot(), croppedDate);
        var i := 0;
        while i < |frames|
          invariant 0 <= i <= |frames|
          invariant ScanPosition(Snapshot(), frames, 0, d, d) == ScanPosition(Snapshot(), frames, i, croppedDate, d)
        {
          var timeFrame := frames[i];
          if croppedDate >= timeFrame.start && croppedDate <= timeFrame.end {
            if timeFrame.cropped {
              if |frames| > i + 1 {
                croppedDate := frames[i + 1].start;
              } else {
                croppedDate := timeFrame.end;
              }
            } else {
              var positionDuration := croppedDate - timeFrame.start;
              var frameDuration := timeFrame.end - timeFrame.start;
              var position := InFrame(positionDuration, frameDuration, timeFrame.width);
              return left + LeftOf(timeFrame.left) + position;
            }
          }
          i := i + 1;
        }
      }
      var position := Position(d, date, duration, width);
      if position < 0.0 {
        position := 0.0;
      }
      if position > width {
        position := width;
      }
      p := left + position;
    }

    /** getDateByPositionUsingTimeFrames: the first uncollapsed frame covering the position decides. */
    method GetDateByPositionUsingTimeFrames(position: real) returns (r: Option<int>)
      ensures r == FrameDate(timeFrames, 0, position)
    {
      var i := 0;
      while i < |timeFrames|
        invariant 0 <= i <= |timeFrames|
        invariant FrameDate(timeFrames, 0, position) == FrameDate(timeFrames, i, position)
      {
        var timeFrame := timeFrames[i];
        if Covers(timeFrame, position) {
          var positionDuration := FrameOffset(timeFrame, position);
          return Some(AddMillis(timeFrame.start, positionDuration));
        }
        i := i + 1;
      }
      return None;
    }

    /**
     * The first half of getMagnetDate: the nearer border in 'column' mode,
     * else the date rounded to the unit (to nearest, the magnet value as
     * offset) and moved back into the column.
     */
    method SnapDate(d: int, magnetValue: int, magnetUnit: MagnetUnit,
                    fieldsOf: int -> Fields, timeOf: Fields -> int) returns (r: int)
      requires duration == endDate - date && date < endDate
      ensures r == Snap(Snapshot(), d, magnetValue, magnetUnit, fieldsOf, timeOf)
    {
      if magnetUnit == ColumnUnit {
        var position := GetPositionByDate(d);
        if position - left < width / 2.0 {
          r := date;
        } else {
          r := endDate;
        }
      } else {
        var fields := fieldsOf(d);
        var a := new int[7](j requires 0 <= j < 7 => fields[j]);
        assert a[..] == fields;
        RoundTo(a, magnetUnit.unit, magnetValue, Nearest);
        r := timeOf(a[..]);
        if r < date {
          r := date;
        } else if r > endDate {
          r := endDate;
        }
      }
    }

    /** getMagnetDate. `fieldsOf` and `timeOf` stand for reading and writing a date's calendar fields. */
    method GetMagnetDate(d: int, magnetValue: int, magnetUnit: Option<MagnetUnit>, timeFramesMagnet: bool,
                         fieldsOf: int -> Fields, timeOf: Fields -> int) returns (r: int)
      requires duration == endDate - date && date < endDate
      ensures r == MagnetDate(Snapshot(), d, magnetValue, magnetUnit, timeFramesMagnet, fieldsOf, timeOf)
    {
      r := d;
      if magnetValue > 0 && magnetUnit.Some? {
        var initialDate := d;
        r := SnapDate(d, magnetValue, magnetUnit.value, fieldsOf, timeOf);
        if timeFramesMagnet {
          r := FramesMagnet(timeFrames, initialDate, r);
        }
      }
    }

    /** getDateByPosition: clamp, read the frames when cropping is on, else the linear scale; then the magnet. */
    method GetDateByPosition(position: real, magnetValue: int, magnetUnit: Option<MagnetUnit>, timeFramesMagnet: bool,
                             fieldsOf: int -> Fields, timeOf: Fields -> int) returns (r: int)
      requires duration == endDate - date && date < endDate && width != 0.0
      ensures r == DateByPosition(Snapshot(), position, magnetValue, magnetUnit, timeFramesMagnet, fieldsOf, timeOf)
    {
      var p := position;
      if p < 0.0 {
        p := 0.0;
      }
      if p > width {
        p := width;
      }
      assert p == ClampPosition(position, width);
      var found: Option<int> := None;
      if nonWorkingMode == Cropped || workingMode == Cropped {
        found := GetDateByPositionUsingTimeFrames(p);
      }
      var d;
      if found.Some? {
        d := found.value;
      } else {
        var positionDuration := DateShare(duration, width, p);
        d := AddMillis(date, positionDuration);
        assert d == LinearDate(Snapshot(), position);
      }
      assert d == DateAt(Snapshot(), position);
      r := GetMagnetDate(d, magnetValue, magnetUnit, timeFramesMagnet, fieldsOf, timeOf);
    }
  }

  /** Two adjacent columns share no date, and together they hold exactly the dates of their joint span. */
  lemma AdjacentColumnsSplitDates(a: Column, b: Column, d: int)
    requires a.endDate == b.date
    ensures !(a.ContainsDate(d) && b.ContainsDate(d))
    ensures a.date <= a.endDate <= b.endDate ==> (a.ContainsDate(d) || b.ContainsDate(d) <==> a.date < d <= b.endDate)
  {
  }

  /**
   * Columns that are equal hold together exactly the dates after their
   * common start up to the earlier end.
   */
  lemma EqualColumnsOverlap(a: Column, b: Column, d: int)
    requires a.Equals(b)
    ensures a.ContainsDate(d) && b.ContainsDate(d) <==> a.date < d <= Min(a.endDate, b.endDate)
  {
  }
}
