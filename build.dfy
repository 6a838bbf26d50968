/**
 * What updateTimeFrames (src/core/logic/column/column.factory.js:44-165)
 * leaves in a freshly constructed column, as functions of the constructor's
 * arguments: the frame list, the day index, the visible frames and the
 * cropped flag; and the properties of that state.
 */
module Build {
  import opened Wrappers
  import opened TimeFrames
  import opened Geometry
  import opened Crop
  import opened Positions

  /** Frames are generated only with a calendar and unless both modes are 'hidden'. */
  predicate Generates(cal: Option<Calendar>, workingMode: Mode, nonWorkingMode: Mode)
  {
    cal.Some? && (nonWorkingMode != Hidden || workingMode != Hidden)
  }

  /** The frames after the day loop: every day's clipped frames, in day order. */
  function RawFrames(cal: Calendar, date: int, endDate: int): seq<TimeFrame>
  {
    Collected(cal, date, endDate, DayCount(date, endDate))
  }

  /** The frames after the geometry pass. */
  function LaidFrames(cal: Calendar, date: int, endDate: int, width: real,
                      workingMode: Mode, nonWorkingMode: Mode): seq<TimeFrame>
  {
    if date < endDate then LaidOut(RawFrames(cal, date, endDate), date, endDate - date, width, workingMode, nonWorkingMode)
    else []
  }

  /** The redistribution runs when cropping is on and the surviving width differs from the column width. */
  predicate CropApplies(laid: seq<TimeFrame>, width: real, workingMode: Mode, nonWorkingMode: Mode)
  {
    CropActive(workingMode, nonWorkingMode) && ExpandedWidth(laid, workingMode, nonWorkingMode) != width
  }

  /** The column's timeFrames after construction. */
  function BuiltFrames(cal: Option<Calendar>, date: int, endDate: int, width: real,
                       workingMode: Mode, nonWorkingMode: Mode): seq<TimeFrame>
  {
    if Generates(cal, workingMode, nonWorkingMode) then
      var laid := LaidFrames(cal.value, date, endDate, width, workingMode, nonWorkingMode);
      if CropApplies(laid, width, workingMode, nonWorkingMode)
      then CropPass(laid, CropRatio(width, ExpandedWidth(laid, workingMode, nonWorkingMode)), workingMode, nonWorkingMode)
      else laid
    else []
  }

  /** The column's cropped flag after construction: no frame survived a redistribution. */
  predicate ColumnCropped(cal: Option<Calendar>, date: int, endDate: int, width: real,
                          workingMode: Mode, nonWorkingMode: Mode)
  {
    && Generates(cal, workingMode, nonWorkingMode)
    && var laid := LaidFrames(cal.value, date, endDate, width, workingMode, nonWorkingMode);
       CropApplies(laid, width, workingMode, nonWorkingMode) && AllCollapsed(laid, workingMode, nonWorkingMode)
  }

  /** The index range of the j-th day's frames in the frame list. */
  function DayRange(cal: Calendar, date: int, endDate: int, j: nat): Slice
  {
    Slice(|Collected(cal, date, endDate, j)|, |Collected(cal, date, endDate, j + 1)|)
  }

  /** The day index after the first k days: each day's key maps to its index range in the frame list. */
  function DaysMap(cal: Calendar, date: int, endDate: int, k: nat): map<int, Slice>
  {
    if k == 0 then map[]
    else DaysMap(cal, date, endDate, k - 1)[DateKey(DayStart(date, k - 1)) := DayRange(cal, date, endDate, k - 1)]
  }

  /** The column's daysTimeFrames after construction. */
  function BuiltDays(cal: Option<Calendar>, date: int, endDate: int, workingMode: Mode, nonWorkingMode: Mode): map<int, Slice>
  {
    if Generates(cal, workingMode, nonWorkingMode) then DaysMap(cal.value, date, endDate, DayCount(date, endDate))
    else map[]
  }

  /** The indices, in order, of the frames among the first n that are not hidden. */
  function VisibleIndices(fs: seq<TimeFrame>, n: nat): seq<nat>
    requires n <= |fs|
  {
    if n == 0 then [] else VisibleIndices(fs, n - 1) + (if fs[n - 1].hidden then [] else [n - 1])
  }

  /** The column's visibleTimeFrames after construction, as indices into its timeFrames. */
  function BuiltVisible(cal: Option<Calendar>, date: int, endDate: int, width: real,
                        workingMode: Mode, nonWorkingMode: Mode): seq<nat>
  {
    if Generates(cal, workingMode, nonWorkingMode) then
      var laid := LaidFrames(cal.value, date, endDate, width, workingMode, nonWorkingMode);
      VisibleIndices(laid, |laid|)
    else []
  }

  /** The state the queries read, for a column built from these arguments. */
  function BuiltLayout(cal: Option<Calendar>, date: int, endDate: int, left: real, width: real,
                       workingMode: Mode, nonWorkingMode: Mode): Layout
  {
    Layout(date, endDate, left, width, workingMode, nonWorkingMode,
           BuiltFrames(cal, date, endDate, width, workingMode, nonWorkingMode),
           BuiltDays(cal, date, endDate, workingMode, nonWorkingMode))
  }

  /** The calendar honours its contract on every day of the column. */
  predicate CalendarResolves(cal: Calendar, date: int, endDate: int)
  {
    forall j :: 0 <= j < DayCount(date, endDate) ==> ResolvesDay(cal, date, endDate, j)
  }

  /** Two frame lists with the same intervals and classification, frame by frame. */
  predicate SameIntervals(a: seq<TimeFrame>, b: seq<TimeFrame>)
  {
    |a| == |b| &&
    forall i :: 0 <= i < |a| ==>
      a[i].start == b[i].start && a[i].end == b[i].end && a[i].working == b[i].working && a[i].magnet == b[i].magnet
  }

  // ---------------------------------------------------------------------
  // Visibility

  /** visibleTimeFrames is exactly the order-preserving filter of the frames that are not hidden. */
  lemma {:induction false} VisibleIndicesExact(fs: seq<TimeFrame>, n: nat)
    requires n <= |fs|
    ensures var r := VisibleIndices(fs, n);
            && (forall a :: 0 <= a < |r| ==> r[a] < n)
            && (forall i :: 0 <= i < n ==> (i in r <==> !fs[i].hidden))
            && (forall a, b :: 0 <= a < b < |r| ==> r[a] < r[b])
  {
    if n > 0 {
      VisibleIndicesExact(fs, n - 1);
    }
  }

  /** The crop pass keeps the hidden flags, so the visible indices name non-hidden frames of the final list. */
  lemma BuiltVisibleExact(cal: Option<Calendar>, date: int, endDate: int, width: real,
                          workingMode: Mode, nonWorkingMode: Mode)
    ensures var fs := BuiltFrames(cal, date, endDate, width, workingMode, nonWorkingMode);
            var r := BuiltVisible(cal, date, endDate, width, workingMode, nonWorkingMode);
            && (forall a :: 0 <= a < |r| ==> r[a] < |fs|)
            && (forall i :: 0 <= i < |fs| ==> (i in r <==> !fs[i].hidden))
            && (forall a, b :: 0 <= a < b < |r| ==> r[a] < r[b])
  {
    if Generates(cal, workingMode, nonWorkingMode) {
      var laid := LaidFrames(cal.value, date, endDate, width, workingMode, nonWorkingMode);
      VisibleIndicesExact(laid, |laid|);
      if CropApplies(laid, width, workingMode, nonWorkingMode) {
        var ratio := CropRatio(width, ExpandedWidth(laid, workingMode, nonWorkingMode));
        forall k | 0 <= k < |laid|
          ensures CropPass(laid, ratio, workingMode, nonWorkingMode)[k].hidden == laid[k].hidden
        {
          CropPassShape(laid, ratio, workingMode, nonWorkingMode, k);
        }
      }
    }
  }

  /** A frame is hidden exactly when the mode of its classification is not 'visible'. */
  lemma BuiltHiddenFollowsMode(cal: Option<Calendar>, date: int, endDate: int, width: real,
                               workingMode: Mode, nonWorkingMode: Mode, k: nat)
    requires k < |BuiltFrames(cal, date, endDate, width, workingMode, nonWorkingMode)|
    ensures var f := BuiltFrames(cal, date, endDate, width, workingMode, nonWorkingMode)[k];
            f.hidden <==> ModeOf(f.working, workingMode, nonWorkingMode) != Visible
  {
    var laid := LaidFrames(cal.value, date, endDate, width, workingMode, nonWorkingMode);
    LaidOutKeepsIntervals(RawFrames(cal.value, date, endDate), date, endDate - date, width, workingMode, nonWorkingMode, k);
    if CropApplies(laid, width, workingMode, nonWorkingMode) {
      CropPassShape(laid, CropRatio(width, ExpandedWidth(laid, workingMode, nonWorkingMode)), workingMode, nonWorkingMode, k);
    }
  }

  // ---------------------------------------------------------------------
  // Clipping and order

  /** A frame inside [date, endDate] that has not been placed or collapsed. */
  predicate InColumnCopy(f: TimeFrame, date: int, endDate: int)
  {
    date <= f.start && f.end <= endDate && f.left == None && !f.cropped
  }

  /** Every collected frame lies inside the column and is a fresh, unplaced copy. */
  lemma {:induction false} CollectedWithinColumn(cal: Calendar, date: int, endDate: int, k: nat)
    ensures forall i :: 0 <= i < |Collected(cal, date, endDate, k)| ==> InColumnCopy(Collected(cal, date, endDate, k)[i], date, endDate)
  {
    if k > 0 {
      CollectedWithinColumn(cal, date, endDate, k - 1);
      var c0 := Collected(cal, date, endDate, k - 1);
      var day := DayFrames(cal, date, endDate, k - 1);
      var c := Collected(cal, date, endDate, k);
      assert c == c0 + day;
      forall i | 0 <= i < |c|
        ensures InColumnCopy(c[i], date, endDate)
      {
        if i >= |c0| {
          var ds := DayStart(date, k - 1);
          assert c[i] == day[i - |c0|]
              == Clip(cal(ds, SolveWindowEnd(ds, endDate))[i - |c0|], ds, ds + DAY, date, endDate);
        } else {
          assert c[i] == c0[i];
        }
      }
    }
  }

  /** The geometry and crop passes keep every frame's interval and classification. */
  lemma BuiltKeepsIntervals(cal: Calendar, date: int, endDate: int, width: real,
                            workingMode: Mode, nonWorkingMode: Mode)
    requires date < endDate
    ensures SameIntervals(BuiltFrames(Some(cal), date, endDate, width, workingMode, nonWorkingMode),
                          RawFrames(cal, date, endDate))
            || !Generates(Some(cal), workingMode, nonWorkingMode)
  {
    if Generates(Some(cal), workingMode, nonWorkingMode) {
      var raw := RawFrames(cal, date, endDate);
      var laid := LaidFrames(cal, date, endDate, width, workingMode, nonWorkingMode);
      var built := BuiltFrames(Some(cal), date, endDate, width, workingMode, nonWorkingMode);
      forall k | 0 <= k < |raw|
        ensures built[k].start == raw[k].start && built[k].end == raw[k].end
        ensures built[k].working == raw[k].working && built[k].magnet == raw[k].magnet
      {
        LaidOutKeepsIntervals(raw, date, endDate - date, width, workingMode, nonWorkingMode, k);
        if CropApplies(laid, width, workingMode, nonWorkingMode) {
          CropPassShape(laid, CropRatio(width, ExpandedWidth(laid, workingMode, nonWorkingMode)), workingMode, nonWorkingMode, k);
        }
      }
    }
  }

  /** Clipping: every frame of a built column lies within [date, endDate]. */
  lemma BuiltFramesWithinColumn(cal: Option<Calendar>, date: int, endDate: int, width: real,
                                workingMode: Mode, nonWorkingMode: Mode)
    ensures var fs := BuiltFrames(cal, date, endDate, width, workingMode, nonWorkingMode);
            forall i :: 0 <= i < |fs| ==> date <= fs[i].start && fs[i].end <= endDate
  {
    if Generates(cal, workingMode, nonWorkingMode) && date < endDate {
      CollectedWithinColumn(cal.value, date, endDate, DayCount(date, endDate));
      BuiltKeepsIntervals(cal.value, date, endDate, width, workingMode, nonWorkingMode);
    }
  }

  lemma PartitionTransfers(a: seq<TimeFrame>, b: seq<TimeFrame>, lo: int, hi: int)
    requires SameIntervals(a, b) && Partition(b, lo, hi)
    ensures Partition(a, lo, hi)
  {
  }

  /**
   * When the calendar honours its contract, the frames of a built column are
   * an ordered, gap-free partition of [date, endDate).
   */
  lemma BuiltFramesPartition(cal: Calendar, date: int, endDate: int, width: real,
                             workingMode: Mode, nonWorkingMode: Mode)
    requires date < endDate && Generates(Some(cal), workingMode, nonWorkingMode)
    requires CalendarResolves(cal, date, endDate)
    ensures Partition(BuiltFrames(Some(cal), date, endDate, width, workingMode, nonWorkingMode), date, endDate)
  {
    CollectedPartition(cal, date, endDate);
    BuiltKeepsIntervals(cal, date, endDate, width, workingMode, nonWorkingMode);
    PartitionTransfers(BuiltFrames(Some(cal), date, endDate, width, workingMode, nonWorkingMode),
                       RawFrames(cal, date, endDate), date, endDate);
  }

  // ---------------------------------------------------------------------
  // Geometry

  /**
   * Over a resolving calendar, every laid-out frame's left is the sum of the
   * widths before it, and all widths add up to the column width.
   */
  lemma LaidFramesContiguous(cal: Calendar, date: int, endDate: int, width: real,
                             workingMode: Mode, nonWorkingMode: Mode)
    requires date < endDate && CalendarResolves(cal, date, endDate)
    ensures Contiguous(LaidFrames(cal, date, endDate, width, workingMode, nonWorkingMode), width)
  {
    CollectedPartition(cal, date, endDate);
    LaidOutContiguous(RawFrames(cal, date, endDate), date, endDate, width, workingMode, nonWorkingMode);
  }

  /** Without a redistribution, the built frames are the laid-out ones, contiguous and filling the column. */
  lemma UncroppedFramesFillColumn(cal: Calendar, date: int, endDate: int, width: real,
                                  workingMode: Mode, nonWorkingMode: Mode)
    requires date < endDate && Generates(Some(cal), workingMode, nonWorkingMode)
    requires CalendarResolves(cal, date, endDate)
    requires !CropApplies(LaidFrames(cal, date, endDate, width, workingMode, nonWorkingMode), width, workingMode, nonWorkingMode)
    ensures var fs := BuiltFrames(Some(cal), date, endDate, width, workingMode, nonWorkingMode);
            && (forall k :: 0 <= k && k + 1 < |fs| ==> fs[k].left.Some? && fs[k + 1].left == Some(fs[k].left.value + fs[k].width))
            && WidthSum(fs) == width
  {
    LaidFramesAdjacent(cal, date, endDate, width, workingMode, nonWorkingMode);
    assert BuiltFrames(Some(cal), date, endDate, width, workingMode, nonWorkingMode)
        == LaidFrames(cal, date, endDate, width, workingMode, nonWorkingMode);
  }

  /** The laid-out frames sit end to end and fill the column. */
  lemma LaidFramesAdjacent(cal: Calendar, date: int, endDate: int, width: real,
                           workingMode: Mode, nonWorkingMode: Mode)
    requires date < endDate && CalendarResolves(cal, date, endDate)
    ensures var fs := LaidFrames(cal, date, endDate, width, workingMode, nonWorkingMode);
            && (forall k :: 0 <= k && k + 1 < |fs| ==> fs[k].left.Some? && fs[k + 1].left == Some(fs[k].left.value + fs[k].width))
            && WidthSum(fs) == width
  {
    LaidFramesContiguous(cal, date, endDate, width, workingMode, nonWorkingMode);
  }

  // ---------------------------------------------------------------------
  // Crop

  /** Crop conservation: after a redistribution with some surviving width, the widths of the built frames sum to the column width. */
  lemma CroppedFramesFillColumn(cal: Calendar, date: int, endDate: int, width: real,
                                workingMode: Mode, nonWorkingMode: Mode)
    requires Generates(Some(cal), workingMode, nonWorkingMode)
    requires var laid := LaidFrames(cal, date, endDate, width, workingMode, nonWorkingMode);
             CropApplies(laid, width, workingMode, nonWorkingMode) && ExpandedWidth(laid, workingMode, nonWorkingMode) != 0.0
    ensures WidthSum(BuiltFrames(Some(cal), date, endDate, width, workingMode, nonWorkingMode)) == width
  {
    CropFillsColumn(LaidFrames(cal, date, endDate, width, workingMode, nonWorkingMode), width, workingMode, nonWorkingMode);
  }

  /**
   * After a redistribution over a resolving calendar, every surviving frame
   * starts where the surviving widths before it end, and every collapsed
   * frame has width 0, no left and the cropped flag.
   */
  lemma CroppedFramesShape(cal: Calendar, date: int, endDate: int, width: real,
                           workingMode: Mode, nonWorkingMode: Mode, k: nat)
    requires date < endDate && Generates(Some(cal), workingMode, nonWorkingMode)
    requires CalendarResolves(cal, date, endDate)
    requires CropApplies(LaidFrames(cal, date, endDate, width, workingMode, nonWorkingMode), width, workingMode, nonWorkingMode)
    requires k < |BuiltFrames(Some(cal), date, endDate, width, workingMode, nonWorkingMode)|
    ensures var fs := BuiltFrames(Some(cal), date, endDate, width, workingMode, nonWorkingMode);
            && (Survives(fs[k].working, workingMode, nonWorkingMode) ==> !fs[k].cropped && fs[k].left == Some(WidthSum(fs[..k])))
            && (!Survives(fs[k].working, workingMode, nonWorkingMode) ==>
                  fs[k].cropped && fs[k].width == 0.0 && fs[k].left == None && fs[k].originalSize == Size(None, 0.0))
  {
    var laid := LaidFrames(cal, date, endDate, width, workingMode, nonWorkingMode);
    var ratio := CropRatio(width, ExpandedWidth(laid, workingMode, nonWorkingMode));
    LaidFramesContiguous(cal, date, endDate, width, workingMode, nonWorkingMode);
    CropPassShape(laid, ratio, workingMode, nonWorkingMode, k);
    if Survives(laid[k].working, workingMode, nonWorkingMode) {
      CropLeftsArePrefixSums(laid, ratio, workingMode, nonWorkingMode, k);
    }
  }

  /** originalSize records {left, width} before any redistribution, and still mirrors them after it. */
  lemma BuiltOriginalSize(cal: Option<Calendar>, date: int, endDate: int, width: real,
                          workingMode: Mode, nonWorkingMode: Mode)
    ensures var fs := BuiltFrames(cal, date, endDate, width, workingMode, nonWorkingMode);
            forall k :: 0 <= k < |fs| ==> fs[k].originalSize == Size(fs[k].left, fs[k].width)
  {
    if Generates(cal, workingMode, nonWorkingMode) && date < endDate {
      var laid := LaidFrames(cal.value, date, endDate, width, workingMode, nonWorkingMode);
      forall k | 0 <= k < |laid|
        ensures laid[k].originalSize == Size(laid[k].left, laid[k].width)
      {
        LaidOutKeepsIntervals(RawFrames(cal.value, date, endDate), date, endDate - date, width, workingMode, nonWorkingMode, k);
      }
      if CropApplies(laid, width, workingMode, nonWorkingMode) {
        CropKeepsOriginalSize(laid, CropRatio(width, ExpandedWidth(laid, workingMode, nonWorkingMode)), workingMode, nonWorkingMode);
      }
    }
  }

  /**
   * The column is cropped exactly when a redistribution ran and left every
   * frame collapsed; it is not cropped when the surviving width already equals
   * the column width.
   */
  lemma ColumnCroppedIffAllCollapsed(cal: Option<Calendar>, date: int, endDate: int, width: real,
                                     workingMode: Mode, nonWorkingMode: Mode)
    ensures var fs := BuiltFrames(cal, date, endDate, width, workingMode, nonWorkingMode);
            ColumnCropped(cal, date, endDate, width, workingMode, nonWorkingMode)
            <==> (Generates(cal, workingMode, nonWorkingMode)
                  && CropApplies(LaidFrames(cal.value, date, endDate, width, workingMode, nonWorkingMode), width, workingMode, nonWorkingMode)
                  && forall k :: 0 <= k < |fs| ==> fs[k].cropped)
  {
    if Generates(cal, workingMode, nonWorkingMode) {
      var laid := LaidFrames(cal.value, date, endDate, width, workingMode, nonWorkingMode);
      if CropApplies(laid, width, workingMode, nonWorkingMode) {
        var ratio := CropRatio(width, ExpandedWidth(laid, workingMode, nonWorkingMode));
        var fs := BuiltFrames(cal, date, endDate, width, workingMode, nonWorkingMode);
        assert fs == CropPass(laid, ratio, workingMode, nonWorkingMode);
        CropPassCroppedIff(laid, ratio, workingMode, nonWorkingMode);
        assert ColumnCropped(cal, date, endDate, width, workingMode, nonWorkingMode)
               <==> AllCollapsed(laid, workingMode, nonWorkingMode);
      } else {
        assert !ColumnCropped(cal, date, endDate, width, workingMode, nonWorkingMode);
      }
    } else {
      assert !ColumnCropped(cal, date, endDate, width, workingMode, nonWorkingMode);
    }
  }

  lemma CropPassCroppedIff(fs: seq<TimeFrame>, ratio: real, workingMode: Mode, nonWorkingMode: Mode)
    ensures var c := CropPass(fs, ratio, workingMode, nonWorkingMode);
            AllCollapsed(fs, workingMode, nonWorkingMode) <==> forall k :: 0 <= k < |c| ==> c[k].cropped
  {
    var c := CropPass(fs, ratio, workingMode, nonWorkingMode);
    forall k | 0 <= k < |fs|
      ensures c[k].cropped <==> !Survives(fs[k].working, workingMode, nonWorkingMode)
    {
      CropPassShape(fs, ratio, workingMode, nonWorkingMode, k);
    }
  }

  // ---------------------------------------------------------------------
  // The day index

  /** The day index holds exactly the keys of the days visited, each naming that day's index range. */
  lemma {:induction false} DaysMapContents(cal: Calendar, date: int, endDate: int, k: nat)
    ensures var m := DaysMap(cal, date, endDate, k);
            && (forall key :: key in m <==> DateKey(date) <= key < DateKey(date) + k)
            && (forall j :: 0 <= j < k ==> m[DateKey(date) + j] == DayRange(cal, date, endDate, j))
  {
    if k > 0 {
      DaysMapContents(cal, date, endDate, k - 1);
      DateKeyOfDayStart(date, k - 1);
    }
  }

  /** The built frames have as many entries as the day loop collected. */
  lemma BuiltFramesLength(cal: Calendar, date: int, endDate: int, width: real,
                          workingMode: Mode, nonWorkingMode: Mode)
    requires Generates(Some(cal), workingMode, nonWorkingMode)
    ensures |BuiltFrames(Some(cal), date, endDate, width, workingMode, nonWorkingMode)| == |RawFrames(cal, date, endDate)|
  {
  }

  /**
   * getDayTimeFrame on a built column: the j-th day visited yields the built
   * frames of that day, which have the intervals the calendar gave for it;
   * a day the loop never visited yields no frames.
   */
  lemma DayViewOfBuilt(cal: Calendar, date: int, endDate: int, left: real, width: real,
                       workingMode: Mode, nonWorkingMode: Mode, j: nat)
    requires date < endDate && Generates(Some(cal), workingMode, nonWorkingMode)
    requires j < DayCount(date, endDate)
    ensures var L := BuiltLayout(Some(cal), date, endDate, left, width, workingMode, nonWorkingMode);
            var lo := |Collected(cal, date, endDate, j)|;
            var hi := |Collected(cal, date, endDate, j + 1)|;
            && lo <= hi <= |L.frames|
            && DayView(L, DayStart(date, j)) == L.frames[lo..hi]
            && SameIntervals(DayView(L, DayStart(date, j)), DayFrames(cal, date, endDate, j))
  {
    var L := BuiltLayout(Some(cal), date, endDate, left, width, workingMode, nonWorkingMode);
    var lo := |Collected(cal, date, endDate, j)|;
    var hi := |Collected(cal, date, endDate, j + 1)|;
    DayViewIsSlice(cal, date, endDate, left, width, workingMode, nonWorkingMode, j);
    CollectedDaySlice(cal, date, endDate, j, DayCount(date, endDate));
    BuiltKeepsIntervals(cal, date, endDate, width, workingMode, nonWorkingMode);
    SliceKeepsIntervals(L.frames, RawFrames(cal, date, endDate), lo, hi, DayFrames(cal, date, endDate, j));
  }

  /** The day index entry of the j-th day visited names the range that day's frames occupy. */
  lemma DayViewIsSlice(cal: Calendar, date: int, endDate: int, left: real, width: real,
                       workingMode: Mode, nonWorkingMode: Mode, j: nat)
    requires Generates(Some(cal), workingMode, nonWorkingMode)
    requires j < DayCount(date, endDate)
    ensures var L := BuiltLayout(Some(cal), date, endDate, left, width, workingMode, nonWorkingMode);
            var lo := |Collected(cal, date, endDate, j)|;
            var hi := |Collected(cal, date, endDate, j + 1)|;
            && lo <= hi <= |L.frames|
            && DayView(L, DayStart(date, j)) == L.frames[lo..hi]
  {
    var n := DayCount(date, endDate);
    var L := BuiltLayout(Some(cal), date, endDate, left, width, workingMode, nonWorkingMode);
    DaysMapContents(cal, date, endDate, n);
    DateKeyOfDayStart(date, j);
    assert L.days == DaysMap(cal, date, endDate, n);
    assert L.days[DateKey(DayStart(date, j))] == DayRange(cal, date, endDate, j);
    CollectedGrows(cal, date, endDate, j, j + 1);
    CollectedGrows(cal, date, endDate, j + 1, n);
    BuiltFramesLength(cal, date, endDate, width, workingMode, nonWorkingMode);
  }

  /** A slice of a frame list keeps the intervals of the same slice of a list with the same intervals. */
  lemma SliceKeepsIntervals(fs: seq<TimeFrame>, raw: seq<TimeFrame>, lo: nat, hi: nat, day: seq<TimeFrame>)
    requires SameIntervals(fs, raw) && lo <= hi <= |raw| && raw[lo..hi] == day
    ensures SameIntervals(fs[lo..hi], day)
  {
    var view := fs[lo..hi];
    forall i | 0 <= i < |view|
      ensures view[i].start == day[i].start && view[i].end == day[i].end
      ensures view[i].working == day[i].working && view[i].magnet == day[i].magnet
    {
      assert view[i] == fs[lo + i];
      assert day[i] == raw[lo + i];
    }
  }

  /** getDayTimeFrame gives no frames for a date whose day the column never visited. */
  lemma DayViewOutsideColumn(cal: Option<Calendar>, date: int, endDate: int, left: real, width: real,
                             workingMode: Mode, nonWorkingMode: Mode, d: int)
    requires DateKey(d) < DateKey(date) || DateKey(date) + DayCount(date, endDate) <= DateKey(d)
    ensures DayView(BuiltLayout(cal, date, endDate, left, width, workingMode, nonWorkingMode), d) == []
  {
    if Generates(cal, workingMode, nonWorkingMode) {
      DaysMapContents(cal.value, date, endDate, DayCount(date, endDate));
    }
  }
}
