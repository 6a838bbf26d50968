# angular-gantt column layout, modelled in Dafny

This project models `GanttColumn` (`src/core/logic/column/column.factory.js`), the part of angular-gantt that lays one column of the grid out. A column covers the time span `[date, endDate)` and occupies the horizontal range `[left, left + width]`. When it is built, it asks the calendar for each day's working and non-working intervals. It keeps a clipped copy of each interval as a *time frame* and gives every frame a `left` and a `width`. Depending on the two modes (`visible`, `hidden`, `cropped`) it hides frames, or collapses them and stretches the others across the column. The column then converts dates to positions and back, and snaps dates to the column borders, to calendar units, or to frame boundaries (the *magnet*).

Representation:
- Time is an integer number of milliseconds, and one day is a fixed step `DAY`. Positions and widths are `real`.
- A day key (`getDateKey`) is the number of the day an instant falls in.
- The calendar is a function from a day's window to its resolved intervals. Its contract (ordered, gap-free, covering the window) is the predicate `Resolved`.
- A frame is the datatype `TimeFrame`. `undefined` is `Option.None`.
- The column is the class `Columns.Column`. Its fields are the source's fields.
- `visibleTimeFrames` holds indices into `timeFrames`, and `daysTimeFrames` maps each day key to the index range of that day's frames. The source's lists share the same frame objects; indices capture that sharing.

Modules, in dependency order:

| Module | File | Content |
|---|---|---|
| `Wrappers` | `wrappers.dfy` | `Option` |
| `TimeFrames` | `frames.dfy` | the day loop on values: clipping, per-day slices, their concatenation, the partition invariant |
| `Geometry` | `geometry.dfy` | the affine map from time to position, `hidden`, width sums and contiguity |
| `Crop` | `crop.dfy` | the crop redistribution on values and its conservation laws |
| `Rounding` | `rounding.dfy` | `roundTo` on the seven fields of a date |
| `Magnet` | `magnet.dfy` | the frame magnet's candidate edges and its scan, as functions |
| `Positions` | `positions.dfy` | the queries as functions of a frozen `Layout` value, and their properties |
| `Build` | `build.dfy` | what the constructor leaves in a column, as functions of its arguments, and the invariants of that state |
| `Columns` | `column.dfy` | the `Column` class, and the loops of `updateTimeFrames` and the queries as methods proved against those functions |

## Model

| member | source | states |
|---|---|---|
| Columns.Column.constructor | src/core/logic/column/column.factory.js:6-22 | stores the arguments, sets `originalSize` to `{left, width}`, and leaves exactly the derived state `updateTimeFrames` computes (`Valid`, `Snapshot() == BuiltLayout(...)`) |
| Columns.Column.UpdateTimeFrames | src/core/logic/column/column.factory.js:44-165 | on a fresh column, sets `timeFrames`, `daysTimeFrames`, `visibleTimeFrames` and `cropped` to `BuiltFrames`, `BuiltDays`, `BuiltVisible` and `ColumnCropped`, and changes no other field |
| Columns.DeriveTimeFrames | src/core/logic/column/column.factory.js:47-164 | without a calendar, or with both modes hidden, nothing is generated; otherwise the day loop, then the geometry pass, then the crop step; each result equals its specification function |
| Columns.CollectDays | src/core/logic/column/column.factory.js:52-93 | the day loop yields the in-order concatenation of every visited day's clipped frames, and a day index mapping each visited day's key to that day's range |
| Columns.ClipDay | src/core/logic/column/column.factory.js:57-84 | the clip loop of one day yields the clipped copy of each resolved record, in order |
| TimeFrames.Clip | src/core/logic/column/column.factory.js:60-83 | a missing edge defaults to the day's bound; the start is raised to `date` and the end lowered to `endDate`; flags are kept; the copy is unplaced and not collapsed |
| TimeFrames.DayCountSpec | src/core/logic/column/column.factory.js:52-52 | the loop visits day k exactly when `date + k·DAY < endDate` |
| TimeFrames.DateKey | src/core/logic/column/column.factory.js:24-26 | the key of an instant is the number of the day that contains it: `key·DAY <= t < (key + 1)·DAY` |
| TimeFrames.DateKeyOfDayStart | src/core/logic/column/column.factory.js:24-26 | the k-th visited day has key `key(date) + k`, so distinct visited days get distinct keys |
| TimeFrames.CollectedPartition | src/core/logic/column/column.factory.js:52-93 | with the corrected solve window and a calendar that honours its contract, the collected frames are an ordered, gap-free partition of `[date, endDate)` into non-empty frames |
| TimeFrames.CollectedDaySlice | src/core/logic/column/column.factory.js:85-88 | the j-th day's frames are exactly the slice of the concatenation between the lengths after j and after j+1 days |
| TimeFrames.AsWrittenWindowInvertsFrame | src/core/logic/column/column.factory.js:54-76 | with the window as written, a one-hour column on a contract-honouring calendar gets a frame `[12:00, 01:00]` that starts after it ends |
| Build.BuiltFramesWithinColumn | src/core/logic/column/column.factory.js:60-83 | clipping: every frame of a built column lies within `[date, endDate]` |
| Build.BuiltKeepsIntervals | src/core/logic/column/column.factory.js:95-163 | after the geometry and crop passes, every frame keeps the interval and classification the day loop gave it |
| Build.BuiltFramesPartition | src/core/logic/column/column.factory.js:44-165 | over a contract-honouring calendar, the built frames partition `[date, endDate)` in order and without gaps |
| Build.DaysMapContents | src/core/logic/column/column.factory.js:87-88 | the day index holds exactly the keys of the visited days, each naming that day's index range |
| Build.DayViewOfBuilt | src/core/logic/column/column.factory.js:308-314 | `getDayTimeFrame` on a visited day returns exactly that day's slice of `timeFrames`, with the intervals the calendar gave for the day |
| Build.DayViewOutsideColumn | src/core/logic/column/column.factory.js:308-312 | `getDayTimeFrame` returns `[]` for a day that was never visited |
| Positions.DayView | src/core/logic/column/column.factory.js:308-314 | a key that is not stored yields `[]` |
| Columns.LayOutFrames | src/core/logic/column/column.factory.js:95-119 | the geometry loop gives frame j exactly `LayOutFrame` of the j-th input frame, and collects the indices of the non-hidden frames in order |
| Geometry.LaidOutKeepsIntervals | src/core/logic/column/column.factory.js:95-118 | each frame gets `left = (start − date)/duration·width` and `width = (end − start)/duration·width`, keeps its interval and flags, snapshots `originalSize = {left, width}`, and is hidden iff its mode is not `visible` |
| Geometry.FrameRightEdge | src/core/logic/column/column.factory.js:98-102 | a frame's left plus its width is the position of its end instant |
| Geometry.AdjacentFramesMeet | src/core/logic/column/column.factory.js:95-117 | when one frame ends where the next starts, `left_i + width_i = left_{i+1}` |
| Geometry.WholeSpanFrame | src/core/logic/column/column.factory.js:98-102 | a frame covering the whole span sits at 0 and has the column's width |
| Geometry.LaidOutContiguous | src/core/logic/column/column.factory.js:95-118 | over a partition, every left is the sum of the widths before it, adjacent frames meet, and the widths sum to the column width |
| Build.LaidFramesContiguous | src/core/logic/column/column.factory.js:95-118 | the same for the column's laid-out frames over a contract-honouring calendar |
| Build.UncroppedFramesFillColumn | src/core/logic/column/column.factory.js:95-161 | when no redistribution runs, the built frames sit end to end and their widths sum to the column width |
| Geometry.HiddenIffNotVisible | src/core/logic/column/column.factory.js:104-109 | the source's two-branch `hidden` test holds iff the frame's mode is not `visible` |
| Build.BuiltHiddenFollowsMode | src/core/logic/column/column.factory.js:104-115 | in a built column, every frame is hidden iff the mode of its classification is not `visible` |
| Build.BuiltVisibleExact | src/core/logic/column/column.factory.js:111-113 | `visibleTimeFrames` names, in increasing order, exactly the frames that are not hidden |
| Build.BuiltOriginalSize | src/core/logic/column/column.factory.js:118-154 | `originalSize` equals `{left, width}` after the geometry pass and still does after a redistribution |
| Columns.CropColumn | src/core/logic/column/column.factory.js:121-163 | the redistribution runs iff a mode is `cropped` and the surviving width differs from the column width; the cropped flag is set iff it ran and nothing survived |
| Columns.SurvivingWidth | src/core/logic/column/column.factory.js:122-129 | the first pass sums the widths of the frames whose classification is not cropped |
| Columns.Redistribute | src/core/logic/column/column.factory.js:133-159 | the second pass, with its running totals, yields exactly `CropPass` of the frames, and `allCropped` iff no frame survives |
| Columns.CropOne | src/core/logic/column/column.factory.js:139-156 | one frame of the second pass, given the totals collapsed before it, is `CropFrame` of that frame; the totals grow only by a collapsed frame's widths |
| Crop.CropPassShape | src/core/logic/column/column.factory.js:138-157 | a collapsed frame gets width 0, no left, `originalSize {undefined, 0}` and `cropped`; a surviving one is scaled by the ratio and unflagged; intervals, flags and `hidden` are kept |
| Crop.WidthSplits | src/core/logic/column/column.factory.js:122-150 | the total width is the surviving width plus the collapsed width |
| Crop.CropFillsColumn | src/core/logic/column/column.factory.js:131-157 | when some width survives, the rescaled widths sum to the column width |
| Build.CroppedFramesFillColumn | src/core/logic/column/column.factory.js:121-162 | crop conservation for a built column: after a redistribution with surviving width, the frames' widths sum to the column width |
| Crop.CropLeftsArePrefixSums | src/core/logic/column/column.factory.js:143-144 | a surviving frame whose left was the sum of the widths before it has, after the crop, the sum of the new widths before it as its left |
| Build.CroppedFramesShape | src/core/logic/column/column.factory.js:138-157 | after a redistribution, each surviving frame is unflagged and its left is the sum of the widths before it, and each collapsed frame has width 0, no left and the cropped flag |
| Crop.CropKeepsOriginalSize | src/core/logic/column/column.factory.js:145-154 | if `originalSize` mirrors `{left, width}` before the crop, it still does after it |
| Build.ColumnCroppedIffAllCollapsed | src/core/logic/column/column.factory.js:121-162 | `column.cropped` holds iff frames were generated, a redistribution ran, and every frame came out collapsed |
| Rounding.RoundTo | src/core/logic/column/column.factory.js:179-210 | the date array is rounded in place to exactly `RoundedFields` of its old value |
| Rounding.Canonical | src/core/logic/column/column.factory.js:181-184 | `day` becomes `date`; every other unit is kept |
| Rounding.EffectiveOffset | src/core/logic/column/column.factory.js:186-186 | an offset of 0 means 1; any other offset is kept |
| Rounding.DayRoundsAsDate | src/core/logic/column/column.factory.js:181-184 | rounding to `day` is rounding to `date` |
| Rounding.ZeroOffsetIsOne | src/core/logic/column/column.factory.js:186-186 | offset 0 rounds like offset 1, which leaves the chosen field unchanged |
| Rounding.RoundedFieldsFrame | src/core/logic/column/column.factory.js:201-207 | every finer field becomes 0 and every coarser field is kept |
| Rounding.RoundedIsMultiple | src/core/logic/column/column.factory.js:189-202 | the chosen field ends on a multiple of the offset |
| Rounding.RoundUpBounds | src/core/logic/column/column.factory.js:190-191 | `up` gives the smallest multiple not below the value |
| Rounding.RoundDownBounds | src/core/logic/column/column.factory.js:193-194 | `down` gives the largest multiple not above the value |
| Rounding.RoundNearestBounds | src/core/logic/column/column.factory.js:196-197 | the default moves the value by at most half the offset, with halves going up |
| Rounding.RoundingIsIdempotent | src/core/logic/column/column.factory.js:179-210 | rounding a rounded date changes nothing |
| Columns.Column.GetMagnetDate | src/core/logic/column/column.factory.js:212-269 | returns `MagnetDate` of the column's state: the guard, then the snap (with the corrected `column` comparison), then the frame magnet when asked for |
| Columns.Column.SnapDate | src/core/logic/column/column.factory.js:217-236 | in `column` mode the nearer border, judged by the position within the column (the corrected comparison, see Findings); otherwise the date rounded to nearest and clamped into the column |
| Positions.MagnetOff | src/core/logic/column/column.factory.js:213-268 | without a positive magnet value and a unit, the date is returned unchanged |
| Positions.SnapInColumn | src/core/logic/column/column.factory.js:217-236 | the snapped date lies in `[date, endDate]`; in `column` mode it is one of the two borders |
| Positions.MagnetWithoutFrames | src/core/logic/column/column.factory.js:213-236 | without the frame magnet, the result is the snapped date and lies in the column |
| Positions.ColumnSnapNearerBorder | src/core/logic/column/column.factory.js:217-225 | with the position taken relative to the column, a date of an uncropped column snaps to its start iff it lies in the first half of the span |
| Positions.AsWrittenColumnSnapAlwaysEnd | src/core/logic/column/column.factory.js:219-225 | as written, in every uncropped column whose left is at least half its width, every date snaps to the end |
| Positions.AsWrittenColumnSnapCounterexample | src/core/logic/column/column.factory.js:219-225 | in the second column of a 100-pixel grid, the column's own start snaps to its end as written and to its start as intended |
| Magnet.FrameCandidates | src/core/logic/column/column.factory.js:244-263 | a magnet frame offers its start iff it is first or its working flag differs from the previous frame's, and its end iff it is last or its flag differs from the next frame's; nothing else is offered |
| Magnet.PickStep | src/core/logic/column/column.factory.js:249-263 | one frame of the scan considers the frame's start first, then its end |
| Magnet.CandidatesAreFrameEdges | src/core/logic/column/column.factory.js:242-265 | every offered edge is the start or the end of a magnet frame |
| Magnet.PickChoice | src/core/logic/column/column.factory.js:238-266 | the scan keeps the snapped date iff no edge is strictly closer than it; otherwise it returns the first of the closest such edges, with its distance |
| Columns.FramesMagnet | src/core/logic/column/column.factory.js:238-266 | the loop with its running best returns exactly the scan's choice |
| Positions.FramesMagnetChoice | src/core/logic/column/column.factory.js:238-266 | with the frame magnet, the result is never farther from the date than the snapped date; it is the snapped date iff no offered edge is strictly closer; otherwise it is the first closest edge, a start or end of a magnet frame |
| Columns.Column.GetDateByPositionUsingTimeFrames | src/core/logic/column/column.factory.js:271-281 | returns `FrameDate` over the column's frames: the first uncollapsed frame covering the position decides |
| Positions.FrameDateChoice | src/core/logic/column/column.factory.js:271-281 | a date is found iff some uncollapsed frame covers the position; then the first such frame decides, and the date lies within that frame's `[start, end]` |
| Columns.Column.GetDateByPosition | src/core/logic/column/column.factory.js:283-306 | clamps the position, reads the frames when cropping is on and one matches, else uses the linear scale, then applies the magnet (with the corrected `column` comparison): exactly `DateByPosition` |
| Positions.ClampPosition | src/core/logic/column/column.factory.js:287-292 | the clamped position lies in `[0, width]`, and a position already there is kept |
| Positions.AddMillisWithin | src/core/logic/column/column.factory.js:298-300 | adding a fractional share of at most n milliseconds to an instant, with the sum truncated toward zero, lands within n milliseconds after it |
| Positions.AddMillisWhole | src/core/logic/column/column.factory.js:298-300 | a whole number of milliseconds is added exactly |
| Positions.LinearDateInColumn | src/core/logic/column/column.factory.js:298-300 | on the linear scale, the date at any position lies within `[date, endDate]` |
| Columns.Column.GetPositionByDate | src/core/logic/column/column.factory.js:316-353 | the day scan with its moving `croppedDate`, then the clamped linear scale: exactly `PositionAt` of the column's state |
| Positions.UncroppedIsLinear | src/core/logic/column/column.factory.js:294-353 | without cropping, both conversions use only the column's linear scale |
| Positions.LinearPositionMonotone | src/core/logic/column/column.factory.js:341-352 | the linear position is monotone in the date and stays within `[left, left + width]` |
| Positions.UncroppedRoundTrip | src/core/logic/column/column.factory.js:283-353 | without cropping, `getDateByPosition(getPositionByDate(d) − left) = d` for every `d` in `[date, endDate]` (before the magnet) |
| Positions.UncroppedPositionRoundTrip | src/core/logic/column/column.factory.js:283-353 | without cropping, `getPositionByDate(getDateByPosition(p)) − left` is within one millisecond's width (`width/(endDate − date)`) of `p` for every `p` in `[0, width]`; the gap is the truncation of the date |
| Positions.ScanPositionInFrame | src/core/logic/column/column.factory.js:325-336 | a date inside an uncollapsed frame is placed within that frame's `[left, left + width]`, offset by the column's left |
| Positions.CollapsedFrameTakesNextLeft | src/core/logic/column/column.factory.js:326-328 | a date inside a collapsed frame moves to the next frame's start, so it is placed at that frame's left when that frame is not collapsed |
| Positions.CollapsedLastFrameFallsBack | src/core/logic/column/column.factory.js:329-352 | a date inside a collapsed last frame of its day falls back to the linear scale at the original date |
| Columns.Column.Clone | src/core/logic/column/column.factory.js:167-169 | a fresh column over the same span, geometry and calendar, with both modes undefined, and `Equals` to the original |
| Columns.AdjacentColumnsSplitDates | src/core/logic/column/column.factory.js:171-173 | `containsDate` is open at the start and closed at the end, so two adjacent columns share no date and together hold exactly their joint span |
| Columns.Column.ContainsDate | src/core/logic/column/column.factory.js:171-173 | a column holds no date at or before its start and none after its end; it holds its end exactly when its span is non-empty |
| Columns.Column.Equals | src/core/logic/column/column.factory.js:175-177 | equal columns start at the same instant, so neither holds the other's start, and with the same end they hold the same dates |
| Columns.EqualColumnsOverlap | src/core/logic/column/column.factory.js:171-177 | two equal columns both hold exactly the dates after their common start up to the earlier of their ends |

## Left out

- `updateView` (:28-42) only sets CSS classes and styles on the DOM, so it is not modelled.
- The date library's calendar semantics are not modelled: month lengths, daylight saving, time zones, and what setting a field to 0 overflows to.
  - A day is a fixed step of `DAY` milliseconds.
  - The `year-month-date` key is the day number `t / DAY`.
  - `roundTo` acts on seven abstract field values.
  - `getMagnetDate` reads and writes fields through its parameters `fieldsOf` and `timeOf`.
- `calendar.getTimeFrames` and `calendar.solve` (:53-55) are calls into code outside this file. The calendar is a function parameter that gives a day window's resolved intervals. Properties that need the calendar's contract require `Resolved` for each visited day: at least one interval, the first starting at the window's start and the last ending at its end, each with start strictly before end inside the window, and each ending where the next starts.
- Columns.CollectDays: `cDate` starts as the column's own `date` object (:48), and moment's `add` mutates its receiver. So every step of the loop at :54 advances the column's `date` by a day, and `nextCDate` is that same object. The model instead steps a separate `cDate` by one day and leaves `date` fixed, as the code evidently intends. As written, with this aliasing:
  - `solve` at :55 is given the window `[cDate, cDate]`, already moved to the next day;
  - the default edges at :62 and :67 are both the next day's start, and the clamp at :70 compares with the moved `date`;
  - the key of :87 is the next day's key;
  - after the loop `date` is at or past `endDate`, so the geometry pass (:98), `containsDate`, `equals`, `clone` and all queries read the moved date, while `duration` (:12) keeps the original span.
- `cDateStartOfDay` and `cDateNextDay` (:49-50, :91-92) are never read and are left out.
- Columns.DeriveTimeFrames and Columns.CollectDays: the model asks the calendar to solve `[cDate, min(cDate + DAY, endDate))` rather than `[cDate, cDate + DAY)`. CollectDays computes this window end with TimeFrames.SolveWindowEnd; see Findings.
- Columns.Column.UpdateTimeFrames: only the construction-time call is modelled, on empty derived state. A second call would append to the lists again, because the source never resets them.
- Floating point is not modelled. Positions are exact reals, and the divisions JavaScript would turn into NaN or Infinity are guarded:
  - Crop.CropRatio: when no width survives the ratio is 0 instead of Infinity. No surviving frame then uses it, except surviving frames of width 0.
  - Positions.InFrame and Positions.FrameOffset: a frame of duration or width 0 gives offset 0 instead of NaN.
  - Columns.Column.GetPositionByDate requires `date < endDate`, since a zero duration divides by 0.
  - Columns.Column.GetDateByPosition requires `width != 0`, against the division at :298, and `date < endDate`, because its magnet reads `getPositionByDate`.
  - Columns.Column.SnapDate and Columns.Column.GetMagnetDate require `date < endDate` for the same reason.
- Columns.Column.Equals compares the start instants. The source compares moment objects with `===`, which is identity: two columns with equal but distinct start objects are unequal there. In particular `clone` (:168) passes a copy `moment(this.date)`, so a clone is not `equals` to its original in the source, while here Columns.Column.Clone ensures it is.
- Frames are values, not shared objects. The mutation of each frame in place is modelled by replacing whole frames in `timeFrames`. The sharing between `timeFrames`, `visibleTimeFrames` and `daysTimeFrames` is modelled by indices into `timeFrames`.
- Columns.Column.SnapDate, Columns.Column.GetMagnetDate and Columns.Column.GetDateByPosition: in `column` mode they compare the position within the column (`position − left`) with `width / 2`, the corrected comparison. The source compares the absolute position, which includes `left` (:219-221), so for a column whose `left` is at least half its width the source always snaps to the end. Positions.AsWrittenColumnSnap models the comparison as written; see Findings.
- Rounding.Unit: `roundTo` and `getMagnetDate` with a unit outside millisecond … year (for which `indexOf` is -1) are not modelled.
- Positions.MagnetDate: the magnet value and the rounding are on integers, and `Math.abs` of a date difference is `Dist` on integers.

## Findings

| source | as written | input that shows it | evidently intended | confidence | as-written member | corrected member |
|---|---|---|---|---|---|---|
| src/core/logic/column/column.factory.js:54-76 | Taking the loop's stepping as intended (see Columns.CollectDays under Left out), `solve` is asked for a whole day up to `nextCDate`, even when the column ends sooner. The clamp then lowers only `end` to `endDate`, so a frame that starts after the column's end keeps that start. | A column `[00:00, 01:00)` whose calendar splits each window at its midpoint into a working and a non-working half. The second frame becomes `start = 12:00`, `end = 01:00`. | The window stops at the column's end, so the frames partition `[date, endDate)` | not executed; medium, because the same lines also carry the `add` aliasing noted under Left out | TimeFrames.AsWrittenWindowInvertsFrame | TimeFrames.CollectedPartition |
| src/core/logic/column/column.factory.js:217-225 | The `column` magnet compares `getPositionByDate(date)`, which includes the column's `left`, with `width / 2`. | The second column of a grid of 100-pixel columns (`left = 100`, `width = 100`). Its position is at least 100, so every date snaps to the column's end, its own start included. | Compare the position within the column (`position − left`) with `width / 2`, snapping to the nearer border | not executed; high | Positions.AsWrittenColumnSnapCounterexample | Positions.ColumnSnapNearerBorder |
