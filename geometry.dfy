/**
 * Geometry of the frames of one column: the single affine map from time to
 * position over the whole column, the hidden flag derived from the modes, and
 * the sum of widths (src/core/logic/column/column.factory.js:95-119).
 */
module Geometry {
  import opened Wrappers
  import opened TimeFrames

  /** Position of instant t in a column starting at `date`: (t - date) / duration * width. */
  function Position(t: int, date: int, duration: int, width: real): real
    requires duration != 0
  {
    (t - date) as real / duration as real * width
  }

  /** Width of the frame [start, end): (end - start) / duration * width. */
  function FrameWidth(start: int, end: int, duration: int, width: real): real
    requires duration != 0
  {
    (end - start) as real / duration as real * width
  }

  /** The mode that governs a frame of the given classification. */
  function ModeOf(working: bool, workingMode: Mode, nonWorkingMode: Mode): Mode
  {
    if working then workingMode else nonWorkingMode
  }

  /** The hidden flag as the source computes it from the two modes. */
  predicate Hidden(working: bool, workingMode: Mode, nonWorkingMode: Mode)
  {
    (working && workingMode != Visible) || (!working && nonWorkingMode != Visible)
  }

  lemma HiddenIffNotVisible(working: bool, workingMode: Mode, nonWorkingMode: Mode)
    ensures Hidden(working, workingMode, nonWorkingMode) <==> ModeOf(working, workingMode, nonWorkingMode) != Visible
  {
  }

  /** One frame after the geometry pass: left, width, hidden and the originalSize snapshot. */
  function LayOutFrame(tf: TimeFrame, date: int, duration: int, width: real,
                       workingMode: Mode, nonWorkingMode: Mode): (r: TimeFrame)
    requires duration != 0
  {
    var left := Position(tf.start, date, duration, width);
    var w := FrameWidth(tf.start, tf.end, duration, width);
    tf.(left := Some(left), width := w, hidden := Hidden(tf.working, workingMode, nonWorkingMode),
        originalSize := Size(Some(left), w))
  }

  /** The geometry pass over all frames, in order. */
  function LaidOut(fs: seq<TimeFrame>, date: int, duration: int, width: real,
                   workingMode: Mode, nonWorkingMode: Mode): seq<TimeFrame>
    requires duration != 0
  {
    seq(|fs|, i requires 0 <= i < |fs| => LayOutFrame(fs[i], date, duration, width, workingMode, nonWorkingMode))
  }

  /** A frame's right edge is the position of its end instant. */
  lemma {:induction false} FrameRightEdge(start: int, end: int, date: int, duration: int, width: real)
    requires duration != 0
    ensures Position(start, date, duration, width) + FrameWidth(start, end, duration, width)
            == Position(end, date, duration, width)
  {
    var d := duration as real;
    var a := (start - date) as real;
    var b := (end - start) as real;
    assert a / d + b / d == (a + b) / d;
    calc {
      Position(start, date, duration, width) + FrameWidth(start, end, duration, width);
      (a / d) * width + (b / d) * width;
      (a / d + b / d) * width;
      ((a + b) / d) * width;
    }
  }

  /**
   * When one frame ends where the next starts, the first frame's left plus its
   * width is the next frame's left: laid-out frames are contiguous.
   */
  lemma AdjacentFramesMeet(fs: seq<TimeFrame>, i: nat, date: int, duration: int, width: real,
                           workingMode: Mode, nonWorkingMode: Mode)
    requires duration != 0
    requires i + 1 < |fs| && fs[i].end == fs[i + 1].start
    ensures var l := LaidOut(fs, date, duration, width, workingMode, nonWorkingMode);
            l[i].left.Some? && l[i + 1].left.Some? && l[i].left.value + l[i].width == l[i + 1].left.value
  {
    FrameRightEdge(fs[i].start, fs[i].end, date, duration, width);
  }

  /** A frame that covers the whole span gets the whole column width, starting at 0. */
  lemma WholeSpanFrame(date: int, endDate: int, width: real)
    requires date != endDate
    ensures Position(date, date, endDate - date, width) == 0.0
    ensures FrameWidth(date, endDate, endDate - date, width) == width
  {
  }

  /** The geometry pass keeps every frame's interval and flags and snapshots {left, width}. */
  lemma LaidOutKeepsIntervals(fs: seq<TimeFrame>, date: int, duration: int, width: real,
                              workingMode: Mode, nonWorkingMode: Mode, i: nat)
    requires duration != 0 && i < |fs|
    ensures var l := LaidOut(fs, date, duration, width, workingMode, nonWorkingMode);
            && |l| == |fs|
            && l[i].start == fs[i].start && l[i].end == fs[i].end
            && l[i].working == fs[i].working && l[i].magnet == fs[i].magnet && l[i].cropped == fs[i].cropped
            && l[i].originalSize == Size(l[i].left, l[i].width)
            && l[i].left == Some(Position(fs[i].start, date, duration, width))
            && l[i].width == FrameWidth(fs[i].start, fs[i].end, duration, width)
            && (l[i].hidden <==> ModeOf(fs[i].working, workingMode, nonWorkingMode) != Visible)
  {
  }

  /** Sum of the widths of the frames. */
  function WidthSum(fs: seq<TimeFrame>): real
  {
    if fs == [] then 0.0 else WidthSum(fs[..|fs| - 1]) + fs[|fs| - 1].width
  }

  /**
   * Over a partition of [date, endDate), the widths of the frames before frame
   * k add up to frame k's left, and all widths add up to the column width.
   */
  lemma {:induction false} LaidOutWidthsTelescope(fs: seq<TimeFrame>, date: int, endDate: int, width: real,
                                                  workingMode: Mode, nonWorkingMode: Mode, k: nat)
    requires date != endDate
    requires Partition(fs, date, endDate)
    requires k <= |fs|
    ensures var l := LaidOut(fs, date, endDate - date, width, workingMode, nonWorkingMode);
            WidthSum(l[..k]) == if k < |fs| then Position(fs[k].start, date, endDate - date, width) else width
  {
    var duration := endDate - date;
    var l := LaidOut(fs, date, duration, width, workingMode, nonWorkingMode);
    if k == 0 {
      assert l[..0] == [];
    } else {
      LaidOutWidthsTelescope(fs, date, endDate, width, workingMode, nonWorkingMode, k - 1);
      assert l[..k][..k - 1] == l[..k - 1];
      FrameRightEdge(fs[k - 1].start, fs[k - 1].end, date, duration, width);
      assert WidthSum(l[..k]) == Position(fs[k - 1].end, date, duration, width);
      if k < |fs| {
        assert fs[k - 1].end == fs[k].start;
      } else {
        WholeSpanFrame(date, endDate, width);
        assert Position(endDate, date, duration, width) == FrameWidth(date, endDate, duration, width);
      }
    }
  }

  /** One laid-out frame of a partition: its left is the sum of the widths before it. */
  lemma LaidOutLeftIsPrefixSum(fs: seq<TimeFrame>, date: int, endDate: int, width: real,
                               workingMode: Mode, nonWorkingMode: Mode, k: nat)
    requires date != endDate && Partition(fs, date, endDate) && k < |fs|
    ensures var l := LaidOut(fs, date, endDate - date, width, workingMode, nonWorkingMode);
            l[k].left == Some(WidthSum(l[..k]))
  {
    LaidOutKeepsIntervals(fs, date, endDate - date, width, workingMode, nonWorkingMode, k);
    LaidOutWidthsTelescope(fs, date, endDate, width, workingMode, nonWorkingMode, k);
  }

  /** The laid-out frames of a partition fill the column exactly. */
  lemma LaidOutFillsColumn(fs: seq<TimeFrame>, date: int, endDate: int, width: real,
                           workingMode: Mode, nonWorkingMode: Mode)
    requires date != endDate && Partition(fs, date, endDate)
    ensures WidthSum(LaidOut(fs, date, endDate - date, width, workingMode, nonWorkingMode)) == width
  {
    var l := LaidOut(fs, date, endDate - date, width, workingMode, nonWorkingMode);
    LaidOutWidthsTelescope(fs, date, endDate, width, workingMode, nonWorkingMode, |fs|);
    assert l[..|fs|] == l;
  }

  /**
   * Frames laid end to end from 0: every left is the sum of the widths before
   * it, each frame ends where the next begins, and the widths add up to `width`.
   */
  predicate Contiguous(l: seq<TimeFrame>, width: real)
  {
    && PrefixLefts(l)
    && (forall k :: 0 <= k && k + 1 < |l| ==> l[k].left.Some? && l[k + 1].left == Some(l[k].left.value + l[k].width))
    && WidthSum(l) == width
  }

  /** Every left is the sum of the widths before it. */
  predicate PrefixLefts(l: seq<TimeFrame>)
  {
    forall k :: 0 <= k < |l| ==> l[k].left == Some(WidthSum(l[..k]))
  }

  /**
   * The laid-out frames of a partition are contiguous: every left is the sum
   * of the widths before it, each frame ends where the next begins, and the
   * widths fill the column.
   */
  lemma LaidOutContiguous(fs: seq<TimeFrame>, date: int, endDate: int, width: real,
                          workingMode: Mode, nonWorkingMode: Mode)
    requires date != endDate && Partition(fs, date, endDate)
    ensures Contiguous(LaidOut(fs, date, endDate - date, width, workingMode, nonWorkingMode), width)
  {
    LaidOutPrefixLefts(fs, date, endDate, width, workingMode, nonWorkingMode);
    LaidOutFillsColumn(fs, date, endDate, width, workingMode, nonWorkingMode);
    PrefixLeftsContiguous(LaidOut(fs, date, endDate - date, width, workingMode, nonWorkingMode), width);
  }

  lemma LaidOutPrefixLefts(fs: seq<TimeFrame>, date: int, endDate: int, width: real,
                           workingMode: Mode, nonWorkingMode: Mode)
    requires date != endDate && Partition(fs, date, endDate)
    ensures PrefixLefts(LaidOut(fs, date, endDate - date, width, workingMode, nonWorkingMode))
  {
    var l := LaidOut(fs, date, endDate - date, width, workingMode, nonWorkingMode);
    forall k | 0 <= k < |l|
      ensures l[k].left == Some(WidthSum(l[..k]))
    {
      LaidOutLeftIsPrefixSum(fs, date, endDate, width, workingMode, nonWorkingMode, k);
    }
  }

  /** Frames whose lefts are prefix sums and whose widths add up to `width` are contiguous. */
  lemma PrefixLeftsContiguous(l: seq<TimeFrame>, width: real)
    requires PrefixLefts(l) && WidthSum(l) == width
    ensures Contiguous(l, width)
  {
    PrefixSumsAreAdjacent(l);
  }

  /** Frames whose lefts are the sums of the widths before them sit end to end. */
  lemma PrefixSumsAreAdjacent(fs: seq<TimeFrame>)
    requires PrefixLefts(fs)
    ensures forall k :: 0 <= k && k + 1 < |fs| ==> fs[k].left.Some? && fs[k + 1].left == Some(fs[k].left.value + fs[k].width)
  {
    forall k | 0 <= k && k + 1 < |fs|
      ensures fs[k + 1].left == Some(fs[k].left.value + fs[k].width)
    {
      assert fs[..k + 1][..k] == fs[..k];
      assert WidthSum(fs[..k + 1]) == WidthSum(fs[..k]) + fs[k].width;
    }
  }
}
