/**
 * Crop redistribution (src/core/logic/column/column.factory.js:121-163):
 * frames of the cropped classification collapse to width 0 and the others are
 * rescaled by width / expandedWidth, shifted left by the width already
 * collapsed before them.
 */
module Crop {
  import opened Wrappers
  import opened TimeFrames
  import opened Geometry

  /** Cropping is on when either mode is 'cropped'. */
  predicate CropActive(workingMode: Mode, nonWorkingMode: Mode)
  {
    nonWorkingMode == Cropped || workingMode == Cropped
  }

  /** A frame of this classification keeps a width under cropping (column.factory.js:125-126). */
  predicate Survives(working: bool, workingMode: Mode, nonWorkingMode: Mode)
  {
    (!working && nonWorkingMode != Cropped) || (working && workingMode != Cropped)
  }

  /** Summed width of the frames that survive (the source's timeFramesWidth). */
  function ExpandedWidth(fs: seq<TimeFrame>, workingMode: Mode, nonWorkingMode: Mode): real
  {
    if fs == [] then 0.0
    else ExpandedWidth(fs[..|fs| - 1], workingMode, nonWorkingMode)
         + (if Survives(fs[|fs| - 1].working, workingMode, nonWorkingMode) then fs[|fs| - 1].width else 0.0)
  }

  /** Summed width of the frames that collapse (the running total croppedWidth). */
  function CollapsedWidth(fs: seq<TimeFrame>, workingMode: Mode, nonWorkingMode: Mode): real
  {
    if fs == [] then 0.0
    else CollapsedWidth(fs[..|fs| - 1], workingMode, nonWorkingMode)
         + (if Survives(fs[|fs| - 1].working, workingMode, nonWorkingMode) then 0.0 else fs[|fs| - 1].width)
  }

  /** Summed original width of the frames that collapse (the running total originalCroppedWidth). */
  function CollapsedOriginalWidth(fs: seq<TimeFrame>, workingMode: Mode, nonWorkingMode: Mode): real
  {
    if fs == [] then 0.0
    else CollapsedOriginalWidth(fs[..|fs| - 1], workingMode, nonWorkingMode)
         + (if Survives(fs[|fs| - 1].working, workingMode, nonWorkingMode) then 0.0
            else fs[|fs| - 1].originalSize.width)
  }

  /** No frame survives the crop (the source's allCropped). */
  predicate AllCollapsed(fs: seq<TimeFrame>, workingMode: Mode, nonWorkingMode: Mode)
  {
    forall k :: 0 <= k < |fs| ==> !Survives(fs[k].working, workingMode, nonWorkingMode)
  }

  /**
   * The scale factor width / expandedWidth. JavaScript yields Infinity when
   * expandedWidth is 0; the model uses 0 there.
   */
  function CropRatio(width: real, expanded: real): real
  {
    if expanded != 0.0 then width / expanded else 0.0
  }

  /** An absent left reads as 0 (only a collapsed frame has none, and it is never rescaled). */
  function LeftOf(o: Option<real>): real
  {
    o.GetOr(0.0)
  }

  /** x rescaled by the crop ratio. */
  function Scaled(x: real, ratio: real): real
  {
    x * ratio
  }

  lemma ScaledCommutes(x: real, ratio: real)
    ensures Scaled(x, ratio) == ratio * x
  {
  }

  /** Scaling the expanded width by the crop ratio gives back the column width. */
  lemma RatioCancels(width: real, expanded: real)
    requires expanded != 0.0
    ensures CropRatio(width, expanded) * expanded == width
  {
  }

  /** Frame f after the crop pass, given the frames before it and the ratio. */
  function CropFrame(f: TimeFrame, before: seq<TimeFrame>, ratio: real, workingMode: Mode, nonWorkingMode: Mode): TimeFrame
  {
    if Survives(f.working, workingMode, nonWorkingMode) then
      f.(left := Some(Scaled(LeftOf(f.left) - CollapsedWidth(before, workingMode, nonWorkingMode), ratio)),
         width := Scaled(f.width, ratio),
         originalSize := Size(Some(Scaled(LeftOf(f.originalSize.left)
                                          - CollapsedOriginalWidth(before, workingMode, nonWorkingMode), ratio)),
                              Scaled(f.originalSize.width, ratio)),
         cropped := false)
    else
      f.(left := None, width := 0.0, originalSize := Size(None, 0.0), cropped := true)
  }

  /** The second pass of the crop step over all frames. */
  function CropPass(fs: seq<TimeFrame>, ratio: real, workingMode: Mode, nonWorkingMode: Mode): seq<TimeFrame>
  {
    seq(|fs|, k requires 0 <= k < |fs| => CropFrame(fs[k], fs[..k], ratio, workingMode, nonWorkingMode))
  }

  /**
   * What the crop pass does to each frame: a frame of the cropped
   * classification gets width 0, no left, originalSize {undefined, 0} and the
   * cropped flag; any other frame is scaled by the ratio and unflagged; the
   * interval, flags and hidden state of every frame are kept.
   */
  lemma CropPassShape(fs: seq<TimeFrame>, ratio: real, workingMode: Mode, nonWorkingMode: Mode, k: nat)
    requires k < |fs|
    ensures var r := CropPass(fs, ratio, workingMode, nonWorkingMode);
            && |r| == |fs|
            && (!Survives(fs[k].working, workingMode, nonWorkingMode) ==>
                  r[k].width == 0.0 && r[k].left == None && r[k].originalSize == Size(None, 0.0) && r[k].cropped)
            && (Survives(fs[k].working, workingMode, nonWorkingMode) ==>
                  r[k].width == Scaled(fs[k].width, ratio) && r[k].left.Some? && !r[k].cropped
                  && r[k].originalSize.width == Scaled(fs[k].originalSize.width, ratio))
            && r[k].start == fs[k].start && r[k].end == fs[k].end
            && r[k].working == fs[k].working && r[k].magnet == fs[k].magnet && r[k].hidden == fs[k].hidden
  {
  }

  lemma {:induction false} WidthSplits(fs: seq<TimeFrame>, workingMode: Mode, nonWorkingMode: Mode)
    ensures WidthSum(fs) == ExpandedWidth(fs, workingMode, nonWorkingMode) + CollapsedWidth(fs, workingMode, nonWorkingMode)
  {
    if fs != [] {
      WidthSplits(fs[..|fs| - 1], workingMode, nonWorkingMode);
    }
  }

  /** The width one frame contributes after the crop is the ratio times what it contributes to the expanded width. */
  lemma CropFrameWidth(f: TimeFrame, before: seq<TimeFrame>, ratio: real, workingMode: Mode, nonWorkingMode: Mode)
    ensures CropFrame(f, before, ratio, workingMode, nonWorkingMode).width
            == Scaled(Contribution(f, workingMode, nonWorkingMode), ratio)
  {
  }

  /** The width a frame adds to the expanded width: its own if it survives, else 0. */
  function Contribution(f: TimeFrame, workingMode: Mode, nonWorkingMode: Mode): real
  {
    if Survives(f.working, workingMode, nonWorkingMode) then f.width else 0.0
  }

  /** Every width in `c` is the ratio times the contribution of the frame at the same place in `fs`. */
  predicate ScaledContributions(c: seq<TimeFrame>, fs: seq<TimeFrame>, ratio: real, workingMode: Mode, nonWorkingMode: Mode)
  {
    |c| == |fs| && forall i :: 0 <= i < |c| ==> c[i].width == Scaled(Contribution(fs[i], workingMode, nonWorkingMode), ratio)
  }

  lemma ScaledContributionsPrefix(c: seq<TimeFrame>, fs: seq<TimeFrame>, ratio: real,
                                  workingMode: Mode, nonWorkingMode: Mode, k: nat)
    requires ScaledContributions(c, fs, ratio, workingMode, nonWorkingMode) && k <= |c|
    ensures ScaledContributions(c[..k], fs[..k], ratio, workingMode, nonWorkingMode)
  {
    forall i | 0 <= i < k
      ensures c[..k][i].width == Scaled(Contribution(fs[..k][i], workingMode, nonWorkingMode), ratio)
    {
      assert c[..k][i] == c[i] && fs[..k][i] == fs[i];
    }
  }

  /** Scaling distributes over a sum. */
  lemma ScaledAdds(a: real, b: real, ratio: real)
    ensures Scaled(a, ratio) + Scaled(b, ratio) == Scaled(a + b, ratio)
  {
  }

  /** Frames whose widths are the ratio times the contributions of `fs` sum to the ratio times the expanded width. */
  lemma {:induction false} ScaledWidthSum(c: seq<TimeFrame>, fs: seq<TimeFrame>, ratio: real,
                                          workingMode: Mode, nonWorkingMode: Mode)
    requires ScaledContributions(c, fs, ratio, workingMode, nonWorkingMode)
    ensures WidthSum(c) == Scaled(ExpandedWidth(fs, workingMode, nonWorkingMode), ratio)
  {
    if c != [] {
      var n := |c| - 1;
      ScaledContributionsPrefix(c, fs, ratio, workingMode, nonWorkingMode, n);
      ScaledWidthSum(c[..n], fs[..n], ratio, workingMode, nonWorkingMode);
      var before := ExpandedWidth(fs[..n], workingMode, nonWorkingMode);
      var added := Contribution(fs[n], workingMode, nonWorkingMode);
      assert ExpandedWidth(fs, workingMode, nonWorkingMode) == before + added;
      assert c[n].width == Scaled(added, ratio);
      ScaledAdds(before, added, ratio);
    }
  }

  /** After the crop, the widths sum to ratio times the expanded width. */
  lemma CropScalesWidth(fs: seq<TimeFrame>, ratio: real, workingMode: Mode, nonWorkingMode: Mode)
    ensures WidthSum(CropPass(fs, ratio, workingMode, nonWorkingMode))
            == ratio * ExpandedWidth(fs, workingMode, nonWorkingMode)
  {
    CropPassWidths(fs, ratio, workingMode, nonWorkingMode);
    ScaledWidthSum(CropPass(fs, ratio, workingMode, nonWorkingMode), fs, ratio, workingMode, nonWorkingMode);
    ScaledCommutes(ExpandedWidth(fs, workingMode, nonWorkingMode), ratio);
  }

  /** Crop conservation: the rescaled widths fill the column exactly. */
  lemma CropFillsColumn(fs: seq<TimeFrame>, width: real, workingMode: Mode, nonWorkingMode: Mode)
    requires ExpandedWidth(fs, workingMode, nonWorkingMode) != 0.0
    ensures WidthSum(CropPass(fs, CropRatio(width, ExpandedWidth(fs, workingMode, nonWorkingMode)),
                              workingMode, nonWorkingMode)) == width
  {
    var e := ExpandedWidth(fs, workingMode, nonWorkingMode);
    RatioCancels(width, e);
    ScaledToWidth(fs, CropRatio(width, e), width, workingMode, nonWorkingMode);
  }

  /** A ratio that scales the expanded width to `width` makes the cropped widths sum to `width`. */
  lemma ScaledToWidth(fs: seq<TimeFrame>, ratio: real, width: real, workingMode: Mode, nonWorkingMode: Mode)
    requires ratio * ExpandedWidth(fs, workingMode, nonWorkingMode) == width
    ensures WidthSum(CropPass(fs, ratio, workingMode, nonWorkingMode)) == width
  {
    CropScalesWidth(fs, ratio, workingMode, nonWorkingMode);
  }

  /** The widths of the first k cropped frames sum to ratio times the expanded width of the first k frames. */
  lemma CroppedPrefixWidth(fs: seq<TimeFrame>, ratio: real, workingMode: Mode, nonWorkingMode: Mode, k: nat)
    requires k <= |fs|
    ensures WidthSum(CropPass(fs, ratio, workingMode, nonWorkingMode)[..k])
            == Scaled(ExpandedWidth(fs[..k], workingMode, nonWorkingMode), ratio)
  {
    CropPassWidths(fs, ratio, workingMode, nonWorkingMode);
    PrefixScaledWidthSum(CropPass(fs, ratio, workingMode, nonWorkingMode), fs, ratio, workingMode, nonWorkingMode, k);
  }

  /** Every cropped width is the ratio times the frame's contribution. */
  lemma CropPassWidths(fs: seq<TimeFrame>, ratio: real, workingMode: Mode, nonWorkingMode: Mode)
    ensures ScaledContributions(CropPass(fs, ratio, workingMode, nonWorkingMode), fs, ratio, workingMode, nonWorkingMode)
  {
    var c := CropPass(fs, ratio, workingMode, nonWorkingMode);
    forall i | 0 <= i < |c|
      ensures c[i].width == Scaled(Contribution(fs[i], workingMode, nonWorkingMode), ratio)
    {
      CropFrameWidth(fs[i], fs[..i], ratio, workingMode, nonWorkingMode);
    }
  }

  /** ScaledWidthSum on the first k frames of both sequences. */
  lemma PrefixScaledWidthSum(c: seq<TimeFrame>, fs: seq<TimeFrame>, ratio: real,
                             workingMode: Mode, nonWorkingMode: Mode, k: nat)
    requires ScaledContributions(c, fs, ratio, workingMode, nonWorkingMode) && k <= |fs|
    ensures WidthSum(c[..k]) == Scaled(ExpandedWidth(fs[..k], workingMode, nonWorkingMode), ratio)
  {
    ScaledContributionsPrefix(c, fs, ratio, workingMode, nonWorkingMode, k);
    ScaledWidthSum(c[..k], fs[..k], ratio, workingMode, nonWorkingMode);
  }

  /** A surviving frame whose left is the sum of the widths before it moves to ratio times the expanded width before it. */
  lemma SurvivorLeft(fs: seq<TimeFrame>, ratio: real, workingMode: Mode, nonWorkingMode: Mode, k: nat)
    requires k < |fs| && Survives(fs[k].working, workingMode, nonWorkingMode)
    requires fs[k].left == Some(WidthSum(fs[..k]))
    ensures CropPass(fs, ratio, workingMode, nonWorkingMode)[k].left
            == Some(Scaled(ExpandedWidth(fs[..k], workingMode, nonWorkingMode), ratio))
  {
    WidthSplits(fs[..k], workingMode, nonWorkingMode);
    assert CropPass(fs, ratio, workingMode, nonWorkingMode)[k]
        == CropFrame(fs[k], fs[..k], ratio, workingMode, nonWorkingMode);
  }

  /**
   * A surviving frame whose left was the sum of the widths before it has, after
   * the crop, the sum of the new widths before it as its left.
   */
  lemma CropLeftsArePrefixSums(fs: seq<TimeFrame>, ratio: real, workingMode: Mode, nonWorkingMode: Mode, k: nat)
    requires k < |fs| && Survives(fs[k].working, workingMode, nonWorkingMode)
    requires fs[k].left == Some(WidthSum(fs[..k]))
    ensures var c := CropPass(fs, ratio, workingMode, nonWorkingMode);
            c[k].left == Some(WidthSum(c[..k]))
  {
    CroppedPrefixWidth(fs, ratio, workingMode, nonWorkingMode, k);
    SurvivorLeft(fs, ratio, workingMode, nonWorkingMode, k);
  }

  lemma {:induction false} CollapsedOriginalMatches(fs: seq<TimeFrame>, workingMode: Mode, nonWorkingMode: Mode)
    requires forall i :: 0 <= i < |fs| ==> fs[i].originalSize == Size(fs[i].left, fs[i].width)
    ensures CollapsedOriginalWidth(fs, workingMode, nonWorkingMode) == CollapsedWidth(fs, workingMode, nonWorkingMode)
  {
    if fs != [] {
      CollapsedOriginalMatches(fs[..|fs| - 1], workingMode, nonWorkingMode);
    }
  }

  /** If originalSize mirrors {left, width} before the crop, it still does after it. */
  lemma CropKeepsOriginalSize(fs: seq<TimeFrame>, ratio: real, workingMode: Mode, nonWorkingMode: Mode)
    requires forall i :: 0 <= i < |fs| ==> fs[i].originalSize == Size(fs[i].left, fs[i].width)
    ensures var c := CropPass(fs, ratio, workingMode, nonWorkingMode);
            forall i :: 0 <= i < |c| ==> c[i].originalSize == Size(c[i].left, c[i].width)
  {
    var c := CropPass(fs, ratio, workingMode, nonWorkingMode);
    forall i | 0 <= i < |c|
      ensures c[i].originalSize == Size(c[i].left, c[i].width)
    {
      var before := fs[..i];
      forall j | 0 <= j < |before|
        ensures before[j].originalSize == Size(before[j].left, before[j].width)
      {
        assert before[j] == fs[j];
      }
      CollapsedOriginalMatches(before, workingMode, nonWorkingMode);
      assert c[i] == CropFrame(fs[i], before, ratio, workingMode, nonWorkingMode);
      assert fs[i].originalSize == Size(fs[i].left, fs[i].width);
    }
  }
}
