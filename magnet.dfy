/**
 * The time frame magnet of getMagnetDate
 * (src/core/logic/column/column.factory.js:238-266): the frame edges a date
 * may snap to, and the first edge strictly closer to the initial date than
 * the already snapped date and than every earlier edge.
 */
module Magnet {
  import opened Wrappers
  import opened TimeFrames

  /** `Math.abs` of the difference of two dates, in milliseconds. */
  function Dist(a: int, b: int): nat
  {
    if a < b then b - a else a - b
  }

  /** A magnet frame offers its start when it begins a run of its classification. */
  predicate StartEligible(fs: seq<TimeFrame>, i: nat)
    requires i < |fs|
  {
    fs[i].magnet && (i == 0 || fs[i - 1].working != fs[i].working)
  }

  /** A magnet frame offers its end when it closes a run of its classification. */
  predicate EndEligible(fs: seq<TimeFrame>, i: nat)
    requires i < |fs|
  {
    fs[i].magnet && (i + 1 == |fs| || fs[i + 1].working != fs[i].working)
  }

  /** The edges frame i offers, start before end. */
  function FrameCandidates(fs: seq<TimeFrame>, i: nat): (r: seq<int>)
    requires i < |fs|
    ensures fs[i].start in r <== StartEligible(fs, i)
    ensures fs[i].end in r <== EndEligible(fs, i)
    ensures forall t :: t in r ==> (t == fs[i].start && StartEligible(fs, i)) || (t == fs[i].end && EndEligible(fs, i))
  {
    (if StartEligible(fs, i) then [fs[i].start] else []) + (if EndEligible(fs, i) then [fs[i].end] else [])
  }

  /** All edges offered by frames 0 .. n-1, in scan order. */
  function Candidates(fs: seq<TimeFrame>, n: nat): seq<int>
    requires n <= |fs|
  {
    if n == 0 then [] else Candidates(fs, n - 1) + FrameCandidates(fs, n - 1)
  }

  /** The scan's state: the best distance so far (undefined at first) and the current date. */
  datatype Best = Best(diff: Option<nat>, date: int)

  /** One comparison of the scan: take the edge when it is strictly closer than the bound and than the best so far. */
  function Consider(b: Best, edge: int, initial: int, maxDiff: nat): Best
  {
    var d := Dist(initial, edge);
    if d < maxDiff && (b.diff.None? || d < b.diff.value) then Best(Some(d), edge) else b
  }

  /** The scan over the edges, in order. */
  function Pick(edges: seq<int>, initial: int, maxDiff: nat, start: Best): Best
  {
    if edges == [] then start
    else Consider(Pick(edges[..|edges| - 1], initial, maxDiff, start), edges[|edges| - 1], initial, maxDiff)
  }

  /** Edge j is strictly closer than every earlier edge and no farther than any later one. */
  predicate FirstClosest(edges: seq<int>, initial: int, j: nat)
    requires j < |edges|
  {
    forall k :: 0 <= k < |edges| ==>
      Dist(initial, edges[k]) >= Dist(initial, edges[j]) && (k < j ==> Dist(initial, edges[k]) > Dist(initial, edges[j]))
  }

  /**
   * What the scan chooses, starting from the snapped date with no best
   * distance: when some edge is strictly closer to the initial date than the
   * snapped date, the first closest such edge and its distance; otherwise the
   * snapped date, untouched.
   */
  lemma {:induction false} PickChoice(edges: seq<int>, initial: int, maxDiff: nat, snapped: int)
    ensures var b := Pick(edges, initial, maxDiff, Best(None, snapped));
            && (b.diff.None? <==> forall k :: 0 <= k < |edges| ==> Dist(initial, edges[k]) >= maxDiff)
            && (b.diff.None? ==> b.date == snapped)
            && (b.diff.Some? ==>
                  exists j :: 0 <= j < |edges| && edges[j] == b.date && b.diff.value == Dist(initial, edges[j]) < maxDiff
                                             && FirstClosest(edges, initial, j))
  {
    if edges != [] {
      var n := |edges| - 1;
      var front := edges[..n];
      PickChoice(front, initial, maxDiff, snapped);
      var b0 := Pick(front, initial, maxDiff, Best(None, snapped));
      var b := Pick(edges, initial, maxDiff, Best(None, snapped));
      assert b == Consider(b0, edges[n], initial, maxDiff);
      assert forall k :: 0 <= k < n ==> front[k] == edges[k];
      var d := Dist(initial, edges[n]);
      if b0.diff.None? {
        if d < maxDiff {
          assert b.date == edges[n] && b.diff == Some(d);
          assert FirstClosest(edges, initial, n);
        }
      } else {
        var j :| 0 <= j < n && front[j] == b0.date && b0.diff.value == Dist(initial, front[j]) < maxDiff
                 && FirstClosest(front, initial, j);
        if d < maxDiff && d < b0.diff.value {
          assert b.date == edges[n];
          assert FirstClosest(edges, initial, n);
        } else {
          assert b == b0;
          assert FirstClosest(edges, initial, j);
        }
      }
    }
  }

  /** Every edge offered comes from a magnet frame in scan range, as its start or its end. */
  lemma {:induction false} CandidatesAreFrameEdges(fs: seq<TimeFrame>, n: nat, t: int)
    requires n <= |fs|
    requires t in Candidates(fs, n)
    ensures exists i :: 0 <= i < n && fs[i].magnet && (t == fs[i].start || t == fs[i].end)
  {
    if n > 0 {
      if t in Candidates(fs, n - 1) {
        CandidatesAreFrameEdges(fs, n - 1, t);
      } else {
        assert t in FrameCandidates(fs, n - 1);
      }
    }
  }

  /** Pick over a longer list is one more comparison on top of Pick over its prefix. */
  lemma {:induction false} PickSnoc(edges: seq<int>, more: seq<int>, initial: int, maxDiff: nat, start: Best)
    ensures Pick(edges + more, initial, maxDiff, start) == Pick(more, initial, maxDiff, Pick(edges, initial, maxDiff, start))
    decreases |more|
  {
    if more != [] {
      var n := |more| - 1;
      assert (edges + more)[..|edges + more| - 1] == edges + more[..n];
      PickSnoc(edges, more[..n], initial, maxDiff, start);
    } else {
      assert edges + more == edges;
    }
  }

  /**
   * One frame of the scan: the frame's start is compared first, when offered,
   * and then its end, when offered.
   */
  lemma PickStep(fs: seq<TimeFrame>, i: nat, initial: int, maxDiff: nat, start: Best)
    requires i < |fs|
    ensures var b0 := Pick(Candidates(fs, i), initial, maxDiff, start);
            var b1 := if StartEligible(fs, i) then Consider(b0, fs[i].start, initial, maxDiff) else b0;
            Pick(Candidates(fs, i + 1), initial, maxDiff, start)
            == if EndEligible(fs, i) then Consider(b1, fs[i].end, initial, maxDiff) else b1
  {
    var more := FrameCandidates(fs, i);
    PickSnoc(Candidates(fs, i), more, initial, maxDiff, start);
    var b0 := Pick(Candidates(fs, i), initial, maxDiff, start);
    if StartEligible(fs, i) && EndEligible(fs, i) {
      assert more == [fs[i].start, fs[i].end];
      assert more[..1] == [fs[i].start];
      assert [fs[i].start][..0] == [];
      var b1 := Consider(b0, fs[i].start, initial, maxDiff);
      assert Pick([fs[i].start], initial, maxDiff, b0) == b1;
      assert Pick(more, initial, maxDiff, b0) == Consider(b1, fs[i].end, initial, maxDiff);
    } else if StartEligible(fs, i) {
      assert more == [fs[i].start];
      assert more[..0] == [];
    } else if EndEligible(fs, i) {
      assert more == [fs[i].end];
      assert more[..0] == [];
    } else {
      assert more == [];
    }
  }
}
