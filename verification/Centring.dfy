/** What both deskew routines do once every bit's edges are known: split the way to the centre
    between the strobe and the DQ delays. */
module Centring {
  import opened Arithmetic
  import opened Windows
  import opened EdgeSweep

  function Clamp(x: int, low: int, high: int): int {
    if x > high then high else if x < low then low else x
  }

  ghost predicate IsLeastMid(e: seq<Edges>, mid: int) {
    && (exists k :: 0 <= k < |e| && e[k].Mid() == mid)
    && forall k :: 0 <= k < |e| ==> mid <= e[k].Mid()
  }

  lemma LeastMidExists(e: seq<Edges>)
    requires e != []
    ensures exists mid :: IsLeastMid(e, mid)
  {
    var mid := e[0].Mid();
    for i := 1 to |e|
      invariant exists k :: 0 <= k < |e| && e[k].Mid() == mid
      invariant forall k :: 0 <= k < i ==> mid <= e[k].Mid()
    {
      mid := Min(mid, e[i].Mid());
    }
    assert IsLeastMid(e, mid);
  }

  /** The smallest left_edge - right_edge: the bit whose window lies furthest right. */
  ghost function LeastMid(e: seq<Edges>): (mid: int)
    requires e != []
    ensures IsLeastMid(e, mid)
  {
    LeastMidExists(e);
    var mid :| IsLeastMid(e, mid);
    mid
  }

  /** How far the strobe should move back: half of the least mid, rounded up. */
  function Move(mid: int): (m: int)
    ensures mid <= 2 * m <= mid + 1
  {
    Half(if mid > 0 then mid + 1 else mid)
  }

  /** A group with edges `e` on DQ chains of `taps` taps, when the strobe makes the part `used`
      of the move. */
  datatype Plan = Plan(e: seq<Edges>, used: int, taps: nat) {
    /** DQ delay that levels bit i, before it is clamped to the chain. */
    ghost function Unclamped(i: nat): int
      requires i < |e|
    {
      Half(e[i].Mid() - LeastMid(e)) + (Move(LeastMid(e)) - used)
    }

    /** Shift at which bit i ends up. */
    ghost function FinalShift(i: nat): int
      requires i < |e|
    {
      -used - Clamp(Unclamped(i), 0, taps)
    }

    /** Taps left before bit i, at its final shift, falls off its left (right) edge. */
    ghost function LeftSlack(i: nat): int
      requires i < |e|
    {
      e[i].left + FinalShift(i)
    }

    ghost function RightSlack(i: nat): int
      requires i < |e|
    {
      e[i].right - FinalShift(i)
    }

    /** dq_margin: the least left slack of the first n bits, capped at the illegal value. */
    ghost predicate IsDqMargin(margin: int, n: nat)
      requires n <= |e|
    {
      && margin <= taps + 1
      && (forall i :: 0 <= i < n ==> margin <= LeftSlack(i))
      && (margin == taps + 1 || exists i :: 0 <= i < n && LeftSlack(i) == margin)
    }

    /** dqs_margin: the same for the right slacks. */
    ghost predicate IsDqsMargin(margin: int, n: nat)
      requires n <= |e|
    {
      && margin <= taps + 1
      && (forall i :: 0 <= i < n ==> margin <= RightSlack(i))
      && (margin == taps + 1 || exists i :: 0 <= i < n && RightSlack(i) == margin)
    }

    /** With no DQ clamp, every bit sits within one tap of the middle of its window, however the
        move was split between strobe and data; so a bit with a window is inside it. */
    lemma UnclampedIsBalanced(i: nat)
      requires i < |e| && -e[i].left <= e[i].right && 0 <= Unclamped(i) <= taps
      ensures -1 <= LeftSlack(i) - RightSlack(i) <= 1
      ensures LeftSlack(i) >= 0 && RightSlack(i) >= 0
    {
    }

    /** Clamping at the last tap only costs right slack, clamping at 0 only left slack. */
    lemma ClampedSlack(i: nat)
      requires i < |e| && -e[i].left <= e[i].right
      ensures Unclamped(i) > taps ==> LeftSlack(i) >= 0 && RightSlack(i) == e[i].right + used + taps
      ensures Unclamped(i) < 0 ==> RightSlack(i) >= 0 && LeftSlack(i) == e[i].left - used
    {
    }
  }

  method FindLeastMid(ghost e: seq<Edges>, left: array<int>, right: array<int>) returns (midMin: int, minIndex: nat)
    requires e != [] && Hold(e, left, right)
    ensures midMin == LeastMid(e)
    ensures minIndex < |e| && e[minIndex].Mid() == midMin
  {
    midMin, minIndex := left[0] - right[0], 0;
    assert e[0].Mid() == midMin;
    for i := 1 to left.Length
      invariant minIndex < i && e[minIndex].Mid() == midMin
      invariant forall j :: 0 <= j < i ==> midMin <= e[j].Mid()
    {
      var mid := left[i] - right[i];
      assert e[i].Mid() == mid;
      if mid < midMin {
        midMin, minIndex := mid, i;
      }
    }
  }

  /** Level one bit; the result is its shift_dq after clamping. */
  method LevelBit(ghost plan: Plan, dq: array<int>, i: nat, left: int, right: int, least: int, origMidMin: int,
                  midMin: int, taps: nat)
    returns (shiftDq: int)
    requires i < |plan.e| == dq.Length && dq[i] == 0
    requires plan.e[i] == Edges(left, right) && plan.used == midMin && plan.taps == taps
    requires least == LeastMid(plan.e) && origMidMin == Move(least)
    modifies dq
    ensures dq[i] == shiftDq && 0 <= shiftDq <= taps
    ensures -midMin - shiftDq == plan.FinalShift(i)
    ensures forall j :: 0 <= j < dq.Length && j != i ==> dq[j] == old(dq[j])
  {
    shiftDq := Half(left - right - least) + (origMidMin - midMin);
    if shiftDq + dq[i] > taps {
      shiftDq := taps - dq[i];
    } else if shiftDq + dq[i] < 0 {
      shiftDq := -dq[i];
    }
    dq[i] := dq[i] + shiftDq;
  }

  /** Level all bits: final DQ delays, and the two margins. */
  method LevelDq(ghost plan: Plan, dq: array<int>, left: array<int>, right: array<int>, minIndex: nat,
                 origMidMin: int, midMin: int, taps: nat)
    returns (dqMargin: int, dqsMargin: int)
    requires Hold(plan.e, left, right) && |plan.e| == dq.Length && left != dq && right != dq
    requires plan.used == midMin && plan.taps == taps
    requires minIndex < |plan.e| && plan.e[minIndex].Mid() == LeastMid(plan.e) && origMidMin == Move(LeastMid(plan.e))
    requires forall i :: 0 <= i < dq.Length ==> dq[i] == 0
    modifies dq
    ensures forall i :: 0 <= i < dq.Length ==> 0 <= dq[i] <= taps && -midMin - dq[i] == plan.FinalShift(i)
    ensures plan.IsDqMargin(dqMargin, |plan.e|) && plan.IsDqsMargin(dqsMargin, |plan.e|)
  {
    dqMargin, dqsMargin := taps + 1, taps + 1;
    for i := 0 to left.Length
      invariant forall j :: 0 <= j < i ==> 0 <= dq[j] <= taps && -midMin - dq[j] == plan.FinalShift(j)
      invariant forall j :: i <= j < dq.Length ==> dq[j] == 0
      invariant plan.IsDqMargin(dqMargin, i) && plan.IsDqsMargin(dqsMargin, i)
    {
      assert Edges(left[minIndex], right[minIndex]) == plan.e[minIndex];
      var least := left[minIndex] - right[minIndex];
      var shiftDq := LevelBit(plan, dq, i, left[i], right[i], least, origMidMin, midMin, taps);
      assert left[i] - shiftDq + (-midMin) == plan.LeftSlack(i) && right[i] + shiftDq - (-midMin) == plan.RightSlack(i);
      if left[i] - shiftDq + (-midMin) < dqMargin {
        dqMargin := left[i] - shiftDq + (-midMin);
      }
      if right[i] + shiftDq - (-midMin) < dqsMargin {
        dqsMargin := right[i] + shiftDq - (-midMin);
      }
    }
  }
}
