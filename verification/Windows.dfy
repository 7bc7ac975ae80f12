/** Per-bit timing windows, the edges a delay sweep can see of them, and the signed
    halving both deskew routines centre with. A strobe-to-data shift x is (DQS taps - DQ taps);
    a bit passes its test iff x lies in its window. */
module Windows {
  import opened Arithmetic

  /** C's `x / 2`: truncation toward zero. */
  function Half(x: int): int { if x >= 0 then x / 2 else -((-x) / 2) }

  datatype Window = Window(lo: int, hi: int) {
    predicate Passes(x: int) { lo <= x <= hi }

    /** The same window with the origin of the shift axis moved to `origin`. */
    function From(origin: int): Window { Window(lo - origin, hi - origin) }
  }

  /** The pair (left_edge[i], right_edge[i]); `taps + 1` is the illegal value. */
  datatype Edges = Edges(left: int, right: int) {
    function Mid(): int { left - right }
  }

  /** The sweeps visit the shifts -taps .. room; this says one of them lies in the window. */
  predicate Meets(w: Window, taps: int, room: int) {
    Max(w.lo, -taps) <= Min(w.hi, room)
  }

  lemma MeetsIffSomeShiftPasses(w: Window, taps: int, room: int)
    ensures Meets(w, taps, room) <==> exists x :: -taps <= x <= room && w.Passes(x)
  {
    if Meets(w, taps, room) {
      var x := Max(w.lo, -taps);
      assert -taps <= x <= room && w.Passes(x);
    }
  }

  /** The window's edges, each clipped to the swept range. */
  function Measured(w: Window, taps: int, room: int): Edges {
    Edges(Min(-w.lo, taps), Min(w.hi, room))
  }

  /** What a completed pair of sweeps must leave behind for one bit. */
  predicate Found(w: Window, taps: int, room: int, e: Edges) {
    if Meets(w, taps, room) then e == Measured(w, taps, room) && e.left <= taps && e.right <= taps
    else e.left == taps + 1 || e.right == taps + 1
  }

  // ----- sweep states: one bit after the taps 0..d-1 of a sweep have been tried -----

  /** The first DQ tap that can pass. */
  function FirstTap(w: Window): int { Max(0, -w.hi) }

  /** The bit has passed at one of the DQ taps 0..d-1. */
  predicate SeenByDq(w: Window, d: int) { FirstTap(w) <= -w.lo && FirstTap(w) < d }

  function DqEdges(w: Window, taps: int, d: int): Edges {
    if SeenByDq(w, d) then
      Edges(Min(-w.lo, d - 1), if FirstTap(w) == 0 then taps + 1 else -FirstTap(w))
    else
      Edges(taps + 1, if d == 0 then taps + 1 else -d)
  }

  /** State between the sweeps: a right edge guessed for a bit without left edge is withdrawn. */
  function Settled(w: Window, taps: int): Edges {
    if SeenByDq(w, taps + 1) then DqEdges(w, taps, taps + 1) else Edges(taps + 1, taps + 1)
  }

  /** The bit has passed at one of the DQS taps 0..d-1. */
  predicate SeenByDqs(w: Window, d: int) { Max(0, w.lo) <= w.hi && Max(0, w.lo) < d }

  function DqsEdges(w: Window, taps: int, d: int): Edges {
    if SeenByDq(w, taps + 1) then
      Edges(Min(-w.lo, taps), if w.hi < 0 then w.hi else if d == 0 then taps + 1 else Min(w.hi, d - 1))
    else if SeenByDqs(w, d) then
      Edges(-w.lo, Min(w.hi, d - 1))
    else
      Edges(if d == 0 then taps + 1 else -d, taps + 1)
  }

  lemma SettledStartsDqsSweep(w: Window, taps: int)
    requires 0 <= taps
    ensures Settled(w, taps) == DqsEdges(w, taps, 0)
  {
  }

  /** The two sweeps together find every window they can reach, exactly, and no other. */
  lemma SweepsFindWindow(w: Window, taps: int, room: int)
    requires 0 <= room <= taps
    ensures Found(w, taps, room, DqsEdges(w, taps, room + 1))
  {
  }

  /** Once a bit that has passed fails, more DQ taps change nothing: the early stop is exact. */
  lemma DqStopIsFinal(w: Window, taps: int, d: int)
    requires 0 <= d <= taps && SeenByDq(w, d + 1) && !w.Passes(-d)
    ensures DqEdges(w, taps, d) == DqEdges(w, taps, taps + 1)
  {
  }

  /** A bit is finished with the DQS sweep when both its edges are known or it has passed. */
  lemma DqsStopIsFinal(w: Window, taps: int, room: int, d: int)
    requires 0 <= d <= room <= taps && !w.Passes(d)
    requires SeenByDq(w, taps + 1) || SeenByDqs(w, d + 1)
    ensures DqsEdges(w, taps, d) == DqsEdges(w, taps, room + 1)
  {
  }
}
