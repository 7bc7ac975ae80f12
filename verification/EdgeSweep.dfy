/** The steps that the read and the write sweep share: left[i], right[i] against the window
    ws[i] of bit i, on a shift axis whose origin is where the strobe stood. */
module EdgeSweep {
  import opened Windows

  function Relative(window: seq<Window>, start: int): (ws: seq<Window>)
    ensures |ws| == |window|
    ensures forall i :: 0 <= i < |ws| ==> ws[i] == window[i].From(start)
  {
    seq(|window|, i requires 0 <= i < |window| => window[i].From(start))
  }

  predicate AllMeet(ws: seq<Window>, taps: int, room: int) {
    forall i :: 0 <= i < |ws| ==> Meets(ws[i], taps, room)
  }

  function EdgesOf(ws: seq<Window>, taps: int, room: int): (e: seq<Edges>)
    ensures |e| == |ws|
    ensures forall i :: 0 <= i < |e| ==> e[i] == Measured(ws[i], taps, room)
  {
    seq(|ws|, i requires 0 <= i < |ws| => Measured(ws[i], taps, room))
  }

  /** Every bit's edges are what the first sweep knows after DQ taps 0..d-1. */
  ghost predicate AfterDqTaps(ws: seq<Window>, taps: int, left: array<int>, right: array<int>, d: int)
    reads left, right
  {
    && left != right && left.Length == right.Length == |ws|
    && forall i :: 0 <= i < |ws| ==> Edges(left[i], right[i]) == DqEdges(ws[i], taps, d)
  }

  /** ... and what the second sweep knows after DQS taps 0..d-1. */
  ghost predicate AfterDqsTaps(ws: seq<Window>, taps: int, left: array<int>, right: array<int>, d: int)
    reads left, right
  {
    && left != right && left.Length == right.Length == |ws|
    && forall i :: 0 <= i < |ws| ==> Edges(left[i], right[i]) == DqsEdges(ws[i], taps, d)
  }

  ghost predicate Hold(e: seq<Edges>, left: array<int>, right: array<int>)
    reads left, right
  {
    && left.Length == right.Length == |e|
    && forall i :: 0 <= i < |e| ==> Edges(left[i], right[i]) == e[i]
  }

  /** The test's verdicts at a shift. */
  predicate Tested(ws: seq<Window>, bitChk: seq<bool>, shift: int) {
    |bitChk| == |ws| && forall i :: 0 <= i < |ws| ==> bitChk[i] == ws[i].Passes(shift)
  }

  predicate AnySet(bits: seq<bool>) { exists i :: 0 <= i < |bits| && bits[i] }

  predicate AllSet(bits: seq<bool>) { forall i :: 0 <= i < |bits| ==> bits[i] }

  /** sticky | bit_chk. */
  function OrBits(sticky: seq<bool>, bitChk: seq<bool>): (r: seq<bool>)
    requires |sticky| == |bitChk|
    ensures |r| == |sticky| && forall i :: 0 <= i < |r| ==> r[i] == (sticky[i] || bitChk[i])
  {
    seq(|sticky|, i requires 0 <= i < |sticky| => sticky[i] || bitChk[i])
  }

  /** In the first sweep the sticky bits are those that have passed at DQ taps 0..d-1. */
  ghost predicate StickyInDq(ws: seq<Window>, sticky: seq<bool>, d: int) {
    |sticky| == |ws| && forall i :: 0 <= i < |ws| ==> sticky[i] == SeenByDq(ws[i], d)
  }

  lemma StickyInDqGrows(ws: seq<Window>, sticky: seq<bool>, bitChk: seq<bool>, d: nat)
    requires StickyInDq(ws, sticky, d) && Tested(ws, bitChk, 0 - d)
    ensures StickyInDq(ws, OrBits(sticky, bitChk), d + 1)
  {
  }

  /** In the second sweep a sticky bit has passed in the first sweep or at DQS taps 0..d-1. */
  ghost predicate StickyInDqs(ws: seq<Window>, taps: int, sticky: seq<bool>, d: int) {
    |sticky| == |ws| && forall i :: 0 <= i < |ws| && sticky[i] ==> SeenByDq(ws[i], taps + 1) || SeenByDqs(ws[i], d)
  }

  lemma StickyInDqsGrows(ws: seq<Window>, taps: int, sticky: seq<bool>, bitChk: seq<bool>, d: nat)
    requires StickyInDqs(ws, taps, sticky, d) && Tested(ws, bitChk, d)
    ensures StickyInDqs(ws, taps, OrBits(sticky, bitChk), d + 1)
  {
  }

  method ClearEdges(ghost ws: seq<Window>, taps: nat, left: array<int>, right: array<int>)
    requires left != right && left.Length == right.Length == |ws|
    modifies left, right
    ensures AfterDqTaps(ws, taps, left, right, 0)
  {
    for i := 0 to left.Length
      invariant forall j :: 0 <= j < i ==> left[j] == right[j] == taps + 1
    {
      left[i], right[i] := taps + 1, taps + 1;
    }
  }

  method RecordDqTap(ghost ws: seq<Window>, taps: nat, left: array<int>, right: array<int>, bitChk: seq<bool>, d: nat)
    requires AfterDqTaps(ws, taps, left, right, d) && d <= taps && Tested(ws, bitChk, 0 - d)
    modifies left, right
    ensures AfterDqTaps(ws, taps, left, right, d + 1)
  {
    for i := 0 to left.Length
      invariant forall j :: 0 <= j < i ==> Edges(left[j], right[j]) == DqEdges(ws[j], taps, d + 1)
      invariant forall j :: i <= j < |ws| ==> Edges(left[j], right[j]) == DqEdges(ws[j], taps, d)
    {
      if bitChk[i] {
        left[i] := d;
      } else if left[i] == taps + 1 {
        right[i] := -(d + 1);
      }
    }
  }

  method RecordDqsTap(ghost ws: seq<Window>, taps: nat, left: array<int>, right: array<int>, bitChk: seq<bool>, d: nat)
    requires AfterDqsTaps(ws, taps, left, right, d) && d <= taps && Tested(ws, bitChk, d)
    modifies left, right
    ensures AfterDqsTaps(ws, taps, left, right, d + 1)
  {
    for i := 0 to left.Length
      invariant forall j :: 0 <= j < i ==> Edges(left[j], right[j]) == DqsEdges(ws[j], taps, d + 1)
      invariant forall j :: i <= j < |ws| ==> Edges(left[j], right[j]) == DqsEdges(ws[j], taps, d)
    {
      if bitChk[i] {
        right[i] := d;
      } else if d != 0 {
        if right[i] == taps + 1 {
          left[i] := -(d + 1);
        }
      } else if right[i] == taps + 1 && left[i] != taps + 1 {
        right[i] := -1;
      } else if right[i] == taps + 1 {
        left[i] := -(d + 1);
      }
    }
  }

  /** Stopping the first sweep early, when no bit passes any more and all have passed before. */
  lemma DqStop(ws: seq<Window>, taps: nat, left: array<int>, right: array<int>, sticky: seq<bool>, bitChk: seq<bool>,
               d: nat)
    requires AfterDqTaps(ws, taps, left, right, d) && d <= taps
    requires StickyInDq(ws, sticky, d + 1) && AllSet(sticky) && Tested(ws, bitChk, 0 - d) && !AnySet(bitChk)
    ensures AfterDqTaps(ws, taps, left, right, taps + 1)
  {
    forall i | 0 <= i < |ws|
      ensures SeenByDq(ws[i], d + 1) && !ws[i].Passes(0 - d)
    {
      assert sticky[i] && !bitChk[i];
    }
  }

  /** Stopping the second sweep early; every window has been seen then. */
  lemma DqsStop(ws: seq<Window>, taps: nat, room: nat, left: array<int>, right: array<int>, sticky: seq<bool>,
                bitChk: seq<bool>, d: nat)
    requires AfterDqsTaps(ws, taps, left, right, d) && d <= room <= taps
    requires StickyInDqs(ws, taps, sticky, d + 1) && AllSet(sticky) && Tested(ws, bitChk, d) && !AnySet(bitChk)
    ensures AfterDqsTaps(ws, taps, left, right, room + 1) && AllMeet(ws, taps, room)
  {
    forall i | 0 <= i < |ws|
      ensures !ws[i].Passes(d) && (SeenByDq(ws[i], taps + 1) || SeenByDqs(ws[i], d + 1))
    {
      assert sticky[i] && !bitChk[i];
    }
  }

  /** The first bit whose window is out of reach. */
  predicate IsFirstMissing(ws: seq<Window>, taps: int, room: int, bit: int) {
    0 <= bit < |ws| && !Meets(ws[bit], taps, room) && AllMeet(ws[..bit], taps, room)
  }

  /** Index of the first bit left with an illegal edge, or -1. That is the first bit whose window
      the sweeps cannot reach; with none, all edges are the clipped windows. */
  method FirstMissing(ghost ws: seq<Window>, taps: nat, ghost room: nat, left: array<int>, right: array<int>)
    returns (failing: int)
    requires room <= taps && AfterDqsTaps(ws, taps, left, right, room + 1)
    ensures failing == -1 ==> AllMeet(ws, taps, room) && Hold(EdgesOf(ws, taps, room), left, right)
    ensures failing != -1 ==> IsFirstMissing(ws, taps, room, failing)
  {
    for i := 0 to left.Length
      invariant forall j :: 0 <= j < i ==>
        Meets(ws[j], taps, room) && Edges(left[j], right[j]) == Measured(ws[j], taps, room)
    {
      SweepsFindWindow(ws[i], taps, room);
      if left[i] == taps + 1 || right[i] == taps + 1 {
        return i;
      }
    }
    return -1;
  }
}
