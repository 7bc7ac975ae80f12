/** Per-bit read deskew (rw_mgr_mem_calibrate_vfifo_center) on the delay chains of one read group. */
module ReadDeskew {
  import opened Windows
  import opened EdgeSweep
  import opened Centring

  class ReadPath {
    const dqMax: nat             // IO_IO_IN_DELAY_MAX
    const dqsMax: nat            // IO_DQS_IN_DELAY_MAX
    const window: seq<Window>    // what the hardware read test answers, bit by bit
    const dqIn: array<int>       // DQ input delay of every pin
    var dqsIn: int               // DQS bus input delay
    var fomIn: int               // gbl->fom_in

    ghost predicate Valid()
      reads this
    {
      && 0 < |window| == dqIn.Length
      && dqsMax <= dqMax
      && 0 <= dqsIn <= dqsMax
    }

    constructor (dqMax: nat, dqsMax: nat, window: seq<Window>, dqsIn: nat)
      requires dqsIn <= dqsMax <= dqMax && window != []
      ensures Valid() && fresh(dqIn) && this.dqsIn == dqsIn && fomIn == 0
      ensures this.dqMax == dqMax && this.dqsMax == dqsMax && this.window == window
    {
      this.dqMax, this.dqsMax, this.window, this.dqsIn := dqMax, dqsMax, window, dqsIn;
      dqIn := new int[|window|];
      fomIn := 0;
    }

    method ApplyGroupDqIn(delay: int)
      modifies dqIn
      ensures forall i :: 0 <= i < dqIn.Length ==> dqIn[i] == delay
    {
      for i := 0 to dqIn.Length
        invariant forall j :: 0 <= j < i ==> dqIn[j] == delay
      {
        dqIn[i] := delay;
      }
    }

    /** The hardware test: one verdict per bit, and whether any bit passed. */
    method ReadTest() returns (anyPass: bool, bitChk: seq<bool>)
      requires Valid()
      ensures |bitChk| == |window|
      ensures forall i :: 0 <= i < |window| ==> bitChk[i] == window[i].Passes(dqsIn - dqIn[i])
      ensures anyPass <==> exists i :: 0 <= i < |window| && bitChk[i]
    {
      bitChk := seq(|window|, i requires 0 <= i < |window| reads this, dqIn =>
        i < dqIn.Length && window[i].Passes(dqsIn - dqIn[i]));
      anyPass := exists i :: 0 <= i < |bitChk| && bitChk[i];
    }

    /** The test with all DQ delays at d. */
    method TestDq(ghost ws: seq<Window>, d: nat) returns (anyPass: bool, bitChk: seq<bool>)
      requires Valid() && ws == Relative(window, dqsIn)
      modifies dqIn
      ensures Tested(ws, bitChk, 0 - d) && anyPass == AnySet(bitChk)
    {
      ApplyGroupDqIn(d);
      anyPass, bitChk := ReadTest();
    }

    /** The test with the strobe d taps above `start`. */
    method TestDqs(ghost ws: seq<Window>, start: int, d: nat) returns (anyPass: bool, bitChk: seq<bool>)
      requires Valid() && 0 <= start && start + d <= dqsMax && ws == Relative(window, start)
      requires forall i :: 0 <= i < |window| ==> dqIn[i] == 0
      modifies this`dqsIn
      ensures Valid() && dqsIn == start + d
      ensures Tested(ws, bitChk, d) && anyPass == AnySet(bitChk)
    {
      dqsIn := d + start;
      anyPass, bitChk := ReadTest();
    }

    /** First sweep: all DQ delays together, strobe at its start. */
    method SweepDq(ghost ws: seq<Window>, left: array<int>, right: array<int>)
      requires Valid() && ws == Relative(window, dqsIn)
      requires left != right && left != dqIn && right != dqIn && left.Length == right.Length == |window|
      modifies dqIn, left, right
      ensures AfterDqTaps(ws, dqMax, left, right, dqMax + 1)
      ensures forall i :: 0 <= i < |window| ==> dqIn[i] == 0
    {
      ClearEdges(ws, dqMax, left, right);
      var sticky, d := seq(|window|, i => false), 0;
      while d <= dqMax
        invariant 0 <= d <= dqMax + 1 && StickyInDq(ws, sticky, d)
        invariant AfterDqTaps(ws, dqMax, left, right, d)
      {
        var anyPass, bitChk := TestDq(ws, d);
        StickyInDqGrows(ws, sticky, bitChk, d);
        sticky := OrBits(sticky, bitChk);
        if !anyPass && AllSet(sticky) {
          DqStop(ws, dqMax, left, right, sticky, bitChk, d);
          break;
        }
        RecordDqTap(ws, dqMax, left, right, bitChk, d);
        d := d + 1;
      }
      ApplyGroupDqIn(0);
    }

    /** Between the sweeps: withdraw right edges of bits without a left edge, and mark in
        `sticky` the bits whose edges are both known. */
    method Settle(ghost ws: seq<Window>, left: array<int>, right: array<int>) returns (sticky: seq<bool>)
      requires AfterDqTaps(ws, dqMax, left, right, dqMax + 1)
      modifies right
      ensures AfterDqsTaps(ws, dqMax, left, right, 0)
      ensures |sticky| == |ws|
      ensures forall i :: 0 <= i < |ws| ==> sticky[i] == (left[i] != dqMax + 1 && right[i] != dqMax + 1)
    {
      var n := left.Length;
      sticky := [];
      for i := n downto 0
        invariant |sticky| == n - i
        invariant forall j :: 0 <= j < i ==> Edges(left[j], right[j]) == DqEdges(ws[j], dqMax, dqMax + 1)
        invariant forall j :: i <= j < n ==> Edges(left[j], right[j]) == DqsEdges(ws[j], dqMax, 0)
        invariant forall j :: i <= j < n ==> sticky[j - i] == (left[j] != dqMax + 1 && right[j] != dqMax + 1)
      {
        if left[i] == dqMax + 1 && right[i] != dqMax + 1 {
          right[i] := dqMax + 1;
        }
        sticky := [left[i] != dqMax + 1 && right[i] != dqMax + 1] + sticky;
      }
    }

    /** Second sweep: the strobe moves up from `start`, the DQ delays stay at 0. */
    method SweepDqs(ghost ws: seq<Window>, left: array<int>, right: array<int>, sticky0: seq<bool>, start: int)
      requires Valid() && start == dqsIn && ws == Relative(window, start)
      requires left != dqIn && right != dqIn && AfterDqsTaps(ws, dqMax, left, right, 0)
      requires forall i :: 0 <= i < |window| ==> dqIn[i] == 0
      requires |sticky0| == |window|
      requires forall i :: 0 <= i < |window| ==> sticky0[i] == (left[i] != dqMax + 1 && right[i] != dqMax + 1)
      modifies this`dqsIn, left, right
      ensures Valid()
      ensures AfterDqsTaps(ws, dqMax, left, right, dqsMax - start + 1)
    {
      var sticky, d := sticky0, 0;
      while d <= dqsMax - start
        invariant 0 <= d <= dqsMax - start + 1 && Valid()
        invariant StickyInDqs(ws, dqMax, sticky, d) && AfterDqsTaps(ws, dqMax, left, right, d)
      {
        var anyPass, bitChk := TestDqs(ws, start, d);
        StickyInDqsGrows(ws, dqMax, sticky, bitChk, d);
        sticky := OrBits(sticky, bitChk);
        if !anyPass && AllSet(sticky) {
          DqsStop(ws, dqMax, dqsMax - start, left, right, sticky, bitChk, d);
          break;
        }
        RecordDqsTap(ws, dqMax, left, right, bitChk, d);
        d := d + 1;
      }
    }

    /** The two sweeps, and the check that every bit has a window. */
    method MeasureWindows(ghost ws: seq<Window>, left: array<int>, right: array<int>) returns (failing: int)
      requires Valid() && ws == Relative(window, dqsIn)
      requires left != right && left != dqIn && right != dqIn && left.Length == right.Length == |window|
      modifies this`dqsIn, dqIn, left, right
      ensures Valid() && forall i :: 0 <= i < |window| ==> dqIn[i] == 0
      ensures failing == -1 ==> AllMeet(ws, dqMax, dqsMax - old(dqsIn))
      ensures failing == -1 ==> Hold(EdgesOf(ws, dqMax, dqsMax - old(dqsIn)), left, right)
      ensures failing != -1 ==> dqsIn == old(dqsIn)
      ensures failing != -1 ==> IsFirstMissing(ws, dqMax, dqsMax - old(dqsIn), failing)
    {
      var start := dqsIn;
      SweepDq(ws, left, right);
      var sticky := Settle(ws, left, right);
      SweepDqs(ws, left, right, sticky, start);
      failing := FirstMissing(ws, dqMax, dqsMax - start, left, right);
      if failing != -1 {
        dqsIn := start;
      }
    }

    /** Every bit sits at its final shift, and the margins are the least slacks. */
    ghost predicate Centred(plan: Plan, start: int, dqMargin: int, dqsMargin: int)
      reads this, dqIn
    {
      && |plan.e| == dqIn.Length
      && dqsIn == start - plan.used
      && (forall i :: 0 <= i < dqIn.Length ==> dqsIn - dqIn[i] == start + plan.FinalShift(i))
      && plan.IsDqMargin(dqMargin, |plan.e|)
      && plan.IsDqsMargin(dqsMargin, |plan.e|)
    }

    /** The centring half of the routine. */
    method CenterBits(ghost plan: Plan, left: array<int>, right: array<int>, start: int)
      returns (dqMargin: int, dqsMargin: int)
      requires Valid() && 0 <= start <= dqsMax && |plan.e| == |window| && Hold(plan.e, left, right)
      requires plan.used == StrobeMove(plan.e, start, dqsMax) && plan.taps == dqMax
      requires left != dqIn && right != dqIn && forall i :: 0 <= i < |window| ==> dqIn[i] == 0
      modifies this`dqsIn, dqIn
      ensures Valid() && forall i :: 0 <= i < |window| ==> 0 <= dqIn[i] <= dqMax
      ensures Centred(plan, start, dqMargin, dqsMargin)
    {
      var midMin, minIndex := FindLeastMid(plan.e, left, right);
      if midMin > 0 {
        midMin := midMin + 1;
      }
      midMin := Half(midMin);
      var origMidMin := midMin;
      var newDqs := start - midMin;
      if newDqs > dqsMax {
        newDqs := dqsMax;
      } else if newDqs < 0 {
        newDqs := 0;
      }
      midMin := start - newDqs;
      dqMargin, dqsMargin := LevelDq(plan, dqIn, left, right, minIndex, origMidMin, midMin, dqMax);
      dqsIn := newDqs;
    }

    /** rw_mgr_mem_calibrate_vfifo_center. `failing` is the bit reported when one has no window. */
    method Center(updateFom: bool) returns (ok: bool, dqMargin: int, dqsMargin: int, failing: int)
      requires Valid()
      modifies this`dqsIn, this`fomIn, dqIn
      ensures Valid() && forall i :: 0 <= i < |window| ==> 0 <= dqIn[i] <= dqMax
      ensures var ws, start := Relative(window, old(dqsIn)), old(dqsIn);
        if AllMeet(ws, dqMax, dqsMax - start) then
          var plan := ReadPlan(ws, start, dqMax, dqsMax);
          && Centred(plan, start, dqMargin, dqsMargin)
          && ok == (dqMargin >= 0 && dqsMargin >= 0) == ChainsReach(plan)
          && (dqsIn == 0 || exists i :: 0 <= i < |window| && dqIn[i] == 0)
          && fomIn == old(fomIn) + if updateFom then dqMargin + dqsMargin else 0
        else
          // the first bit without a window is reported, with the strobe back where it was
          && !ok && dqsIn == start && fomIn == old(fomIn)
          && IsFirstMissing(ws, dqMax, dqsMax - start, failing)
      // success means that every bit passes at the final setting
      ensures ok ==> AllPass()
    {
      var start := dqsIn;
      ghost var ws := Relative(window, start);
      dqMargin, dqsMargin := 0, 0;
      var left, right := new int[|window|], new int[|window|];
      failing := MeasureWindows(ws, left, right);
      if failing != -1 {
        return false, dqMargin, dqsMargin, failing;
      }
      ok, dqMargin, dqsMargin := CenterKnown(ws, left, right, start, updateFom);
    }

    /** The rest of the routine, with all windows known. */
    method CenterKnown(ghost ws: seq<Window>, left: array<int>, right: array<int>, start: int, updateFom: bool)
      returns (ok: bool, dqMargin: int, dqsMargin: int)
      requires Valid() && 0 <= start <= dqsMax && ws == Relative(window, start) && AllMeet(ws, dqMax, dqsMax - start)
      requires Hold(EdgesOf(ws, dqMax, dqsMax - start), left, right) && left != dqIn && right != dqIn
      requires forall i :: 0 <= i < |window| ==> dqIn[i] == 0
      modifies this`dqsIn, this`fomIn, dqIn
      ensures Valid() && forall i :: 0 <= i < |window| ==> 0 <= dqIn[i] <= dqMax
      ensures Centred(ReadPlan(ws, start, dqMax, dqsMax), start, dqMargin, dqsMargin)
      ensures ok == (dqMargin >= 0 && dqsMargin >= 0) == ChainsReach(ReadPlan(ws, start, dqMax, dqsMax))
      ensures fomIn == old(fomIn) + if updateFom then dqMargin + dqsMargin else 0
      ensures dqsIn == 0 || exists i :: 0 <= i < |window| && dqIn[i] == 0
      ensures ok ==> AllPass()
    {
      ghost var plan := ReadPlan(ws, start, dqMax, dqsMax);
      dqMargin, dqsMargin := CenterBits(plan, left, right, start);
      if updateFom {
        fomIn := fomIn + (dqMargin + dqsMargin);
      }
      ok := dqMargin >= 0 && dqsMargin >= 0;
      MarginsDecide(plan, ws, start, dqsMax, dqMargin, dqsMargin);
      SomeDelayIsZero(plan, ws, start, dqMargin, dqsMargin);
      if ok {
        CentredBitsPass(plan, ws, start, dqMargin, dqsMargin);
      }
    }

    /** Every bit passes at the present setting. */
    ghost predicate AllPass()
      reads this, dqIn
      requires |window| == dqIn.Length
    {
      forall i :: 0 <= i < |window| ==> window[i].Passes(dqsIn - dqIn[i])
    }

    lemma SomeDelayIsZero(plan: Plan, ws: seq<Window>, start: nat, dqMargin: int, dqsMargin: int)
      requires ws != [] && start <= dqsMax <= dqMax && AllMeet(ws, dqMax, dqsMax - start)
      requires |window| == dqIn.Length == |plan.e| && plan == ReadPlan(ws, start, dqMax, dqsMax)
      requires Centred(plan, start, dqMargin, dqsMargin)
      ensures dqsIn == 0 || exists i :: 0 <= i < |window| && dqIn[i] == 0
    {
      StrobeMovesAllItCan(plan, ws, start, dqsMax);
      if dqsIn != 0 {
        var i :| 0 <= i < |plan.e| && plan.FinalShift(i) == -plan.used;
        assert dqsIn - dqIn[i] == start + plan.FinalShift(i);
      }
    }

    lemma CentredBitsPass(plan: Plan, ws: seq<Window>, start: int, dqMargin: int, dqsMargin: int)
      requires |window| == dqIn.Length == |plan.e| && ws == Relative(window, start)
      requires Centred(plan, start, dqMargin, dqsMargin)
      requires forall i :: 0 <= i < |ws| ==> ws[i].Passes(plan.FinalShift(i))
      ensures AllPass()
    {
      forall i | 0 <= i < |window|
        ensures window[i].Passes(dqsIn - dqIn[i])
      {
        assert ws[i].Passes(plan.FinalShift(i));
      }
    }
  }

  /** The part of the move that a strobe chain of `dqsMax` taps can make from `start`. */
  ghost function StrobeMove(e: seq<Edges>, start: int, dqsMax: nat): int
    requires e != []
  {
    start - Clamp(start - Move(LeastMid(e)), 0, dqsMax)
  }

  ghost function ReadPlan(ws: seq<Window>, start: int, taps: nat, dqsMax: nat): Plan
    requires ws != []
  {
    var e := EdgesOf(ws, taps, dqsMax - start);
    Plan(e, StrobeMove(e, start, dqsMax), taps)
  }

  /** With its DQ delay at the last tap, no bit is beyond its right edge. */
  ghost predicate ChainsReach(plan: Plan) {
    forall i :: 0 <= i < |plan.e| ==> plan.e[i].right + plan.used + plan.taps >= 0
  }

  /** When every bit has a window, two of the four clamps are dead code: the strobe never needs
      more than its last tap, and no DQ delay is ever pushed below 0. */
  lemma OnlyTwoClampsCanFire(plan: Plan, ws: seq<Window>, start: nat, dqsMax: nat)
    requires ws != [] && start <= dqsMax <= plan.taps && AllMeet(ws, plan.taps, dqsMax - start)
    requires plan == ReadPlan(ws, start, plan.taps, dqsMax)
    ensures start - Move(LeastMid(plan.e)) <= dqsMax
    ensures forall i :: 0 <= i < |plan.e| ==> plan.Unclamped(i) >= 0
  {
  }

  /** A bit keeps all its left slack; it falls off its right edge exactly when the DQ chain is too
      short for it; and slack inside the clipped edges is slack inside the true window. */
  lemma FinalSlack(plan: Plan, ws: seq<Window>, start: nat, dqsMax: nat, i: nat)
    requires i < |ws| && start <= dqsMax <= plan.taps && AllMeet(ws, plan.taps, dqsMax - start)
    requires plan == ReadPlan(ws, start, plan.taps, dqsMax)
    ensures plan.LeftSlack(i) >= 0
    ensures plan.RightSlack(i) >= 0 <==> plan.e[i].right + plan.used + plan.taps >= 0
    ensures plan.RightSlack(i) >= 0 ==> ws[i].Passes(plan.FinalShift(i))
  {
  }

  /** The slacks are distances to the edges of the window, where the sweeps saw them. */
  lemma SlackIsDistance(plan: Plan, ws: seq<Window>, start: nat, dqsMax: nat, i: nat)
    requires i < |ws| && start <= dqsMax <= plan.taps && plan == ReadPlan(ws, start, plan.taps, dqsMax)
    ensures ws[i].lo >= 0 - plan.taps ==> plan.LeftSlack(i) == plan.FinalShift(i) - ws[i].lo
    ensures ws[i].hi <= dqsMax - start ==> plan.RightSlack(i) == ws[i].hi - plan.FinalShift(i)
  {
  }

  /** The strobe moves as far back as it takes for some DQ delay to be 0, or to its own first tap. */
  lemma StrobeMovesAllItCan(plan: Plan, ws: seq<Window>, start: nat, dqsMax: nat)
    requires ws != [] && start <= dqsMax <= plan.taps && AllMeet(ws, plan.taps, dqsMax - start)
    requires plan == ReadPlan(ws, start, plan.taps, dqsMax)
    ensures 0 <= start - plan.used <= dqsMax
    ensures start - plan.used == 0 || exists i :: 0 <= i < |plan.e| && plan.FinalShift(i) == -plan.used
  {
    OnlyTwoClampsCanFire(plan, ws, start, dqsMax);
    var k :| 0 <= k < |plan.e| && plan.e[k].Mid() == LeastMid(plan.e);
    assert start - plan.used > 0 ==> plan.FinalShift(k) == -plan.used;
  }

  /** The left margin never decides; the right one is non-negative exactly when the DQ chains
      reach every window, and then every bit passes where it ends up. */
  lemma MarginsDecide(plan: Plan, ws: seq<Window>, start: nat, dqsMax: nat, dqMargin: int, dqsMargin: int)
    requires ws != [] && start <= dqsMax <= plan.taps && AllMeet(ws, plan.taps, dqsMax - start)
    requires plan == ReadPlan(ws, start, plan.taps, dqsMax)
    requires plan.IsDqMargin(dqMargin, |plan.e|) && plan.IsDqsMargin(dqsMargin, |plan.e|)
    ensures dqMargin >= 0
    ensures dqsMargin >= 0 <==> ChainsReach(plan)
    ensures dqsMargin >= 0 ==> forall i :: 0 <= i < |ws| ==> ws[i].Passes(plan.FinalShift(i))
  {
    forall i | 0 <= i < |ws|
      ensures plan.LeftSlack(i) >= 0
      ensures plan.RightSlack(i) >= 0 <==> plan.e[i].right + plan.used + plan.taps >= 0
      ensures plan.RightSlack(i) >= 0 ==> ws[i].Passes(plan.FinalShift(i))
    {
      FinalSlack(plan, ws, start, dqsMax, i);
    }
  }

  /** Windows for all bits and no DQ clamp: deskew succeeds, whether or not the strobe clamp
      fired, and every bit ends within one tap of its middle. */
  lemma UnclampedDeskewBalances(plan: Plan, ws: seq<Window>, start: nat, dqsMax: nat)
    requires ws != [] && start <= dqsMax <= plan.taps && AllMeet(ws, plan.taps, dqsMax - start)
    requires plan == ReadPlan(ws, start, plan.taps, dqsMax)
    requires forall i :: 0 <= i < |plan.e| ==> plan.Unclamped(i) <= plan.taps
    ensures ChainsReach(plan)
    ensures forall i :: 0 <= i < |ws| ==> -1 <= plan.LeftSlack(i) - plan.RightSlack(i) <= 1
  {
    OnlyTwoClampsCanFire(plan, ws, start, dqsMax);
    forall i | 0 <= i < |plan.e|
      ensures plan.e[i].right + plan.used + plan.taps >= 0
      ensures -1 <= plan.LeftSlack(i) - plan.RightSlack(i) <= 1
    {
      assert Meets(ws[i], plan.taps, dqsMax - start);
      plan.UnclampedIsBalanced(i);
    }
  }

  /** Some DQ delay lets the bit pass when the strobe is shifted by `shift`. */
  ghost predicate InReach(w: Window, shift: int, taps: nat) {
    exists x :: shift - taps <= x <= shift && w.Passes(x)
  }

  /** At this strobe shift every bit can be made to pass. */
  ghost predicate Feasible(ws: seq<Window>, shift: int, taps: nat) {
    forall i :: 0 <= i < |ws| ==> InReach(ws[i], shift, taps)
  }

  /** Success is sound but not complete: centring the strobe for the bit with the rightmost window
      can put it out of reach of a bit whose window lies far left, although both could pass. */
  lemma DeskewCanMissASetting()
    ensures var ws := [Window(0, 31), Window(-31, -20)];
            && AllMeet(ws, 31, 31)
            && (exists shift :: 0 <= shift <= 31 && Feasible(ws, shift, 31))
            && !ChainsReach(ReadPlan(ws, 0, 31, 31))
  {
    var ws := [Window(0, 31), Window(-31, -20)];
    var plan := ReadPlan(ws, 0, 31, 31);
    assert plan.e[0] == Edges(0, 31) && plan.e[1] == Edges(31, -20);
    assert plan.e[1].right + plan.used + plan.taps < 0;
    assert Feasible(ws, 5, 31) by {
      assert ws[0].Passes(5) && ws[1].Passes(-26);
    }
  }
}
