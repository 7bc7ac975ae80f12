/** Per-bit write deskew and data-mask centring (rw_mgr_mem_calibrate_writes_center) on the output
    delay chains of one write group. The strobe itself is not centred in this configuration. */
module WriteDeskew {
  import opened Windows
  import opened EdgeSweep
  import opened Centring
  import opened DmSearch

  class WritePath {
    const outMax: nat                                    // IO_IO_OUT1_DELAY_MAX
    const window: seq<Window>                            // the write test without DM, bit by bit
    const dmPass: (seq<int>, int, seq<int>) -> bool      // the write test with DM, on (DQ, DQS, DM) delays
    const dqOut: array<int>
    const dmOut: array<int>
    var dqsOut: int
    var octOut: int
    var fomOut: int                                      // gbl->fom_out

    ghost predicate Valid()
      reads this
    {
      && 0 < |window| == dqOut.Length && dqOut != dmOut
      && 0 <= dqsOut <= outMax && octOut == dqsOut
    }

    constructor (outMax: nat, window: seq<Window>, dmPass: (seq<int>, int, seq<int>) -> bool, dms: nat, dqsOut: nat)
      requires dqsOut <= outMax && window != []
      ensures Valid() && fresh(dqOut) && fresh(dmOut) && this.dqsOut == dqsOut && fomOut == 0
      ensures this.outMax == outMax && this.window == window && this.dmPass == dmPass && dmOut.Length == dms
    {
      this.outMax, this.window, this.dmPass := outMax, window, dmPass;
      this.dqsOut, this.octOut := dqsOut, dqsOut;
      dqOut := new int[|window|];
      dmOut := new int[dms];
      fomOut := 0;
    }

    method ApplyGroupDqOut1(delay: int)
      modifies dqOut
      ensures forall i :: 0 <= i < dqOut.Length ==> dqOut[i] == delay
    {
      for i := 0 to dqOut.Length
        invariant forall j :: 0 <= j < i ==> dqOut[j] == delay
      {
        dqOut[i] := delay;
      }
    }

    method ApplyGroupDmOut1(delay: int)
      modifies dmOut
      ensures dmOut[..] == Fill(dmOut.Length, delay)
    {
      for i := 0 to dmOut.Length
        invariant forall j :: 0 <= j < i ==> dmOut[j] == delay
      {
        dmOut[i] := delay;
      }
    }

    /** DQS and OCT move together. */
    method ApplyGroupDqs(delay: int)
      modifies this`dqsOut, this`octOut
      ensures dqsOut == octOut == delay
    {
      dqsOut := delay;
      octOut := delay;
    }

    method WriteTest() returns (anyPass: bool, bitChk: seq<bool>)
      requires Valid()
      ensures |bitChk| == |window|
      ensures forall i :: 0 <= i < |window| ==> bitChk[i] == window[i].Passes(dqsOut - dqOut[i])
      ensures anyPass <==> exists i :: 0 <= i < |window| && bitChk[i]
    {
      bitChk := seq(|window|, i requires 0 <= i < |window| reads this, dqOut =>
        i < dqOut.Length && window[i].Passes(dqsOut - dqOut[i]));
      anyPass := exists i :: 0 <= i < |bitChk| && bitChk[i];
    }

    method WriteTestDm() returns (pass: bool)
      ensures pass == dmPass(dqOut[..], dqsOut, dmOut[..])
    {
      pass := dmPass(dqOut[..], dqsOut, dmOut[..]);
    }

    /** The test with all DQ delays at d. */
    method TestDq(ghost ws: seq<Window>, d: nat) returns (anyPass: bool, bitChk: seq<bool>)
      requires Valid() && ws == Relative(window, dqsOut)
      modifies dqOut
      ensures Tested(ws, bitChk, 0 - d) && anyPass == AnySet(bitChk)
    {
      ApplyGroupDqOut1(d);
      anyPass, bitChk := WriteTest();
    }

    /** The test with the strobe d taps above `start`. */
    method TestDqs(ghost ws: seq<Window>, start: int, d: nat) returns (anyPass: bool, bitChk: seq<bool>)
      requires Valid() && 0 <= start && start + d <= outMax && ws == Relative(window, start)
      requires forall i :: 0 <= i < |window| ==> dqOut[i] == 0
      modifies this`dqsOut, this`octOut
      ensures Valid() && dqsOut == octOut == start + d
      ensures Tested(ws, bitChk, d) && anyPass == AnySet(bitChk)
    {
      ApplyGroupDqs(d + start);
      anyPass, bitChk := WriteTest();
    }

    /** First sweep: all DQ delays together, strobe at its start. */
    method SweepDq(ghost ws: seq<Window>, left: array<int>, right: array<int>)
      requires Valid() && ws == Relative(window, dqsOut)
      requires left != right && left != dqOut && right != dqOut && left.Length == right.Length == |window|
      modifies dqOut, left, right
      ensures AfterDqTaps(ws, outMax, left, right, outMax + 1)
      ensures forall i :: 0 <= i < |window| ==> dqOut[i] == 0
    {
      ClearEdges(ws, outMax, left, right);
      var sticky, d := seq(|window|, i => false), 0;
      while d <= outMax
        invariant 0 <= d <= outMax + 1 && StickyInDq(ws, sticky, d)
        invariant AfterDqTaps(ws, outMax, left, right, d)
      {
        var anyPass, bitChk := TestDq(ws, d);
        StickyInDqGrows(ws, sticky, bitChk, d);
        sticky := OrBits(sticky, bitChk);
        if !anyPass && AllSet(sticky) {
          DqStop(ws, outMax, left, right, sticky, bitChk, d);
          break;
        }
        RecordDqTap(ws, outMax, left, right, bitChk, d);
        d := d + 1;
      }
      ApplyGroupDqOut1(0);
    }

    /** Between the sweeps. Unlike on the read side, a known left edge is enough for `sticky`. */
    method Settle(ghost ws: seq<Window>, left: array<int>, right: array<int>) returns (sticky: seq<bool>)
      requires AfterDqTaps(ws, outMax, left, right, outMax + 1)
      modifies right
      ensures AfterDqsTaps(ws, outMax, left, right, 0)
      ensures |sticky| == |ws|
      ensures forall i :: 0 <= i < |ws| ==> sticky[i] == (left[i] != outMax + 1)
    {
      var n := left.Length;
      sticky := [];
      for i := n downto 0
        invariant |sticky| == n - i
        invariant forall j :: 0 <= j < i ==> Edges(left[j], right[j]) == DqEdges(ws[j], outMax, outMax + 1)
        invariant forall j :: i <= j < n ==> Edges(left[j], right[j]) == DqsEdges(ws[j], outMax, 0)
        invariant forall j :: i <= j < n ==> sticky[j - i] == (left[j] != outMax + 1)
      {
        if left[i] == outMax + 1 && right[i] != outMax + 1 {
          right[i] := outMax + 1;
        }
        sticky := [left[i] != outMax + 1] + sticky;
      }
    }

    /** What a stop at strobe tap 0 does to bits that passed in the first sweep. */
    method MarkMarginal(left: array<int>, right: array<int>)
      requires left != right && left.Length == right.Length
      modifies right
      ensures forall i :: 0 <= i < right.Length ==>
        right[i] == if old(right[i]) == outMax + 1 && left[i] != outMax + 1 then -1 else old(right[i])
    {
      for i := 0 to left.Length
        invariant forall j :: i <= j < right.Length ==> right[j] == old(right[j])
        invariant forall j :: 0 <= j < i ==>
          right[j] == if old(right[j]) == outMax + 1 && left[j] != outMax + 1 then -1 else old(right[j])
      {
        if right[i] == outMax + 1 && left[i] != outMax + 1 {
          right[i] := -1;
        }
      }
    }

    /** The early stop. With a repeatable test no bit is marginal at tap 0, so the marking changes nothing. */
    method StopDqs(ghost ws: seq<Window>, left: array<int>, right: array<int>, ghost sticky: seq<bool>,
                   ghost bitChk: seq<bool>, d: nat, ghost room: nat)
      requires AfterDqsTaps(ws, outMax, left, right, d) && d <= room <= outMax
      requires StickyInDqs(ws, outMax, sticky, d + 1) && AllSet(sticky) && Tested(ws, bitChk, d) && !AnySet(bitChk)
      modifies right
      ensures AfterDqsTaps(ws, outMax, left, right, room + 1) && AllMeet(ws, outMax, room)
    {
      DqsStop(ws, outMax, room, left, right, sticky, bitChk, d);
      if d == 0 {
        MarkMarginal(left, right);
      }
    }

    /** Second sweep: the strobe moves up from `start`, the DQ delays stay at 0. */
    method SweepDqs(ghost ws: seq<Window>, left: array<int>, right: array<int>, sticky0: seq<bool>, start: int)
      requires Valid() && start == dqsOut && ws == Relative(window, start)
      requires left != dqOut && right != dqOut && AfterDqsTaps(ws, outMax, left, right, 0)
      requires forall i :: 0 <= i < |window| ==> dqOut[i] == 0
      requires |sticky0| == |window| && forall i :: 0 <= i < |window| ==> sticky0[i] == (left[i] != outMax + 1)
      modifies this`dqsOut, this`octOut, left, right
      ensures Valid()
      ensures AfterDqsTaps(ws, outMax, left, right, outMax - start + 1)
      // it ends with the strobe at the last tap, unless it stops early, with every window seen
      ensures dqsOut == octOut && (dqsOut == outMax || AllMeet(ws, outMax, outMax - start))
    {
      var sticky, d := sticky0, 0;
      while d <= outMax - start
        invariant 0 <= d <= outMax - start + 1 && Valid()
        invariant d > 0 ==> dqsOut == octOut == start + d - 1
        invariant StickyInDqs(ws, outMax, sticky, d) && AfterDqsTaps(ws, outMax, left, right, d)
      {
        var anyPass, bitChk := TestDqs(ws, start, d);
        StickyInDqsGrows(ws, outMax, sticky, bitChk, d);
        sticky := OrBits(sticky, bitChk);
        if !anyPass && AllSet(sticky) {
          StopDqs(ws, left, right, sticky, bitChk, d, outMax - start);
          break;
        }
        RecordDqsTap(ws, outMax, left, right, bitChk, d);
        d := d + 1;
      }
    }

    /** The two sweeps, and the check that every bit has a window. */
    method MeasureWindows(ghost ws: seq<Window>, left: array<int>, right: array<int>) returns (failing: int)
      requires Valid() && ws == Relative(window, dqsOut)
      requires left != right && left != dqOut && right != dqOut && left.Length == right.Length == |window|
      modifies this`dqsOut, this`octOut, dqOut, left, right
      ensures Valid() && forall i :: 0 <= i < |window| ==> dqOut[i] == 0
      ensures failing == -1 ==> AllMeet(ws, outMax, outMax - old(dqsOut))
      ensures failing == -1 ==> Hold(EdgesOf(ws, outMax, outMax - old(dqsOut)), left, right)
      ensures failing != -1 ==> IsFirstMissing(ws, outMax, outMax - old(dqsOut), failing)
      // with a window missing, the strobe is left at the last tap
      ensures failing != -1 ==> dqsOut == octOut == outMax
    {
      var start := dqsOut;
      SweepDq(ws, left, right);
      var sticky := Settle(ws, left, right);
      SweepDqs(ws, left, right, sticky, start);
      failing := FirstMissing(ws, outMax, outMax - start, left, right);
    }

    // ----- the data mask -----

    /** The DM test at a position of the joined axis, the rest of the group staying as it is. */
    ghost function PassAt(dq: seq<int>, newDqs: int): int -> bool {
      p => if p <= 0 then dmPass(dq, newDqs, Fill(dmOut.Length, -p)) else dmPass(dq, newDqs + p, Fill(dmOut.Length, 0))
    }

    /** Leftmost position: the DM chain at its last tap. */
    function Low(): int { -(outMax as int) }

    /** First half of the search: DM delays downwards, so positions -outMax .. 0. */
    method SearchByDm() returns (s: Search)
      requires dqOut != dmOut
      modifies dmOut
      ensures s.Covers(PassAt(dqOut[..], dqsOut), Low(), 0, outMax + 1)
    {
      ghost var pass := PassAt(dqOut[..], dqsOut);
      s := Search(outMax + 1, outMax + 1, outMax + 1, outMax + 1, 0);
      for d := outMax as int + 1 downto 0
        invariant if d > outMax then s == Search(outMax + 1, outMax + 1, outMax + 1, outMax + 1, 0)
                  else s.Covers(pass, Low(), -d, outMax + 1)
      {
        ApplyGroupDmOut1(d);
        var ok := WriteTestDm();
        assert ok == pass(-d);
        s := Visit(pass, Low(), -d - 1, -d, outMax + 1, ok, s);
      }
    }

    /** The DM test with the strobe d taps up. */
    method TestShift(newDqs: int, d: nat) returns (ok: bool)
      requires Valid() && d + newDqs <= outMax && newDqs >= 0 && dmOut[..] == Fill(dmOut.Length, 0)
      modifies this`dqsOut, this`octOut
      ensures Valid() && ok == PassAt(dqOut[..], newDqs)(d)
    {
      ApplyGroupDqs(d + newDqs);
      ok := WriteTestDm();
    }

    /** Second half: DM delay 0, the strobe upwards from its place, so positions 0 .. room. A run
        that is open at position 0 is continued. */
    method SearchByDqs(newDqs: int, s0: Search) returns (s: Search)
      requires Valid() && newDqs == dqsOut && dmOut[..] == Fill(dmOut.Length, 0)
      requires s0.Covers(PassAt(dqOut[..], newDqs), Low(), 0, outMax + 1)
      modifies this`dqsOut, this`octOut
      ensures Valid()
      ensures IsBest(PassAt(dqOut[..], newDqs), Low(), outMax - newDqs, s.bgnBest, s.endBest, s.winBest)
      ensures s.winBest == 0 ==> s.bgnBest == s.endBest == outMax + 1
    {
      ghost var pass := PassAt(dqOut[..], newDqs);
      s := s0;
      if s.endCurr != 0 {
        s := s.(bgnCurr := outMax + 1, endCurr := outMax + 1);
      }
      for d := 0 to outMax - newDqs + 1
        invariant Valid() && s.Covers(pass, Low(), if d == 0 then 0 else d - 1, outMax + 1)
      {
        var ok;
        ok, s := SearchAtShift(newDqs, d, s);
        if !ok && s.winBest - 1 > outMax - newDqs - d {
          EarlyExitIsExact(pass, Low(), d, outMax - newDqs, s.bgnBest, s.endBest, s.winBest);
          return;
        }
      }
    }

    /** One test of it. */
    method SearchAtShift(newDqs: int, d: nat, s0: Search) returns (ok: bool, s: Search)
      requires Valid() && d + newDqs <= outMax && newDqs >= 0 && dmOut[..] == Fill(dmOut.Length, 0)
      requires s0.Covers(PassAt(dqOut[..], newDqs), Low(), if d == 0 then 0 else d - 1, outMax + 1)
      modifies this`dqsOut, this`octOut
      ensures Valid() && ok == PassAt(dqOut[..], newDqs)(d)
      ensures s.Covers(PassAt(dqOut[..], newDqs), Low(), d, outMax + 1)
    {
      ok := TestShift(newDqs, d);
      s := Visit(PassAt(dqOut[..], newDqs), Low(), if d == 0 then 0 else d - 1, d, outMax + 1, ok, s0);
    }

    /** The DM part of the routine; bgn, end, win describe the run it settled on, mid the DM delay. */
    method CenterDm(newDqs: int) returns (dmMargin: int, mid: int, bgn: int, end: int, win: nat)
      requires Valid() && newDqs == dqsOut
      modifies this`dqsOut, this`octOut, dmOut
      ensures Valid() && dqsOut == newDqs
      ensures IsBest(PassAt(dqOut[..], newDqs), Low(), outMax - newDqs, bgn, end, win)
      ensures dmOut[..] == Fill(dmOut.Length, mid) && IsDmDelay(mid, outMax, bgn, end, win)
      ensures dmMargin == if win == 0 then -1 else -bgn - mid
    {
      var s := SearchByDm();
      ApplyGroupDmOut1(0);
      s := SearchByDqs(newDqs, s);
      bgn, end, win := s.bgnBest, s.endBest, s.winBest;
      var left0, right0 := -1 * bgn, end;
      ApplyGroupDqs(newDqs);
      mid := Half(left0 - right0);
      if mid < 0 {
        mid := 0;
      }
      if win == 0 {
        dmMargin := -1;
      } else {
        dmMargin := left0 - mid;
      }
      ApplyGroupDmOut1(mid);
    }

    /** Every bit sits at its final shift, and the margins are the least slacks. */
    ghost predicate Centred(plan: Plan, start: int, dqMargin: int, dqsMargin: int)
      reads this, dqOut
    {
      && |plan.e| == dqOut.Length
      && dqsOut == start
      && (forall i :: 0 <= i < dqOut.Length ==> dqsOut - dqOut[i] == start + plan.FinalShift(i))
      && plan.IsDqMargin(dqMargin, |plan.e|)
      && plan.IsDqsMargin(dqsMargin, |plan.e|)
    }

    /** The DQ half of the routine: the strobe goes back, every bit to its final shift. */
    method CenterBits(ghost plan: Plan, left: array<int>, right: array<int>, start: int)
      returns (dqMargin: int, dqsMargin: int)
      requires Valid() && 0 <= start <= outMax && |plan.e| == |window| && Hold(plan.e, left, right)
      requires plan.used == 0 && plan.taps == outMax
      requires left != dqOut && right != dqOut && forall i :: 0 <= i < |window| ==> dqOut[i] == 0
      modifies this`dqsOut, this`octOut, dqOut
      ensures Valid() && forall i :: 0 <= i < |window| ==> 0 <= dqOut[i] <= outMax
      ensures Centred(plan, start, dqMargin, dqsMargin)
    {
      var midMin, minIndex := FindLeastMid(plan.e, left, right);
      if midMin > 0 {
        midMin := midMin + 1;
      }
      midMin := Half(midMin);
      var origMidMin := midMin;
      var newDqs := start;
      midMin := 0;
      dqMargin, dqsMargin := LevelDq(plan, dqOut, left, right, minIndex, origMidMin, midMin, outMax);
      ApplyGroupDqs(newDqs);
    }

    /** From known windows to the end: DQ half, DM half, exported figure. */
    method CenterAll(ghost plan: Plan, left: array<int>, right: array<int>, start: int)
      returns (dqMargin: int, dqsMargin: int, dmMargin: int)
      requires Valid() && 0 <= start <= outMax && |plan.e| == |window| && Hold(plan.e, left, right)
      requires plan.used == 0 && plan.taps == outMax
      requires left != dqOut && right != dqOut && forall i :: 0 <= i < |window| ==> dqOut[i] == 0
      modifies this`dqsOut, this`octOut, this`fomOut, dqOut, dmOut
      ensures Valid() && forall i :: 0 <= i < |window| ==> 0 <= dqOut[i] <= outMax
      ensures Centred(plan, start, dqMargin, dqsMargin) && DmSettled(dmMargin)
      ensures dmMargin >= 0 ==> dmPass(dqOut[..], dqsOut, dmOut[..])
      ensures fomOut == old(fomOut) + dqMargin + dqsMargin
    {
      dqMargin, dqsMargin := CenterBits(plan, left, right, start);
      dmMargin := SettleDm();
      assert Centred(plan, start, dqMargin, dqsMargin);
      fomOut := fomOut + (dqMargin + dqsMargin);
    }

    /** rw_mgr_mem_calibrate_writes_center. `failing` is the bit reported when one has no window. */
    method Center() returns (ok: bool, dqMargin: int, dqsMargin: int, dmMargin: int, failing: int)
      requires Valid()
      modifies this`dqsOut, this`octOut, this`fomOut, dqOut, dmOut
      ensures Valid() && forall i :: 0 <= i < |window| ==> 0 <= dqOut[i] <= outMax
      ensures var ws, start := Relative(window, old(dqsOut)), old(dqsOut);
        if AllMeet(ws, outMax, outMax - start) then
          && Centred(WritePlan(ws, start, outMax), start, dqMargin, dqsMargin)
          && DmSettled(dmMargin)
          && ok == (dqMargin >= 0 && dqsMargin >= 0 && dmMargin >= 0) == (ReachZero(ws) && dmMargin >= 0)
          && fomOut == old(fomOut) + dqMargin + dqsMargin
        else
          && !ok && fomOut == old(fomOut)
          && IsFirstMissing(ws, outMax, outMax - start, failing)
          // the strobe is not put back, so it stands where it stood only if that was the last tap
          && dqsOut == octOut == outMax && (dqsOut == start <==> start == outMax)
          && dmOut[..] == old(dmOut[..]) && forall i :: 0 <= i < |window| ==> dqOut[i] == 0
      // success means that every bit passes at the final setting, and so does the DM test
      ensures ok ==> AllPass()
      ensures ok ==> dmPass(dqOut[..], dqsOut, dmOut[..])
    {
      var start := dqsOut;
      ghost var ws := Relative(window, start);
      dqMargin, dqsMargin, dmMargin := 0, 0, 0;
      var left, right := new int[|window|], new int[|window|];
      failing := MeasureWindows(ws, left, right);
      if failing != -1 {
        return false, dqMargin, dqsMargin, dmMargin, failing;
      }
      ok, dqMargin, dqsMargin, dmMargin := CenterKnown(ws, left, right, start);
    }

    /** The rest of the routine, with all windows known. */
    method CenterKnown(ghost ws: seq<Window>, left: array<int>, right: array<int>, start: int)
      returns (ok: bool, dqMargin: int, dqsMargin: int, dmMargin: int)
      requires Valid() && 0 <= start <= outMax && ws == Relative(window, start) && AllMeet(ws, outMax, outMax - start)
      requires Hold(EdgesOf(ws, outMax, outMax - start), left, right) && left != dqOut && right != dqOut
      requires forall i :: 0 <= i < |window| ==> dqOut[i] == 0
      modifies this`dqsOut, this`octOut, this`fomOut, dqOut, dmOut
      ensures Valid() && forall i :: 0 <= i < |window| ==> 0 <= dqOut[i] <= outMax
      ensures Centred(WritePlan(ws, start, outMax), start, dqMargin, dqsMargin) && DmSettled(dmMargin)
      ensures ok == (dqMargin >= 0 && dqsMargin >= 0 && dmMargin >= 0) == (ReachZero(ws) && dmMargin >= 0)
      ensures fomOut == old(fomOut) + dqMargin + dqsMargin
      ensures ok ==> AllPass() && dmPass(dqOut[..], dqsOut, dmOut[..])
    {
      ghost var plan := WritePlan(ws, start, outMax);
      dqMargin, dqsMargin, dmMargin := CenterAll(plan, left, right, start);
      ok := dqMargin >= 0 && dqsMargin >= 0 && dmMargin >= 0;
      MarginsDecide(plan, ws, start, dqMargin, dqsMargin);
      if ok {
        CentredBitsPass(plan, ws, start, dqMargin, dqsMargin);
      }
    }

    /** Every bit passes at the present setting. */
    ghost predicate AllPass()
      reads this, dqOut
      requires |window| == dqOut.Length
    {
      forall i :: 0 <= i < |window| ==> window[i].Passes(dqsOut - dqOut[i])
    }

    lemma CentredBitsPass(plan: Plan, ws: seq<Window>, start: int, dqMargin: int, dqsMargin: int)
      requires |window| == dqOut.Length == |plan.e| && ws == Relative(window, start)
      requires Centred(plan, start, dqMargin, dqsMargin)
      requires forall i :: 0 <= i < |ws| ==> ws[i].Passes(plan.FinalShift(i))
      ensures AllPass()
    {
      forall i | 0 <= i < |window|
        ensures window[i].Passes(dqsOut - dqOut[i])
      {
        assert ws[i].Passes(plan.FinalShift(i));
      }
    }

    /** Position -d is the DM test at DM delay d, position d the test at DM delay 0 with the strobe d taps up. */
    ghost predicate IsDmTest(pass: int -> bool, dq: seq<int>, dqs: int) {
      forall d: nat ::
        && pass(0 - d) == dmPass(dq, dqs, Fill(dmOut.Length, d))
        && (d >= 1 ==> pass(d) == dmPass(dq, dqs + d, Fill(dmOut.Length, 0)))
    }

    /** The DM delay is the middle of the leftmost longest passing run, as far as it can move. */
    ghost predicate DmSettled(dmMargin: int)
      reads this`dqsOut, dqOut, dmOut
    {
      exists pass, mid, bgn, end, win: nat ::
        && IsDmTest(pass, dqOut[..], dqsOut) && IsBest(pass, -(outMax as int), outMax - dqsOut, bgn, end, win)
        && IsDmDelay(mid, outMax, bgn, end, win) && dmOut[..] == Fill(dmOut.Length, mid)
        && dmMargin == (if win == 0 then -1 else -bgn - mid)
        && (dmMargin >= 0 <==> win > 0 && bgn <= 0)
    }

    method SettleDm() returns (dmMargin: int)
      requires Valid()
      modifies this`dqsOut, this`octOut, dmOut
      ensures Valid() && dqsOut == old(dqsOut) && DmSettled(dmMargin)
      ensures dmMargin >= 0 ==> dmPass(dqOut[..], dqsOut, dmOut[..])
    {
      var mid, bgn, end, win;
      dmMargin, mid, bgn, end, win := CenterDm(dqsOut);
      DmDelayIsInRun(mid, outMax, bgn, end, win);
      assert IsDmTest(PassAt(dqOut[..], dqsOut), dqOut[..], dqsOut);
      if dmMargin >= 0 {
        assert PassAt(dqOut[..], dqsOut)(-mid);
      }
    }
  }

  /** The strobe does not move: all of the levelling is left to the DQ delays. */
  ghost function WritePlan(ws: seq<Window>, start: int, taps: nat): Plan {
    Plan(EdgesOf(ws, taps, taps - start), 0, taps)
  }

  /** No window lies wholly right of the strobe. */
  predicate ReachZero(ws: seq<Window>) {
    forall i :: 0 <= i < |ws| ==> ws[i].lo <= 0
  }

  /** Neither that nor reach implies the other: a window out of reach on the left of the strobe, and one
      within reach on its right. */
  lemma ReachAndSideDiffer(start: int, taps: int)
    requires 0 <= start < taps
    ensures var far := [Window(-taps - 9, -taps - 1)]; ReachZero(far) && !AllMeet(far, taps, taps - start)
    ensures var right := [Window(1, 5)]; AllMeet(right, taps, taps - start) && !ReachZero(right)
  {
    assert !Meets([Window(-taps - 9, -taps - 1)][0], taps, taps - start);
    assert [Window(1, 5)][0].lo == 1;
  }

  /** Both write margins are non-negative exactly when no window starts right of where the strobe
      stands; the DQ chains are always long enough to the other side. */
  lemma MarginsDecide(plan: Plan, ws: seq<Window>, start: nat, dqMargin: int, dqsMargin: int)
    requires ws != [] && start <= plan.taps && AllMeet(ws, plan.taps, plan.taps - start)
    requires plan == WritePlan(ws, start, plan.taps)
    requires plan.IsDqMargin(dqMargin, |plan.e|) && plan.IsDqsMargin(dqsMargin, |plan.e|)
    ensures dqMargin >= 0 && dqsMargin >= 0 <==> ReachZero(ws)
    ensures ReachZero(ws) ==> forall i :: 0 <= i < |ws| ==> ws[i].Passes(plan.FinalShift(i))
  {
    forall i | 0 <= i < |ws|
      ensures plan.LeftSlack(i) >= 0 <==> ws[i].lo <= 0
      ensures plan.RightSlack(i) >= 0
      ensures ws[i].lo <= 0 ==> ws[i].Passes(plan.FinalShift(i))
    {
      FinalSlack(plan, ws, start, i);
    }
  }

  lemma FinalSlack(plan: Plan, ws: seq<Window>, start: nat, i: nat)
    requires i < |ws| && start <= plan.taps && AllMeet(ws, plan.taps, plan.taps - start)
    requires plan == WritePlan(ws, start, plan.taps)
    ensures plan.LeftSlack(i) >= 0 <==> ws[i].lo <= 0
    ensures plan.RightSlack(i) >= 0
    ensures ws[i].lo <= 0 ==> ws[i].Passes(plan.FinalShift(i))
  {
  }

  /** The slacks are distances to the edges of the window, where the sweeps saw them. */
  lemma SlackIsDistance(plan: Plan, ws: seq<Window>, start: nat, i: nat)
    requires i < |ws| && start <= plan.taps && plan == WritePlan(ws, start, plan.taps)
    ensures ws[i].lo >= 0 - plan.taps ==> plan.LeftSlack(i) == plan.FinalShift(i) - ws[i].lo
    ensures ws[i].hi <= plan.taps - start ==> plan.RightSlack(i) == ws[i].hi - plan.FinalShift(i)
  {
  }

  /** With no DQ clamp every bit passes, within one tap of its middle. */
  lemma UnclampedDeskewBalances(plan: Plan, ws: seq<Window>, start: nat)
    requires ws != [] && start <= plan.taps && AllMeet(ws, plan.taps, plan.taps - start)
    requires plan == WritePlan(ws, start, plan.taps)
    requires forall i :: 0 <= i < |plan.e| ==> 0 <= plan.Unclamped(i) <= plan.taps
    ensures ReachZero(ws)
    ensures forall i :: 0 <= i < |ws| ==> -1 <= plan.LeftSlack(i) - plan.RightSlack(i) <= 1
  {
    forall i | 0 <= i < |ws|
      ensures ws[i].lo <= 0
      ensures -1 <= plan.LeftSlack(i) - plan.RightSlack(i) <= 1
    {
      FinalSlack(plan, ws, start, i);
      assert Meets(ws[i], plan.taps, plan.taps - start);
      plan.UnclampedIsBalanced(i);
    }
  }

  /** The DM delay stands for the middle of the run, within one tap, if the middle is not right of
      position 0; otherwise, and without a run, it is 0. */
  predicate IsDmDelay(mid: int, outMax: nat, bgn: int, end: int, win: nat) {
    && 0 <= mid <= outMax
    && if win == 0 || bgn + end > 0 then mid == 0 else 0 <= (-mid - bgn) - (end + mid) <= 1
  }

  /** The DM delay is a position of the run exactly when the run does not start right of 0. */
  lemma DmDelayIsInRun(mid: int, outMax: nat, bgn: int, end: int, win: nat)
    requires IsDmDelay(mid, outMax, bgn, end, win)
    requires win > 0 ==> bgn <= end
    ensures win > 0 ==> (-bgn - mid >= 0 <==> bgn <= 0)
    ensures win > 0 ==> (-bgn - mid >= 0 <==> bgn <= -mid <= end)
  {
  }

  function Fill(n: nat, delay: int): (s: seq<int>)
    ensures |s| == n && forall i :: 0 <= i < n ==> s[i] == delay
  {
    seq(n, i => delay)
  }
}
