/** DQS-enable calibration (rw_mgr_mem_calibrate_vfifo_find_dqs_en_phase): find the window of
    VFIFO, phase and delay settings in which a read works, and settle on its centre. */
module DqsEnable {

  import opened Arithmetic

  datatype Config = Config(
    phaseMax: nat,     // IO_DQS_EN_PHASE_MAX
    delayMax: nat,     // IO_DQS_EN_DELAY_MAX
    opa: nat,          // IO_DELAY_PER_OPA_TAP, picoseconds per phase tap
    tap: nat,          // IO_DELAY_PER_DQS_EN_DCHAIN_TAP, picoseconds per delay tap
    vfifoSize: nat)    // VFIFO_SIZE
  {
    /** A phase tap is worth at least one delay tap and no more than the whole delay chain. */
    predicate Valid() {
      phaseMax >= 2 && vfifoSize >= 1 && 0 < tap <= opa <= Times(delayMax, tap)
    }

    /** All phases of one VFIFO step. */
    function Cycle(): nat { Times(phaseMax + 1, opa) }

    /** A time less whole VFIFO cycles, but not down to 0. */
    function Reduced(t: nat): (w: nat)
      requires Valid() && t > 0
      ensures 0 < w <= Cycle()
    {
      if t <= Cycle() then t else Reduced(t - Cycle())
    }

    lemma {:induction false} ReducedIsSamePlace(t: nat) returns (n: nat)
      requires Valid() && t > 0
      ensures t == Reduced(t) + Times(n, Cycle())
    {
      n := 0;
      if t > Cycle() {
        var m := ReducedIsSamePlace(t - Cycle());
        n := m + 1;
      }
    }

    /** Nominal time of a setting, `i` VFIFO steps after the search began. */
    function Time(i: nat, p: nat, d: nat): nat {
      Times(i, Cycle()) + Times(p, opa) + Times(d, tap)
    }
  }

  /** How the routine can end; all but Found are a return value of 0. */
  datatype Outcome = Found | NoFailingRead | NoWorkingPhase | NoEndEdge | NilRange | CentreFails

  /** Where the search began (pointer `base`), its first working setting (step i, phase p, delay d),
      and the setting it settled on for the end (step j, phase q, delay e). */
  datatype Trail = Trail(base: int, i: nat, p: nat, d: nat, j: nat, q: nat, e: nat)

  class DqsEnPath {
    const cfg: Config
    const pass: (int, int, int) -> bool   // the read test, on (VFIFO pointer, phase, delay)
    var vfifo: int                        // hardware VFIFO pointer
    var phase: nat
    var delay: nat
    var dtapsPerPtap: int                 // what the tracking hardware is told
    ghost var phases: seq<int>            // every phase ever programmed
    ghost var delays: seq<int>            // every delay ever programmed

    ghost predicate Valid()
      reads this
    {
      && cfg.Valid()
      && 0 <= vfifo < cfg.vfifoSize
      && (forall k :: 0 <= k < |phases| ==> 1 <= phases[k] <= cfg.phaseMax)
      && (forall k :: 0 <= k < |delays| ==> 0 <= delays[k] <= cfg.delayMax)
    }

    constructor (cfg: Config, pass: (int, int, int) -> bool, vfifo: int)
      requires cfg.Valid() && 0 <= vfifo < cfg.vfifoSize
      ensures Valid() && this.cfg == cfg && this.pass == pass && this.vfifo == vfifo && phases == delays == []
    {
      this.cfg, this.pass, this.vfifo := cfg, pass, vfifo;
      phase, delay, dtapsPerPtap, phases, delays := 0, 0, 0, [], [];
    }

    /** The software count v and the hardware pointer agree: they started at 0 and `origin`. */
    ghost predicate Synced(v: int, origin: int)
      reads this
      requires cfg.vfifoSize >= 1
    {
      vfifo == Pointer(origin, v)
    }

    /** The VFIFO pointer `k` steps after `origin`. */
    ghost function Pointer(origin: int, k: int): int
      requires cfg.vfifoSize >= 1
    {
      (origin + k) % cfg.vfifoSize
    }

    method SetPhase(p: nat)
      requires Valid() && 1 <= p <= cfg.phaseMax
      modifies this`phase, this`phases
      ensures Valid() && phase == p && phases == old(phases) + [p]
    {
      phase := p;
      phases := phases + [p];
    }

    method SetDelay(d: nat)
      requires Valid() && 0 <= d <= cfg.delayMax
      modifies this`delay, this`delays
      ensures Valid() && delay == d && delays == old(delays) + [d]
    {
      delay := d;
      delays := delays + [d];
    }

    method ReadTest() returns (ok: bool)
      ensures ok == pass(vfifo, phase, delay)
    {
      ok := pass(vfifo, phase, delay);
    }

    method IncrVfifo(v: int, ghost origin: int) returns (v': int)
      requires Valid() && Synced(v, origin)
      modifies this`vfifo
      ensures Valid() && v' == v + 1 && Synced(v', origin)
      ensures vfifo == if old(vfifo) + 1 == cfg.vfifoSize then 0 else old(vfifo) + 1
    {
      ModNext(origin + v, cfg.vfifoSize);
      vfifo := if vfifo + 1 == cfg.vfifoSize then 0 else vfifo + 1;
      v' := v + 1;
    }

    /** There is no decrement command: the pointer goes once around but one. */
    method DecrVfifo(v: int, ghost origin: int) returns (v': int)
      requires Valid() && Synced(v, origin)
      modifies this`vfifo
      ensures Valid() && v' == v + cfg.vfifoSize - 1 && Synced(v', origin)
    {
      v' := v;
      for i := 0 to cfg.vfifoSize - 1
        invariant Valid() && v' == v + i && Synced(v', origin)
      {
        v' := IncrVfifo(v', origin);
      }
    }

    /** Step 0: how many delay taps fit in a phase tap, rounded up, less one. */
    method CountDtaps() returns (dtaps: int)
      requires Valid()
      ensures 0 <= dtaps < cfg.delayMax
      ensures Times(dtaps, cfg.tap) < cfg.opa <= Times(dtaps + 1, cfg.tap)
    {
      dtaps := 0;
      var tmpDelay := 0;
      while tmpDelay < cfg.opa
        invariant 0 <= dtaps && tmpDelay == Times(dtaps, cfg.tap)
        invariant dtaps > 0 ==> Times(dtaps - 1, cfg.tap) < cfg.opa
        decreases cfg.opa - tmpDelay
      {
        dtaps := dtaps + 1;
        tmpDelay := tmpDelay + cfg.tap;
      }
      dtaps := dtaps - 1;
      if dtaps >= cfg.delayMax {
        TimesGrows(cfg.delayMax, dtaps, cfg.tap);
      }
    }

    /** Step 1: push the VFIFO to the second failing read at the first legal phase. */
    method PushToFailing(ghost origin: int) returns (v: int, found: bool)
      requires Valid() && vfifo == origin && phase == 1 && delay == 0
      modifies this`vfifo
      ensures Valid() && Synced(v, origin)
      ensures found == !FewFail()
      ensures found ==> IsSecondFailure(origin, v)
    {
      var failCnt, last := 0, 0;
      v := 0;
      while v < cfg.vfifoSize
        invariant 0 <= v <= cfg.vfifoSize && Valid() && Synced(v, origin) && 0 <= failCnt <= 1
        invariant failCnt == 1 ==> 0 <= last < v && !pass(Pointer(origin, last), 1, 0)
        invariant forall a :: 0 <= a < v && !(failCnt == 1 && a == last) ==> pass(Pointer(origin, a), 1, 0)
        decreases cfg.vfifoSize - v
      {
        var ok := ReadTest();
        if !ok {
          failCnt := failCnt + 1;
          if failCnt == 2 {
            break;
          }
          last := v;
        }
        v := IncrVfifo(v, origin);
      }
      found := v < cfg.vfifoSize;
      if found {
        SecondFailureIsMore(origin, v);
      } else {
        forall a, b | 0 <= a < b < cfg.vfifoSize
          ensures pass(a, 1, 0) || pass(b, 1, 0)
        {
          var k := EveryPointer(origin, 0, a);
          var l := EveryPointer(origin, 0, b);
          assert pass(Pointer(origin, k), 1, 0) || pass(Pointer(origin, l), 1, 0);
        }
      }
    }

    /** At most one VFIFO pointer fails at phase 1 and delay 0. */
    ghost predicate FewFail() {
      forall a, b :: 0 <= a < b < cfg.vfifoSize ==> pass(a, 1, 0) || pass(b, 1, 0)
    }

    /** Of the pointers from `origin` on, the one v steps away is the second to fail. */
    ghost predicate IsSecondFailure(origin: int, v: int)
      requires cfg.vfifoSize >= 1
    {
      && 0 <= v < cfg.vfifoSize && !pass(Pointer(origin, v), 1, 0)
      && exists k :: 0 <= k < v && !pass(Pointer(origin, k), 1, 0)
                     && forall m :: 0 <= m < v && m != k ==> pass(Pointer(origin, m), 1, 0)
    }

    lemma SecondFailureIsMore(origin: int, v: int)
      requires cfg.vfifoSize >= 1 && IsSecondFailure(origin, v)
      ensures !FewFail()
    {
      var k :| 0 <= k < v && !pass(Pointer(origin, k), 1, 0)
               && forall m :: 0 <= m < v && m != k ==> pass(Pointer(origin, m), 1, 0);
      PointersDiffer(origin, k, v);
    }

    /** Within a round no pointer comes twice. */
    lemma PointersDiffer(origin: int, k: int, v: int)
      requires 0 <= k < v < cfg.vfifoSize
      ensures Pointer(origin, k) != Pointer(origin, v)
    {
      var n := cfg.vfifoSize;
      var q, r := (origin + k) / n, (origin + v) / n;
      if Pointer(origin, k) == Pointer(origin, v) {
        assert v - k == r * n - q * n == (r - q) * n;
        if r > q {
          MulGrows(r - q, n);
        }
      }
    }

    lemma PointerPeriod(origin: int, k: int)
      requires cfg.vfifoSize >= 1
      ensures Pointer(origin, k + cfg.vfifoSize) == Pointer(origin, k)
    {
      var n, y := cfg.vfifoSize, origin + k;
      assert (y / n + 1) * n == (y / n) * n + n;
      ModUnique(y + n, n, y / n + 1, y % n);
    }

    /** No legal phase works at VFIFO pointer h and delay d. */
    ghost predicate Dead(h: int, d: int) {
      forall q :: 1 <= q <= cfg.phaseMax ==> !pass(h, q, d)
    }

    /** ... at the pointer `k` steps after v0. */
    ghost predicate DeadAt(origin: int, v0: int, k: int, d: int)
      requires cfg.vfifoSize >= 1
    {
      Dead(Pointer(origin, v0 + k), d)
    }

    /** Step 2, inner loop: the first working phase at this VFIFO pointer and delay. */
    method TryPhases(workBgn0: nat) returns (p: nat, workBgn: nat)
      requires Valid()
      modifies this`phase, this`phases
      ensures Valid() && 1 <= p <= cfg.phaseMax + 1
      ensures if p <= cfg.phaseMax then phase == p && pass(vfifo, p, delay) else Dead(vfifo, delay)
      ensures forall q :: 1 <= q < p ==> !pass(vfifo, q, delay)
      ensures workBgn == workBgn0 + Times(p, cfg.opa)
    {
      p, workBgn := 0, workBgn0;
      while p <= cfg.phaseMax
        invariant 0 <= p <= cfg.phaseMax + 1 && Valid()
        invariant forall q :: 1 <= q < p ==> !pass(vfifo, q, delay)
        invariant workBgn == workBgn0 + Times(p, cfg.opa)
      {
        if p != 0 {
          SetPhase(p);
          var ok := ReadTest();
          if ok {
            return;
          }
        }
        p := p + 1;
        workBgn := workBgn + cfg.opa;
      }
    }

    /** Step 2, middle loop: all VFIFO pointers at one delay. */
    method TryPointers(v0: int, d: nat, ghost origin: int) returns (i: nat, p: nat, v: int, workBgn: nat)
      requires Valid() && Synced(v0, origin) && delay == d
      modifies this`phase, this`phases, this`vfifo
      ensures Valid() && Synced(v, origin) && i <= cfg.vfifoSize && v == v0 + i
      ensures i < cfg.vfifoSize ==> 1 <= p <= cfg.phaseMax && phase == p && pass(vfifo, p, d)
      ensures i < cfg.vfifoSize ==> workBgn == cfg.Time(i, p, d) && forall q :: 1 <= q < p ==> !pass(vfifo, q, d)
      ensures forall k :: 0 <= k < i ==> DeadAt(origin, v0, k, d)
    {
      i, p, v, workBgn := 0, 0, v0, Times(d, cfg.tap);
      while i < cfg.vfifoSize
        invariant i <= cfg.vfifoSize && Valid() && v == v0 + i && Synced(v, origin)
        invariant workBgn == cfg.Time(i, 0, d)
        invariant forall k :: 0 <= k < i ==> DeadAt(origin, v0, k, d)
        decreases cfg.vfifoSize - i
      {
        p, workBgn := TryPhases(workBgn);
        if p <= cfg.phaseMax {
          return;
        }
        assert DeadAt(origin, v0, i, d);
        v := IncrVfifo(v, origin);
        i := i + 1;
      }
    }

    /** The first working setting of the search that starts at pointer `base`: phases run fastest,
        then VFIFO steps, then delays. */
    ghost predicate IsFirst(base: int, i: nat, p: nat, d: nat)
      requires cfg.vfifoSize >= 1
    {
      && i < cfg.vfifoSize && 1 <= p <= cfg.phaseMax && pass(Pointer(base, i), p, d)
      && (forall e, k :: 0 <= e < d && 0 <= k < cfg.vfifoSize ==> DeadAt(0, base, k, e))
      && (forall k :: 0 <= k < i ==> DeadAt(0, base, k, d))
      && (forall q :: 1 <= q < p ==> !pass(Pointer(base, i), q, d))
    }

    /** Step 2: the first working setting. */
    method FindWorking(v0: int, dtaps: int, ghost origin: int)
      returns (found: bool, i: nat, p: nat, d: nat, v: int, workBgn: nat)
      requires Valid() && Synced(v0, origin) && 0 <= dtaps <= cfg.delayMax
      modifies this`phase, this`phases, this`delay, this`delays, this`vfifo
      ensures Valid() && Synced(v, origin)
      ensures found ==> d <= dtaps && phase == p && delay == d && workBgn == cfg.Time(i, p, d)
      ensures found ==> vfifo == Pointer(origin + v0, i) && IsFirst(origin + v0, i, p, d)
      ensures !found ==> var base := origin + v0;
        forall e, k :: 0 <= e <= dtaps && 0 <= k < cfg.vfifoSize ==> DeadAt(0, base, k, e)
    {
      found, i, p, d, v, workBgn := false, 0, 0, 0, v0, 0;
      ghost var base := origin + v0;
      assert v == v0 + Times(0, cfg.vfifoSize);
      while d <= dtaps
        invariant d <= dtaps + 1 && Valid() && Synced(v, origin)
        invariant Rounds(v0, v)
        invariant forall e, k :: 0 <= e < d && 0 <= k < cfg.vfifoSize ==> DeadAt(0, base, k, e)
        decreases dtaps - d
      {
        SetDelay(d);
        ghost var v1 := v;
        i, p, v, workBgn := TryPointers(v, d, origin);
        forall k | 0 <= k < i
          ensures DeadAt(0, base, k, d)
        {
          assert DeadAt(origin, v1, k, d);
          SameAfterRounds(origin, v0, v1, k);
        }
        if i < cfg.vfifoSize {
          SameAfterRounds(origin, v0, v1, i);
          found := true;
          return;
        }
        RoundsAgain(v0, v1);
        d := d + 1;
      }
    }

    /** v is a whole number of rounds after v0. */
    ghost predicate Rounds(v0: int, v: int)
      requires cfg.vfifoSize >= 1
    {
      exists n: nat :: v == v0 + Times(n, cfg.vfifoSize)
    }

    lemma RoundsAgain(v0: int, v: int)
      requires cfg.vfifoSize >= 1 && Rounds(v0, v)
      ensures Rounds(v0, v + cfg.vfifoSize)
    {
      var n: nat :| v == v0 + Times(n, cfg.vfifoSize);
      assert v + cfg.vfifoSize == v0 + Times(n + 1, cfg.vfifoSize);
    }

    lemma SameAfterRounds(origin: int, v0: int, v: int, k: int)
      requires cfg.vfifoSize >= 1 && Rounds(v0, v)
      ensures Pointer(origin, v + k) == Pointer(origin + v0, k)
    {
      var n: nat :| v == v0 + Times(n, cfg.vfifoSize);
      RoundsKeepPointer(origin, v0 + k, n);
    }

    lemma {:induction false} RoundsKeepPointer(origin: int, k: int, n: nat)
      requires cfg.vfifoSize >= 1
      ensures Pointer(origin, k + Times(n, cfg.vfifoSize)) == Pointer(origin, k)
    {
      if n > 0 {
        RoundsKeepPointer(origin, k, n - 1);
        PointerPeriod(origin, k + Times(n - 1, cfg.vfifoSize));
      }
    }

    lemma NextPointer(base: int, j: int)
      requires cfg.vfifoSize >= 1
      ensures Pointer(base, j + 1) == if Pointer(base, j) + 1 == cfg.vfifoSize then 0 else Pointer(base, j) + 1
    {
      ModNext(base + j, cfg.vfifoSize);
    }

    /** One phase back; below phase 0 lies the last phase of the previous VFIFO pointer. */
    method BackUpPhase(p: nat, v: int, ghost origin: int, ghost base: int, ghost j: int)
      returns (p': nat, v': int, ghost j': int)
      requires Valid() && Synced(v, origin) && p <= cfg.phaseMax && vfifo == Pointer(base, j)
      modifies this`vfifo
      ensures Valid() && Synced(v', origin) && p' <= cfg.phaseMax && vfifo == Pointer(base, j')
      ensures if p == 0 then p' == cfg.phaseMax && j' == j - 1 else p' == p - 1 && j' == j
    {
      if p == 0 {
        p', j' := cfg.phaseMax, j - 1;
        PointerPeriod(base, j - 1);
        PointerShift(origin, v, base, j, cfg.vfifoSize - 1);
        v' := DecrVfifo(v, origin);
      } else {
        p', v', j' := p - 1, v, j;
      }
    }

    /** Two ways to count that agree now agree after any number of further steps. */
    lemma {:induction false} PointerShift(a: int, j: int, b: int, k: int, n: nat)
      requires cfg.vfifoSize >= 1 && Pointer(a, j) == Pointer(b, k)
      ensures Pointer(a, j + n) == Pointer(b, k + n)
    {
      if n > 0 {
        PointerShift(a, j, b, k, n - 1);
        NextPointer(a, j + n - 1);
        NextPointer(b, k + n - 1);
      }
    }

    /** One phase forward, wrapping into the next VFIFO pointer. */
    method AdvancePhase(p: nat, v: int, ghost origin: int, ghost base: int, ghost j: int)
      returns (p': nat, v': int, ghost j': int)
      requires Valid() && Synced(v, origin) && p <= cfg.phaseMax && vfifo == Pointer(base, j)
      modifies this`vfifo
      ensures Valid() && Synced(v', origin) && p' <= cfg.phaseMax && vfifo == Pointer(base, j')
      ensures if p == cfg.phaseMax then p' == 0 && j' == j + 1 else p' == p + 1 && j' == j
    {
      p', v', j' := p + 1, v, j;
      if p' > cfg.phaseMax {
        p', j' := 0, j + 1;
        NextPointer(base, j);
        v' := IncrVfifo(v, origin);
      }
    }

    /** Delay e of this phase, worth less than a phase tap, is the first to work. */
    ghost predicate IsFirstDelay(h: int, p: nat, e: nat) {
      e <= cfg.delayMax && Times(e, cfg.tap) < cfg.opa && pass(h, p, e) && forall f :: 0 <= f < e ==> !pass(h, p, f)
    }

    /** ... or none does. */
    ghost predicate NoDelay(h: int, p: nat) {
      forall f :: 0 <= f <= cfg.delayMax && Times(f, cfg.tap) < cfg.opa ==> !pass(h, p, f)
    }

    /** The start of a window whose first working setting is phase p at delay 0: if the phase before
        is legal and works at some delay, the first of these. */
    ghost predicate IsBegin(base: int, i: nat, p: nat, t: nat)
      requires cfg.vfifoSize >= 1 && p >= 1
    {
      var h, prev := Pointer(base, i), p - 1;
      || (prev > 0 && exists e: nat :: IsFirstDelay(h, prev, e) && t == cfg.Time(i, prev, e))
      || ((prev == 0 || NoDelay(h, prev)) && t == cfg.Time(i, p, 0))
    }

    /** Step 3a: back off one phase and look for an earlier start in delay taps. */
    method RefineBegin(p0: nat, v0: int, i: nat, workBgn0: nat, ghost origin: int, ghost base: int)
      returns (p: nat, v: int, workBgn: nat)
      requires Valid() && Synced(v0, origin) && 1 <= p0 <= cfg.phaseMax && vfifo == Pointer(base, i)
      requires workBgn0 == cfg.Time(i, p0, 0) && pass(vfifo, p0, 0)
      modifies this`phase, this`phases, this`delay, this`delays, this`vfifo
      ensures Valid() && Synced(v, origin) && vfifo == old(vfifo)
      ensures p == if p0 == 1 then 1 else p0 - 1
      ensures 0 < workBgn <= workBgn0 && IsBegin(base, i, p0, workBgn)
    {
      workBgn := workBgn0;
      ghost var j;
      p, v, j := BackUpPhase(p0, v0, origin, base, i);
      var tmpDelay := workBgn - cfg.opa;
      if p == 0 {
        p := 1;
        tmpDelay := workBgn;
      }
      SetPhase(p);
      var d := 0;
      while d <= cfg.delayMax && tmpDelay < workBgn
        invariant 0 <= d <= cfg.delayMax + 1 && Valid() && vfifo == old(vfifo) && phase == p
        invariant p0 > 1 ==> tmpDelay == cfg.Time(i, p, d)
        invariant p0 == 1 ==> tmpDelay == workBgn
        invariant forall f :: 0 <= f < d ==> !pass(vfifo, p, f)
        decreases cfg.delayMax - d
      {
        SetDelay(d);
        var ok := ReadTest();
        if ok {
          assert IsFirstDelay(vfifo, p, d);
          workBgn := tmpDelay;
          return;
        }
        d := d + 1;
        tmpDelay := tmpDelay + cfg.tap;
      }
      if p0 > 1 {
        NoDelayBelow(vfifo, p, d);
      }
    }

    /** All delays worth less than a phase tap were tried. */
    lemma NoDelayBelow(h: int, p: nat, d: nat)
      requires cfg.Valid() && (d > cfg.delayMax || Times(d, cfg.tap) >= cfg.opa)
      requires forall f :: 0 <= f < d ==> !pass(h, p, f)
      ensures NoDelay(h, p)
    {
      forall f: nat | f <= cfg.delayMax && Times(f, cfg.tap) < cfg.opa
        ensures !pass(h, p, f)
      {
        if d <= f {
          TimesGrows(d, f, cfg.tap);
        }
      }
    }

    /** Every legal phase works at this pointer. */
    ghost predicate AllWork(h: int) {
      PhasesWork(h, 1, cfg.phaseMax + 1)
    }

    /** The legal phases lo..hi-1 work at this pointer and delay 0. */
    ghost predicate PhasesWork(h: int, lo: int, hi: int) {
      forall q :: 1 <= q && lo <= q < hi ==> pass(h, q, 0)
    }

    /** Every legal phase works at delay 0 from phase p0 of step j0 on, up to but without phase p of
        step j. */
    ghost predicate WorksUpTo(base: int, j0: nat, p0: nat, j: nat, p: nat)
      requires cfg.vfifoSize >= 1
    {
      if j == j0 then p0 <= p && PhasesWork(Pointer(base, j0), p0, p)
      else
        && j0 < j && PhasesWork(Pointer(base, j0), p0, cfg.phaseMax + 1) && PhasesWork(Pointer(base, j), 1, p)
        && forall k: nat :: j0 < k < j ==> AllWork(Pointer(base, k))
    }

    lemma WorksFurther(base: int, j0: nat, p0: nat, j: nat, p: nat, p': nat)
      requires cfg.vfifoSize >= 1 && p0 <= cfg.phaseMax && p <= p' && (j == j0 ==> p0 <= p)
      requires WorksUpTo(base, j0, p0, j, p) && PhasesWork(Pointer(base, j), p, p')
      ensures WorksUpTo(base, j0, p0, j, p')
      ensures p' == cfg.phaseMax + 1 ==> WorksUpTo(base, j0, p0, j + 1, 0)
    {
      var h := Pointer(base, j);
      forall q | 1 <= q && (if j == j0 then p0 else 1) <= q < p'
        ensures pass(h, q, 0)
      {
        if q < p {
          assert PhasesWork(h, if j == j0 then p0 else 1, p);
        }
      }
    }

    /** A failing phase ends it. */
    lemma WorksNoFurther(base: int, j0: nat, p0: nat, j: nat, p: nat, j': nat)
      requires cfg.vfifoSize >= 1 && WorksUpTo(base, j0, p0, j, p) && 1 <= p <= cfg.phaseMax
      requires !pass(Pointer(base, j), p, 0) && j < j'
      ensures !WorksUpTo(base, j0, p0, j', 0)
    {
      assert !AllWork(Pointer(base, j));
    }

    /** Step 4a, inner loop: phases upwards at delay 0 until a read fails. Phase 0 is skipped as if
        it worked. */
    method PassWorkingPhases(p0: nat, workEnd0: nat) returns (p: nat, workEnd: nat)
      requires Valid() && p0 <= cfg.phaseMax && delay == 0
      modifies this`phase, this`phases
      ensures Valid() && p0 <= p <= cfg.phaseMax + 1
      ensures workEnd + Times(p0, cfg.opa) == workEnd0 + Times(p, cfg.opa)
      ensures workEnd >= workEnd0 + if p0 == 0 then cfg.opa else 0
      ensures p <= cfg.phaseMax ==> p >= 1 && phase == p && !pass(vfifo, p, 0)
      ensures PhasesWork(vfifo, p0, p)
    {
      p, workEnd := p0, workEnd0;
      while p <= cfg.phaseMax
        invariant p0 <= p <= cfg.phaseMax + 1 && Valid()
        invariant workEnd + Times(p0, cfg.opa) == workEnd0 + Times(p, cfg.opa)
        invariant workEnd >= workEnd0 + if p0 == 0 && p > 0 then cfg.opa else 0
        invariant PhasesWork(vfifo, p0, p)
      {
        if p != 0 {
          SetPhase(p);
          var ok := ReadTest();
          if !ok {
            return;
          }
        }
        p := p + 1;
        workEnd := workEnd + cfg.opa;
      }
    }

    method IncrPointer(v: int, ghost origin: int, ghost base: int, ghost j: nat) returns (v': int)
      requires Valid() && Synced(v, origin) && vfifo == Pointer(base, j)
      modifies this`vfifo
      ensures Valid() && Synced(v', origin) && vfifo == Pointer(base, j + 1)
    {
      NextPointer(base, j);
      v' := IncrVfifo(v, origin);
    }

    lemma TimeWraps(j: nat)
      ensures cfg.Time(j, cfg.phaseMax + 1, 0) == cfg.Time(j + 1, 0, 0)
    {
    }

    /** Step 4a: go forward in phases from the working one to the first that fails. `lag` is how far
        work_end runs behind the nominal time of (j, p). */
    method FindFailingPhase(i0: nat, p0: nat, v0: int, workEnd0: nat, ghost origin: int, ghost base: int,
                            ghost j0: nat, ghost lag: nat)
      returns (found: bool, p: nat, v: int, workEnd: nat, ghost j: nat)
      requires Valid() && Synced(v0, origin) && p0 <= cfg.phaseMax && p0 != 1 && i0 < cfg.vfifoSize
      requires vfifo == Pointer(base, j0) && delay == 0 && workEnd0 + lag == cfg.Time(j0, p0, 0)
      modifies this`phase, this`phases, this`vfifo
      ensures Valid() && Synced(v, origin) && vfifo == Pointer(base, j)
      ensures found ==>
        && 1 <= p <= cfg.phaseMax && !pass(vfifo, p, 0)
        && workEnd + lag == cfg.Time(j, p, 0) && j >= j0 && (p == 1 ==> j > j0 || p0 == 0)
        && workEnd >= workEnd0 + (if p == 1 then cfg.opa else 0)
        && WorksUpTo(base, j0, p0, j, p) && j < j0 + cfg.vfifoSize + 1 - i0
      ensures !found ==> WorksUpTo(base, j0, p0, j0 + cfg.vfifoSize + 1 - i0, 0)
    {
      found, p, v, workEnd, j := false, p0, v0, workEnd0, j0;
      var i := i0;
      while i < cfg.vfifoSize + 1
        invariant i0 <= i <= cfg.vfifoSize + 1 && j >= j0 && (i > i0 ==> p == 0 && j > j0)
        invariant Valid() && Synced(v, origin) && vfifo == Pointer(base, j)
        invariant p <= cfg.phaseMax && p != 1 && workEnd >= workEnd0 && workEnd + lag == cfg.Time(j, p, 0)
        invariant i == i0 ==> p == p0 && j == j0
        invariant WorksUpTo(base, j0, p0, j, p) && i - i0 == j - j0
        decreases cfg.vfifoSize + 1 - i
      {
        ghost var from := p;
        p, workEnd := PassWorkingPhases(p, workEnd);
        WorksFurther(base, j0, p0, j, from, p);
        if p <= cfg.phaseMax {
          found := true;
          return;
        }
        v := IncrPointer(v, origin, base, j);
        TimeWraps(j);
        p, i, j := 0, i + 1, j + 1;
      }
    }

    /** Step 5a: one legal phase back from the first that fails. */
    method BackOffEnd(p0: nat, v0: int, workEnd0: nat, ghost origin: int, ghost base: int, ghost j0: nat,
                      ghost lag: nat)
      returns (p: nat, v: int, workEnd: nat, ghost j: int)
      requires Valid() && Synced(v0, origin) && 1 <= p0 <= cfg.phaseMax && vfifo == Pointer(base, j0)
      requires workEnd0 + lag == cfg.Time(j0, p0, 0) && (p0 == 1 ==> j0 >= 1)
      requires workEnd0 >= if p0 == 1 then 2 * cfg.opa else cfg.opa
      modifies this`phase, this`phases, this`vfifo
      ensures Valid() && Synced(v, origin) && 1 <= p <= cfg.phaseMax && phase == p
      ensures 0 <= j && vfifo == Pointer(base, j) && workEnd + lag == cfg.Time(j, p, 0)
      ensures if p0 == 1 then p == cfg.phaseMax && j == j0 - 1 else p == p0 - 1 && j == j0
      ensures workEnd == workEnd0 - if p0 == 1 then 2 * cfg.opa else cfg.opa
    {
      p, workEnd := p0, workEnd0;
      if p == 1 {
        p := 0;
        workEnd := workEnd - cfg.opa;
        TimeWraps(j0 - 1);
      }
      p, v, j := BackUpPhase(p, v0, origin, base, j0);
      workEnd := workEnd - cfg.opa;
      SetPhase(p);
    }

    /** Steps 3a to 5a: both ends of a window that covers a phase tap. The last working phase, at
        delay 0, is left programmed. */
    method EdgesByPhase(i: nat, p0: nat, v0: int, workBgn0: nat, ghost origin: int, ghost base: int)
      returns (found: bool, p: nat, v: int, workBgn: nat, workEnd: nat, ghost j: int)
      requires Valid() && Synced(v0, origin) && 1 <= p0 <= cfg.phaseMax && i < cfg.vfifoSize
      requires vfifo == Pointer(base, i) && workBgn0 == cfg.Time(i, p0, 0) && pass(vfifo, p0, 0)
      modifies this`phase, this`phases, this`delay, this`delays, this`vfifo
      ensures Valid() && Synced(v, origin)
      ensures found ==>
        && 1 <= p <= cfg.phaseMax && phase == p && 0 <= j && vfifo == Pointer(base, j)
        && 0 < workBgn <= workEnd && IsBegin(base, i, p0, workBgn)
        && workEnd + Lag(cfg, p0, 0) == cfg.Time(j, p, 0) && IsLastPhase(base, i, p0, j, p) && !NoEnd(base, i, p0)
      ensures !found ==> NoEnd(base, i, p0)
    {
      p, v, workBgn := RefineBegin(p0, v0, i, workBgn0, origin, base);
      found, p, v, workEnd, j := EndByPhase(i, p0, p, v, workBgn0, origin, base);
    }

    /** Steps 4a and 5a: the last working phase. */
    method EndByPhase(i: nat, p0: nat, p1: nat, v0: int, workEnd0: nat, ghost origin: int, ghost base: int)
      returns (found: bool, p: nat, v: int, workEnd: nat, ghost j: int)
      requires Valid() && Synced(v0, origin) && 1 <= p0 <= cfg.phaseMax && p1 == (if p0 == 1 then 1 else p0 - 1)
      requires vfifo == Pointer(base, i) && workEnd0 == cfg.Time(i, p0, 0) && i < cfg.vfifoSize
      modifies this`phase, this`phases, this`delay, this`delays, this`vfifo
      ensures Valid() && Synced(v, origin) && found == !NoEnd(base, i, p0)
      ensures found ==>
        && 1 <= p <= cfg.phaseMax && phase == p && 0 <= j && vfifo == Pointer(base, j) && workEnd0 <= workEnd
        && workEnd + Lag(cfg, p0, 0) == cfg.Time(j, p, 0) && IsLastPhase(base, i, p0, j, p)
    {
      p, v, workEnd, j := StepPastFirst(p0, p1, v0, i, workEnd0, origin, base);
      ghost var lag, j', p' := Lag(cfg, p0, 0), j, p;
      found, p, v, workEnd, j := FindFailingPhase(i, p, v, workEnd, origin, base, j, lag);
      if found {
        j', p' := j, p;
        p, v, workEnd, j := BackOffEnd(p, v, workEnd, origin, base, j, lag);
        LastPhaseFound(base, i, p0, j, p, j', p');
      }
    }

    lemma LastPhaseFound(base: int, i: nat, p0: nat, j: nat, q: nat, j': nat, p: nat)
      requires cfg.Valid() && i < cfg.vfifoSize && 1 <= p <= cfg.phaseMax && !pass(Pointer(base, j'), p, 0)
      requires if p == 1 then q == cfg.phaseMax && j == j' - 1 else q == p - 1 && j == j'
      requires WorksUpTo(base, StartStep(i, p0), StartPhase(p0), j', p) && j' < EndStep(i, p0)
      ensures IsLastPhase(base, i, p0, j, q) && !NoEnd(base, i, p0)
    {
      WorksNoFurther(base, StartStep(i, p0), StartPhase(p0), j', p, EndStep(i, p0));
    }

    /** The search for the end starts two phases after the one before p0, but never below phase 1. */
    function StartPhase(p0: nat): nat {
      var q := if p0 == 1 then 3 else p0 + 1;
      if q > cfg.phaseMax then 0 else q
    }

    function StartStep(i: nat, p0: nat): nat { if StartPhase(p0) == 0 then i + 1 else i }

    /** The step before which it gives up: it shares its counter with step 2. */
    function EndStep(i: nat, p0: nat): int { StartStep(i, p0) + cfg.vfifoSize + 1 - i }

    /** No legal phase that the search looks at fails. */
    ghost predicate NoEnd(base: int, i: nat, p0: nat)
      requires i < cfg.vfifoSize
    {
      WorksUpTo(base, StartStep(i, p0), StartPhase(p0), EndStep(i, p0), 0)
    }

    /** That is: no phase fails that lies at least two above the one before p0, and none of any of the next
        pointers, until the number of steps from the start of the whole search exceeds the VFIFO size. */
    lemma NoEndIff(base: int, i: nat, p0: nat)
      requires i < cfg.vfifoSize && p0 >= 1
      ensures var q0 := if p0 == 1 then 3 else p0 + 1;
              NoEnd(base, i, p0) <==>
                && (forall q :: q0 <= q <= cfg.phaseMax ==> pass(Pointer(base, i), q, 0))
                && forall k: nat :: i < k <= (if q0 > cfg.phaseMax then cfg.vfifoSize + 1 else cfg.vfifoSize) ==>
                     AllWork(Pointer(base, k))
    {
      var j0, s := StartStep(i, p0), StartPhase(p0);
      if s == 0 {
        assert PhasesWork(Pointer(base, j0), 0, cfg.phaseMax + 1) <==> AllWork(Pointer(base, j0));
      }
    }

    /** Then some VFIFO pointer works at every legal phase. */
    lemma NoEndMeansAllWork(base: int, i: nat, p0: nat)
      requires i < cfg.vfifoSize && NoEnd(base, i, p0)
      ensures exists h :: 0 <= h < cfg.vfifoSize && AllWork(h)
    {
      var k := StartStep(i, p0) + 1;
      assert AllWork(Pointer(base, k));
    }

    /** The legal phase after phase q of step j is the first to fail. */
    ghost predicate IsLastPhase(base: int, i: nat, p0: nat, j: nat, q: nat)
      requires cfg.vfifoSize >= 1
    {
      var j', p := if q == cfg.phaseMax then j + 1 else j, if q == cfg.phaseMax then 1 else q + 1;
      WorksUpTo(base, StartStep(i, p0), StartPhase(p0), j', p) && !pass(Pointer(base, j'), p, 0)
    }

    /** When phase 1 was the first to work, phase 2 is not looked at: the end is lost if it fails and
        the next legal phase fails too. */
    ghost predicate LosesEnd(base: int, i: nat)
      requires cfg.vfifoSize >= 1
    {
      && !pass(Pointer(base, i), 2, 0)
      && !pass(Pointer(base, StartStep(i, 1)), if StartPhase(1) == 0 then 1 else StartPhase(1), 0)
    }

    /** So the phase settled on works, unless the end is lost. */
    lemma LastPhaseWorks(base: int, i: nat, p0: nat, j: nat, q: nat)
      requires cfg.Valid() && 1 <= p0 <= cfg.phaseMax && 1 <= q <= cfg.phaseMax
      requires pass(Pointer(base, i), p0, 0) && IsLastPhase(base, i, p0, j, q)
      ensures pass(Pointer(base, j), q, 0) <==> !(p0 == 1 && LosesEnd(base, i))
      ensures p0 == 1 && LosesEnd(base, i) ==> j == i && q == 2
    {
      var j0, s := StartStep(i, p0), StartPhase(p0);
      var j', p := if q == cfg.phaseMax then j + 1 else j, if q == cfg.phaseMax then 1 else q + 1;
      var first := if s == 0 then 1 else s;
      if j' == j0 && p == first {
        assert j == i && q == if p0 == 1 then 2 else p0;
      } else {
        EarlierPhaseWorks(base, j0, s, j', p, j0, first);
        EarlierPhaseWorks(base, j0, s, j', p, j, q);
      }
    }

    lemma EarlierPhaseWorks(base: int, j0: nat, p0: nat, j': nat, p': nat, j: nat, p: nat)
      requires cfg.vfifoSize >= 1 && WorksUpTo(base, j0, p0, j', p') && 1 <= p <= cfg.phaseMax
      requires (j0 < j || (j0 == j && p0 <= p)) && (j < j' || (j == j' && p < p'))
      ensures pass(Pointer(base, j), p, 0)
    {
      if j0 < j < j' {
        assert AllWork(Pointer(base, j));
      }
    }

    /** Between 3a and 4a: from the phase before the first working one, two phases forward. When
        phase 1 was the first to work the step back was not made, so this skips phase 2. */
    method StepPastFirst(p0: nat, p1: nat, v0: int, i: nat, workEnd0: nat, ghost origin: int, ghost base: int)
      returns (p: nat, v: int, workEnd: nat, ghost j: nat)
      requires Valid() && Synced(v0, origin) && 1 <= p0 <= cfg.phaseMax && p1 == (if p0 == 1 then 1 else p0 - 1)
      requires vfifo == Pointer(base, i) && workEnd0 == cfg.Time(i, p0, 0)
      modifies this`delay, this`delays, this`vfifo
      ensures Valid() && Synced(v, origin) && p <= cfg.phaseMax && p != 1 && delay == 0
      ensures vfifo == Pointer(base, j) && workEnd == workEnd0 + cfg.opa
      ensures workEnd + Lag(cfg, p0, 0) == cfg.Time(j, p, 0)
      ensures p == StartPhase(p0) && j == StartStep(i, p0)
    {
      p, v, j := AdvancePhase(p1, v0, origin, base, i);
      SetDelay(0);
      p, v, j := AdvancePhase(p, v, origin, base, j);
      workEnd := workEnd0 + cfg.opa;
      assert cfg.Time(i, p1 + 2, 0) == cfg.Time(i, p1 + 1, 0) + cfg.opa;
      if p == 0 {
        TimeWraps(i);
      }
    }

    /** The right edge in delay taps, shared by both cases: from a delay that works, or from 0, up to
        the first that fails, and one tap back. */
    method RightEdge(d0: nat, workEnd0: nat) returns (d: nat, workEnd: nat)
      requires Valid() && d0 <= cfg.delayMax && (d0 > 0 ==> pass(vfifo, phase, d0))
      modifies this`delay, this`delays
      ensures Valid() && d0 <= d <= cfg.delayMax + 1
      ensures forall e :: d0 <= e < d ==> pass(vfifo, phase, e)
      ensures d <= cfg.delayMax ==> !pass(vfifo, phase, d)
      ensures if pass(vfifo, phase, d0) then d > 0 && d - 1 == LastDelay(vfifo, phase, d0) else d == 0
      ensures workEnd + Times(d0, cfg.tap) == workEnd0 + Times(if d == 0 then 0 else d - 1, cfg.tap)
      ensures workEnd >= workEnd0
    {
      d, workEnd := d0, workEnd0;
      while d <= cfg.delayMax
        invariant d0 <= d <= cfg.delayMax + 1 && Valid()
        invariant forall e :: d0 <= e < d ==> pass(vfifo, phase, e)
        invariant workEnd >= workEnd0 + if d > d0 then cfg.tap else 0
        invariant workEnd + Times(d0, cfg.tap) == workEnd0 + Times(d, cfg.tap)
      {
        SetDelay(d);
        var ok := ReadTest();
        if !ok {
          break;
        }
        d := d + 1;
        workEnd := workEnd + cfg.tap;
      }
      if d != 0 {
        workEnd := workEnd - cfg.tap;
      }
      EdgeIsLastDelay(vfifo, phase, d0, d);
    }

    lemma EdgeIsLastDelay(h: int, p: nat, d0: nat, d: nat)
      requires d0 <= d <= cfg.delayMax + 1 && d0 <= cfg.delayMax && (d0 > 0 ==> pass(h, p, d0))
      requires (forall e :: d0 <= e < d ==> pass(h, p, e)) && (d <= cfg.delayMax ==> !pass(h, p, d))
      ensures if pass(h, p, d0) then d > 0 && d - 1 == LastDelay(h, p, d0) else d == 0
    {
      if pass(h, p, d0) {
        LastDelayIs(h, p, d0, d - 1);
      }
    }

    /** Delay f fails, and a delay from d on before it works. */
    ghost predicate FallsAt(h: int, p: nat, d: int, f: int) {
      f <= cfg.delayMax && !pass(h, p, f) && exists e :: d <= e < f && pass(h, p, e)
    }

    /** n delay taps lead from d to the first such failure; without one, n is `dtaps`. */
    ghost predicate IsTapCount(h: int, p: nat, d: int, n: int, dtaps: int) {
      || (0 <= n && FallsAt(h, p, d, d + n) && forall f :: f < d + n ==> !FallsAt(h, p, d, f))
      || (n == dtaps && forall f :: !FallsAt(h, p, d, f))
    }

    /** For the tracking hardware: back up a phase and count the delay taps to the first failure after
        a working delay; without one, fall back on the static value. */
    method MeasureDtaps(p0: nat, d0: nat, v0: int, dtaps: nat, ghost origin: int, ghost base: int, ghost j: int)
      returns (v: int)
      requires Valid() && Synced(v0, origin) && 1 <= p0 <= cfg.phaseMax && dtaps <= cfg.delayMax
      requires vfifo == Pointer(base, j)
      modifies this`phase, this`phases, this`delay, this`delays, this`vfifo, this`dtapsPerPtap
      ensures Valid() && Synced(v, origin) && 0 <= dtapsPerPtap <= cfg.delayMax
      ensures vfifo == Pointer(base, StepBefore(j, p0))
      ensures IsTapCount(vfifo, PhaseBefore(p0), d0, dtapsPerPtap, dtaps)
    {
      var p;
      ghost var k := j;
      if p0 == 0 || p0 == 1 {
        p, v, k := BackUpPhase(0, v0, origin, base, j);
      } else {
        p, v := p0 - 1, v0;
      }
      SetPhase(p);
      dtapsPerPtap := CountToEdge(d0, dtaps);
    }

    /** The legal phase before: before phase 1, the last one of the step before. */
    function PhaseBefore(q: nat): nat
      requires q >= 1
    {
      if q == 1 then cfg.phaseMax else q - 1
    }

    function StepBefore(j: int, q: nat): int { if q == 1 then j - 1 else j }

    method CountToEdge(d0: nat, dtaps: nat) returns (n: nat)
      requires Valid() && dtaps <= cfg.delayMax
      modifies this`delay, this`delays
      ensures Valid() && n <= cfg.delayMax
      ensures IsTapCount(vfifo, phase, d0, n, dtaps)
    {
      var d, foundPass, foundFail := d0, false, false;
      while d <= cfg.delayMax
        invariant d0 <= d && Valid() && (d > d0 ==> d <= cfg.delayMax + 1) && !foundPass
        invariant forall e :: d0 <= e < d ==> !pass(vfifo, phase, e)
      {
        SetDelay(d);
        foundPass := ReadTest();
        if foundPass {
          break;
        }
        d := d + 1;
      }
      if foundPass {
        foundFail, d := FindFall(d0, d);
      }
      n := if foundPass && foundFail then d - d0 else dtaps;
    }

    /** From a working delay, the first of those from d0 on that works, up to the first failure. */
    method FindFall(ghost d0: nat, first: nat) returns (found: bool, d: nat)
      requires Valid() && d0 <= first <= cfg.delayMax && pass(vfifo, phase, first)
      requires forall e :: d0 <= e < first ==> !pass(vfifo, phase, e)
      modifies this`delay, this`delays
      ensures Valid()
      ensures found ==> d >= d0 && FallsAt(vfifo, phase, d0, d) && forall f :: f < d ==> !FallsAt(vfifo, phase, d0, f)
      ensures !found ==> forall f :: !FallsAt(vfifo, phase, d0, f)
    {
      found, d := false, first + 1;
      while d <= cfg.delayMax
        invariant first < d <= cfg.delayMax + 1 && Valid() && !found
        invariant forall e :: first <= e < d ==> pass(vfifo, phase, e)
      {
        SetDelay(d);
        var ok := ReadTest();
        if !ok {
          found := true;
          assert FallsAt(vfifo, phase, d0, d) by { assert pass(vfifo, phase, first); }
          break;
        }
        d := d + 1;
      }
    }

    /** The setting chosen for a centre w. */
    predicate IsCentre(w: nat, p: nat, d: nat) {
      && 1 <= p <= cfg.phaseMax && d <= cfg.delayMax
      && if w <= cfg.opa then p == 1 && d == 0
         else
           && Times(p, cfg.opa) < w <= Times(p + 1, cfg.opa)
           && w <= Times(p, cfg.opa) + Times(d, cfg.tap) < w + cfg.tap
    }

    /** Whole VFIFO cycles are taken off the centre. */
    method ReduceCentre(workMid0: nat) returns (workMid: nat)
      requires Valid() && workMid0 > 0
      ensures workMid == cfg.Reduced(workMid0)
    {
      var tmpDelay := 0;
      workMid := workMid0;
      for i := 0 to cfg.phaseMax + 1
        invariant tmpDelay == Times(i, cfg.opa)
      {
        tmpDelay := tmpDelay + cfg.opa;
      }
      while workMid > tmpDelay
        invariant workMid > 0 && cfg.Reduced(workMid) == cfg.Reduced(workMid0)
        decreases workMid
      {
        workMid := workMid - tmpDelay;
      }
    }

    /** Step 6: the setting at the centre of the window. */
    method CentreSetting(workMid0: nat) returns (p: nat, d: nat)
      requires Valid() && workMid0 > 0
      ensures IsCentre(cfg.Reduced(workMid0), p, d)
    {
      var workMid := ReduceCentre(workMid0);
      var tmpDelay;
      p, tmpDelay := 0, 0;
      while p <= cfg.phaseMax && tmpDelay < workMid
        invariant p <= cfg.phaseMax + 1 && tmpDelay == Times(p, cfg.opa)
        invariant p > 0 ==> Times(p - 1, cfg.opa) < workMid
        decreases cfg.phaseMax + 1 - p
      {
        p := p + 1;
        tmpDelay := tmpDelay + cfg.opa;
      }
      tmpDelay := tmpDelay - cfg.opa;
      d := 0;
      while d <= cfg.delayMax && tmpDelay < workMid
        invariant d <= cfg.delayMax + 1 && tmpDelay == Times(p - 1, cfg.opa) + Times(d, cfg.tap)
        invariant d > 0 ==> Times(p - 1, cfg.opa) + Times(d - 1, cfg.tap) < workMid
        decreases cfg.delayMax + 1 - d
      {
        d := d + 1;
        tmpDelay := tmpDelay + cfg.tap;
      }
      if p == 1 {
        p, d := 2, 0;
      }
      p := p - 1;
    }

    /** The steps from v0 lead to every VFIFO pointer. */
    lemma EveryPointer(origin: int, v0: int, h: int) returns (k: int)
      requires 0 <= h < cfg.vfifoSize
      ensures 0 <= k < cfg.vfifoSize && Pointer(origin, v0 + k) == h
    {
      var n, y := cfg.vfifoSize, h - (origin + v0);
      k := y % n;
      assert origin + v0 + k == h - (y / n) * n == (-(y / n)) * n + h;
      ModUnique(origin + v0 + k, n, -(y / n), h);
    }

    ghost predicate FailsAt(origin: int, v0: int, k: int, p: int, d: int)
      requires cfg.vfifoSize >= 1
    {
      !pass(Pointer(origin, v0 + k), p, d)
    }

    /** Of the pointers from v0 steps after `origin` on, the one v steps after it is the first to work. */
    ghost predicate IsNextWorking(origin: int, v0: int, v: int, p: int, d: int)
      requires cfg.vfifoSize >= 1
    {
      && v0 <= v < v0 + cfg.vfifoSize && pass(Pointer(origin, v), p, d)
      && forall k :: 0 <= k < v - v0 ==> FailsAt(origin, v0, k, p, d)
    }

    /** Push the VFIFO until the centre setting works. */
    method PushToWorking(p: nat, d: nat, v0: int, ghost origin: int) returns (ok: bool, v: int)
      requires Valid() && Synced(v0, origin) && phase == p && delay == d
      modifies this`vfifo
      ensures Valid() && Synced(v, origin)
      ensures if ok then IsNextWorking(origin, v0, v, p, d) else forall h :: 0 <= h < cfg.vfifoSize ==> !pass(h, p, d)
    {
      ok, v := false, v0;
      for i := 0 to cfg.vfifoSize
        invariant Valid() && v == v0 + i && Synced(v, origin)
        invariant forall k :: 0 <= k < i ==> FailsAt(origin, v0, k, p, d)
      {
        ok := ReadTest();
        if ok {
          return;
        }
        assert FailsAt(origin, v0, i, p, d);
        v := IncrVfifo(v, origin);
      }
      forall h | 0 <= h < cfg.vfifoSize
        ensures !pass(h, p, d)
      {
        var k := EveryPointer(origin, v0, h);
        assert FailsAt(origin, v0, k, p, d);
      }
    }

    /** The last working delay of a phase, up from delay d, before the first failing one. */
    ghost function LastDelay(h: int, p: nat, d: nat): (e: nat)
      ensures d <= e && (d <= cfg.delayMax ==> e <= cfg.delayMax)
      ensures e >= cfg.delayMax || !pass(h, p, e + 1)
      ensures forall f :: d < f <= e ==> pass(h, p, f)
      decreases cfg.delayMax - d
    {
      if d < cfg.delayMax && pass(h, p, d + 1) then LastDelay(h, p, d + 1) else d
    }

    /** What the trail says of the end of the window. */
    ghost predicate IsEnd(t: Trail)
      requires cfg.vfifoSize >= 1
    {
      var h := Pointer(t.base, t.j);
      && 1 <= t.q <= cfg.phaseMax
      && if t.d > 0 then t.j == t.i && t.q == t.p && t.e == LastDelay(h, t.q, t.d)
         else IsLastPhase(t.base, t.i, t.p, t.j, t.q) && t.e == if pass(h, t.q, 0) then LastDelay(h, t.q, 0) else 0
    }

    /** The delay at which the search for the end stopped. */
    ghost function StopDelay(t: Trail): nat
      requires cfg.vfifoSize >= 1
    {
      if pass(Pointer(t.base, t.j), t.q, t.d) then t.e + 1 else 0
    }

    lemma LastDelayIs(h: int, p: nat, d: nat, e: nat)
      requires d <= e <= cfg.delayMax && (e == cfg.delayMax || !pass(h, p, e + 1))
      requires forall f :: d <= f <= e ==> pass(h, p, f)
      ensures e == LastDelay(h, p, d)
    {
      var l := LastDelay(h, p, d);
      assert l < e ==> pass(h, p, l + 1);
      assert e < l ==> pass(h, p, e + 1);
    }

    /** Both ends of the window as nominal times, whichever way it was found. */
    method FindEdges(i: nat, p0: nat, d0: nat, v0: int, workBgn0: nat, ghost origin: int, ghost base: int)
      returns (outcome: Outcome, p: nat, d: nat, v: int, workBgn: nat, workEnd: nat, ghost j: int, ghost e: nat)
      requires Valid() && Synced(v0, origin) && 1 <= p0 <= cfg.phaseMax && d0 <= cfg.delayMax && i < cfg.vfifoSize
      requires vfifo == Pointer(base, i)
      requires phase == p0 && workBgn0 == cfg.Time(i, p0, d0) && pass(vfifo, p0, d0)
      modifies this`phase, this`phases, this`delay, this`delays, this`vfifo
      ensures Valid() && Synced(v, origin) && (outcome == Found || outcome == NoEndEdge)
      ensures outcome == Found ==>
        && 1 <= p <= cfg.phaseMax && 0 < workBgn <= workEnd
        && (if d0 > 0 then workBgn == workBgn0 else IsBegin(base, i, p0, workBgn))
        && 0 <= j && IsEnd(Trail(base, i, p0, d0, j, p, e)) && workEnd + Lag(cfg, p0, d0) == cfg.Time(j, p, e)
        && d == StopDelay(Trail(base, i, p0, d0, j, p, e)) && vfifo == Pointer(base, j)
      ensures outcome == NoEndEdge <==> d0 == 0 && NoEnd(base, i, p0)
    {
      p, d, v, workBgn, workEnd, j, e := p0, d0, v0, workBgn0, workBgn0, i, 0;
      if d0 == 0 {
        var found;
        found, p, v, workBgn, workEnd, j := EdgesByPhase(i, p0, v0, workBgn0, origin, base);
        if !found {
          return NoEndEdge, p, d, v, workBgn, workEnd, j, e;
        }
      }
      d, workEnd := RightEdge(d, workEnd);
      outcome := if workEnd >= workBgn then Found else NilRange;
      e := if d == 0 then 0 else d - 1;
    }

    /** The greatest number of delay taps that is worth less than a phase tap. */
    predicate IsStaticTap(dtaps: int) {
      dtaps >= 0 && Times(dtaps, cfg.tap) < cfg.opa <= Times(dtaps + 1, cfg.tap)
    }

    /** No legal phase works at any pointer and any delay worth less than a phase tap. */
    ghost predicate NothingWorks() {
      forall h, d :: 0 <= h < cfg.vfifoSize && 0 <= d && Times(d, cfg.tap) < cfg.opa ==> Dead(h, d)
    }

    /** The search starts at the second failing pointer, and this is its first working setting. */
    ghost predicate Begins(origin: int, base: int, i: nat, p: nat, d: nat)
      requires cfg.vfifoSize >= 1
    {
      IsSecondFailure(origin, base - origin) && IsFirst(base, i, p, d) && Times(d, cfg.tap) < cfg.opa
    }

    /** Steps 0 to 2: a first working setting. */
    method FindBegin(ghost origin: int)
      returns (outcome: Outcome, dtaps: nat, i: nat, p: nat, d: nat, v: int, workBgn: nat, ghost base: int)
      requires Valid() && vfifo == origin && phase == 1 && delay == 0
      modifies this`phase, this`phases, this`delay, this`delays, this`vfifo
      ensures Valid() && Synced(v, origin) && IsStaticTap(dtaps) && dtaps < cfg.delayMax
      ensures outcome == Found ==>
        && d <= cfg.delayMax && phase == p && vfifo == Pointer(base, i) && Begins(origin, base, i, p, d)
        && workBgn == cfg.Time(i, p, d)
      ensures outcome == NoFailingRead <==> FewFail()
      ensures outcome == NoWorkingPhase ==> NothingWorks()
      ensures outcome == Found || outcome == NoFailingRead || outcome == NoWorkingPhase
    {
      i, p, d, workBgn, base := 0, 0, 0, 0, 0;
      dtaps := CountDtaps();
      var found;
      v, found := PushToFailing(origin);
      if !found {
        return NoFailingRead, dtaps, i, p, d, v, workBgn, base;
      }
      base := origin + v;
      found, i, p, d, v, workBgn := FindWorking(v, dtaps, origin);
      if !found {
        AllDead(base, dtaps);
        return NoWorkingPhase, dtaps, i, p, d, v, workBgn, base;
      }
      BelowStaticTap(d, dtaps);
      outcome := Found;
    }

    lemma BelowStaticTap(d: nat, dtaps: nat)
      requires IsStaticTap(dtaps) && d <= dtaps
      ensures Times(d, cfg.tap) < cfg.opa
    {
      TimesGrows(d, dtaps, cfg.tap);
    }

    /** Tracking and step 6, with the window known. */
    method SettleOnCentre(p0: nat, d0: nat, v0: int, dtaps: nat, workBgn: nat, workEnd: nat, ghost origin: int,
                          ghost base: int, ghost j: int)
      returns (outcome: Outcome, v: int)
      requires Valid() && Synced(v0, origin) && 1 <= p0 <= cfg.phaseMax && dtaps <= cfg.delayMax
      requires 0 < workBgn <= workEnd && vfifo == Pointer(base, j)
      modifies this`phase, this`phases, this`delay, this`delays, this`vfifo, this`dtapsPerPtap
      ensures Valid() && Synced(v, origin) && 0 <= dtapsPerPtap <= cfg.delayMax
      ensures IsCentre(cfg.Reduced((workBgn + workEnd) / 2), phase, delay)
      ensures IsTapCount(Pointer(base, StepBefore(j, p0)), PhaseBefore(p0), d0, dtapsPerPtap, dtaps)
      ensures outcome == Found || outcome == CentreFails
      ensures outcome == Found ==> NearestWorks(base, StepBefore(j, p0))
      ensures outcome == CentreFails ==> forall h :: 0 <= h < cfg.vfifoSize ==> !pass(h, phase, delay)
    {
      v := MeasureDtaps(p0, d0, v0, dtaps, origin, base, j);
      ghost var v1 := v;
      var p, d;
      p, d := CentreSetting((workBgn + workEnd) / 2);
      SetPhase(p);
      SetDelay(d);
      var ok;
      ok, v := PushToWorking(p, d, v, origin);
      outcome := if ok then Found else CentreFails;
      if ok {
        NearestByCount(base, StepBefore(j, p0), origin, v1, v);
      }
    }

    /** The pointer left is the first, from k0 steps after `base` on, at which the setting left works. */
    ghost predicate NearestWorks(base: int, k0: int)
      reads this
      requires cfg.vfifoSize >= 1
    {
      exists k :: IsNextWorking(base, k0, k, phase, delay) && vfifo == Pointer(base, k)
    }

    lemma NearestByCount(base: int, k0: int, origin: int, v0: int, v: int)
      requires cfg.vfifoSize >= 1 && Pointer(base, k0) == Pointer(origin, v0)
      requires IsNextWorking(origin, v0, v, phase, delay) && vfifo == Pointer(origin, v)
      ensures NearestWorks(base, k0)
    {
      var k := k0 + (v - v0);
      PointerShift(base, k0, origin, v0, v - v0);
      forall m: int | 0 <= m < v - v0
        ensures FailsAt(base, k0, m, phase, delay)
      {
        PointerShift(base, k0, origin, v0, m);
        assert FailsAt(origin, v0, m, phase, delay);
      }
      assert IsNextWorking(base, k0, k, phase, delay);
    }

    /** What is known of the window once its ends were measured: work_bgn is the time at which it starts;
        work_end is the time of the setting that the search settled on, one phase tap less when
        phase 1 at delay 0 was the first to work, because one step of the search is then not counted. */
    ghost predicate IsWindow(t: Trail, workBgn: nat, workEnd: nat)
      requires cfg.vfifoSize >= 1
    {
      && IsFirst(t.base, t.i, t.p, t.d) && 0 < workBgn <= workEnd
      && (if t.d > 0 then workBgn == cfg.Time(t.i, t.p, t.d) else IsBegin(t.base, t.i, t.p, workBgn))
      && IsEnd(t) && workEnd + Lag(cfg, t.p, t.d) == cfg.Time(t.j, t.q, t.e)
    }

    /** Phase q of step j is the last that works, from the first working setting on without a gap. */
    ghost predicate IsRunEnd(base: int, i: nat, p: nat, j: nat, q: nat)
      requires cfg.vfifoSize >= 1
    {
      var j', p' := if q == cfg.phaseMax then j + 1 else j, if q == cfg.phaseMax then 1 else q + 1;
      1 <= q <= cfg.phaseMax && WorksUpTo(base, i, p, j', p') && !pass(Pointer(base, j'), p', 0)
    }

    /** Where the window that begins at the first working setting ends, whatever the search does: at the
        last working delay of its last phase. */
    ghost predicate IsEndTime(t: Trail, end: nat)
      requires cfg.vfifoSize >= 1
    {
      if t.d > 0 then end == cfg.Time(t.i, t.p, LastDelay(Pointer(t.base, t.i), t.p, t.d))
      else exists j: nat, q: nat ::
        IsRunEnd(t.base, t.i, t.p, j, q) && end == cfg.Time(j, q, LastDelay(Pointer(t.base, j), q, 0))
    }

    lemma RunEndIsUnique(base: int, i: nat, p: nat, j: nat, q: nat, k: nat, r: nat)
      requires cfg.Valid() && 1 <= p <= cfg.phaseMax && IsRunEnd(base, i, p, j, q) && IsRunEnd(base, i, p, k, r)
      ensures j == k && q == r
    {
      var j', q' := if q == cfg.phaseMax then j + 1 else j, if q == cfg.phaseMax then 1 else q + 1;
      var k', r' := if r == cfg.phaseMax then k + 1 else k, if r == cfg.phaseMax then 1 else r + 1;
      if j' < k' || (j' == k' && q' < r') {
        EarlierPhaseWorks(base, i, p, k', r', j', q');
      } else if k' < j' || (k' == j' && r' < q') {
        EarlierPhaseWorks(base, i, p, j', q', k', r');
      }
    }

    /** One working phase more at the front. */
    lemma WorksFromBefore(base: int, j0: nat, p0: nat, j: nat, p: nat)
      requires cfg.vfifoSize >= 1 && 1 <= p0 <= cfg.phaseMax && pass(Pointer(base, j0), p0, 0)
      requires if p0 == cfg.phaseMax then WorksUpTo(base, j0 + 1, 0, j, p) else WorksUpTo(base, j0, p0 + 1, j, p)
      ensures WorksUpTo(base, j0, p0, j, p)
    {
      if p0 == cfg.phaseMax && j > j0 + 1 {
        forall k: nat | j0 < k < j
          ensures AllWork(Pointer(base, k))
        {
          assert k == j0 + 1 ==> PhasesWork(Pointer(base, k), 0, cfg.phaseMax + 1);
        }
      }
    }

    /** The phase that the search settled on is the last of the window, unless phase 2 was skipped and
        does not work; then phase 1 is the last. */
    lemma SettledOnRunEnd(t: Trail)
      requires cfg.Valid() && IsFirst(t.base, t.i, t.p, t.d) && t.d == 0 && IsEnd(t)
      ensures if t.p == 1 && !pass(Pointer(t.base, t.i), 2, 0) then IsRunEnd(t.base, t.i, t.p, t.i, 1)
              else IsRunEnd(t.base, t.i, t.p, t.j, t.q)
    {
      var j', p' := if t.q == cfg.phaseMax then t.j + 1 else t.j, if t.q == cfg.phaseMax then 1 else t.q + 1;
      if t.p > 1 {
        WorksFromBefore(t.base, t.i, t.p, j', p');
      } else if pass(Pointer(t.base, t.i), 2, 0) {
        WorksFromBefore(t.base, t.i, 2, j', p');
        WorksFromBefore(t.base, t.i, 1, j', p');
      }
    }

    /** Phase 1 at delay 0 was the first to work, so that the search skipped phase 2, and phase 2 fails. */
    ghost predicate SkipsGap(t: Trail)
      requires cfg.vfifoSize >= 1
    {
      t.p == 1 && t.d == 0 && !pass(Pointer(t.base, t.i), 2, 0)
    }

    /** Every measured window has an end, and how far work_end is off. With phase 1 at delay 0 the first to
        work it is one phase tap early; but if phase 2 fails, and the legal phase after it too, it is early
        by all delay taps that phase 1 still works at; and if only phase 2 fails, it belongs to the phases
        beyond the gap and lies no earlier than phase 2 itself. */
    lemma EndError(t: Trail, workBgn: nat, workEnd: nat) returns (end: nat)
      requires cfg.Valid() && IsWindow(t, workBgn, workEnd)
      ensures IsEndTime(t, end) && forall other: nat :: IsEndTime(t, other) ==> other == end
      ensures !SkipsGap(t) ==> pass(Pointer(t.base, t.j), t.q, t.e) && end == workEnd + Lag(cfg, t.p, t.d)
      ensures SkipsGap(t) ==> end == cfg.Time(t.i, 1, LastDelay(Pointer(t.base, t.i), 1, 0))
      ensures SkipsGap(t) && LosesEnd(t.base, t.i) ==>
        workEnd == cfg.Time(t.i, 1, 0) && end == workEnd + Times(LastDelay(Pointer(t.base, t.i), 1, 0), cfg.tap)
      ensures SkipsGap(t) && !LosesEnd(t.base, t.i) ==>
        && pass(Pointer(t.base, t.j), t.q, t.e) && workEnd + cfg.opa == cfg.Time(t.j, t.q, t.e)
        && workEnd >= cfg.Time(t.i, 2, 0)
    {
      if t.d > 0 {
        end := cfg.Time(t.i, t.p, LastDelay(Pointer(t.base, t.i), t.p, t.d));
        return;
      }
      LastPhaseWorks(t.base, t.i, t.p, t.j, t.q);
      SettledOnRunEnd(t);
      ghost var j, q := if SkipsGap(t) then t.i else t.j, if SkipsGap(t) then 1 else t.q;
      end := cfg.Time(j, q, LastDelay(Pointer(t.base, j), q, 0));
      forall other: nat | IsEndTime(t, other)
        ensures other == end
      {
        var k: nat, r: nat :|
          IsRunEnd(t.base, t.i, t.p, k, r) && other == cfg.Time(k, r, LastDelay(Pointer(t.base, k), r, 0));
        RunEndIsUnique(t.base, t.i, t.p, j, q, k, r);
      }
      if SkipsGap(t) && !LosesEnd(t.base, t.i) {
        BeyondGap(t);
      }
    }

    lemma BeyondGap(t: Trail)
      requires cfg.Valid() && IsFirst(t.base, t.i, t.p, t.d) && IsEnd(t)
      requires SkipsGap(t) && !LosesEnd(t.base, t.i) && pass(Pointer(t.base, t.j), t.q, 0)
      ensures cfg.Time(t.j, t.q, t.e) >= cfg.Time(t.i, 2, 0) + cfg.opa
    {
      assert t.j > t.i || (t.j == t.i && t.q >= 3);
      TimeBeyondGap(t.i, t.j, t.q, t.e);
    }

    lemma TimeBeyondGap(i: nat, j: nat, q: nat, e: nat)
      requires cfg.Valid() && (j > i || (j == i && q >= 3))
      ensures cfg.Time(j, q, e) >= cfg.Time(i, 3, 0) == cfg.Time(i, 2, 0) + cfg.opa
    {
      if j == i {
        TimesGrows(3, q, cfg.opa);
      } else {
        TimesGrows(i + 1, j, cfg.Cycle());
        TimesGrows(3, cfg.phaseMax + 1, cfg.opa);
      }
    }

    /** So work_end is exact if and only if phase 1 at delay 0 was not the first to work, or the phases 2
        and the next fail at delay 0 and phase 1 at delay 1, or across a gap at phase 2 alone the two
        stretches happen to end a phase tap apart. */
    lemma EndIsExactIff(t: Trail, workBgn: nat, workEnd: nat)
      requires cfg.Valid() && IsWindow(t, workBgn, workEnd)
      ensures IsEndTime(t, workEnd) <==>
        var h := Pointer(t.base, t.i);
        || !(t.p == 1 && t.d == 0)
        || (LosesEnd(t.base, t.i) && !pass(h, 1, 1))
        || (SkipsGap(t) && !LosesEnd(t.base, t.i)
            && cfg.Time(t.j, t.q, t.e) == cfg.Time(t.i, 1, LastDelay(h, 1, 0)) + cfg.opa)
    {
      var end := EndError(t, workBgn, workEnd);
      assert IsEndTime(t, workEnd) <==> workEnd == end;
      var last := LastDelay(Pointer(t.base, t.i), 1, 0);
      assert LosesEnd(t.base, t.i) && t.p == 1 && t.d == 0 ==> (pass(Pointer(t.base, t.i), 1, 1) <==> last >= 1);
      if last >= 1 {
        TimesGrows(1, last, cfg.tap);
      }
    }

    /** Across a gap work_end is late, if phase 1 does not work at a delay worth a whole phase tap. */
    lemma EndIsLateAcrossGap(t: Trail, workBgn: nat, workEnd: nat) returns (end: nat)
      requires cfg.Valid() && IsWindow(t, workBgn, workEnd) && SkipsGap(t) && !LosesEnd(t.base, t.i)
      requires Times(LastDelay(Pointer(t.base, t.i), 1, 0), cfg.tap) < cfg.opa
      ensures IsEndTime(t, end) && workEnd > end
    {
      end := EndError(t, workBgn, workEnd);
    }

    // ----- the start -----

    /** Delay e of the legal phase before phase p of step i works; its nominal time. Before phase 1 comes
        the last phase of the pointer before, two phase taps away. */
    ghost predicate EarlierWorks(base: int, i: nat, p: nat, e: nat)
      requires cfg.vfifoSize >= 1
    {
      && e <= cfg.delayMax
      && if p > 1 then pass(Pointer(base, i), p - 1, e) else pass(Pointer(base, i - 1), cfg.phaseMax, e)
    }

    function EarlierTime(i: nat, p: nat, e: nat): int {
      if p > 1 then cfg.Time(i, p - 1, e) else cfg.Time(i, 1, 0) - 2 * cfg.opa + Times(e, cfg.tap)
    }

    /** work_bgn comes before all of these, if and only if phase 1 was not the first to work, or none of
        them is worth less than two phase taps: the pointer before is not looked at. */
    lemma BeginIsFirstIff(t: Trail, workBgn: nat, workEnd: nat)
      requires cfg.Valid() && IsWindow(t, workBgn, workEnd) && t.d == 0
      ensures (forall e: nat :: EarlierWorks(t.base, t.i, t.p, e) ==> workBgn <= EarlierTime(t.i, t.p, e))
         <==> t.p > 1 || forall e: nat :: EarlierWorks(t.base, t.i, 1, e) ==> Times(e, cfg.tap) >= 2 * cfg.opa
    {
      if t.p > 1 {
        forall e: nat | EarlierWorks(t.base, t.i, t.p, e)
          ensures workBgn <= EarlierTime(t.i, t.p, e)
        {
          BeginIsFirst(t.base, t.i, t.p, workBgn, e);
        }
      } else {
        forall e: nat | EarlierWorks(t.base, t.i, 1, e)
          ensures workBgn <= EarlierTime(t.i, 1, e) <==> Times(e, cfg.tap) >= 2 * cfg.opa
        {
        }
      }
    }

    lemma BeginIsFirst(base: int, i: nat, p: nat, workBgn: nat, e: nat)
      requires cfg.Valid() && p > 1 && IsBegin(base, i, p, workBgn) && EarlierWorks(base, i, p, e)
      ensures workBgn <= EarlierTime(i, p, e)
    {
      var h, prev := Pointer(base, i), p - 1;
      if f: nat :| IsFirstDelay(h, prev, f) && workBgn == cfg.Time(i, prev, f) {
        assert f <= e;
        TimesGrows(f, e, cfg.tap);
      }
    }

    lemma SomethingWorks(origin: int, base: int, i: nat, p: nat, d: nat)
      requires cfg.Valid() && Begins(origin, base, i, p, d)
      ensures !FewFail() && !NothingWorks()
    {
      SecondFailureIsMore(origin, base - origin);
      assert !Dead(Pointer(base, i), d);
    }

    /** Steps 0 to 5: the window. */
    method MeasureWindow(ghost origin: int)
      returns (outcome: Outcome, dtaps: nat, p: nat, d: nat, v: int, workBgn: nat, workEnd: nat, ghost t: Trail)
      requires Valid() && vfifo == origin && phase == 1 && delay == 0
      modifies this`phase, this`phases, this`delay, this`delays, this`vfifo
      ensures Valid() && Synced(v, origin) && IsStaticTap(dtaps) && dtaps < cfg.delayMax
      ensures outcome == Found ==>
        && 1 <= p <= cfg.phaseMax && IsWindow(t, workBgn, workEnd)
        && p == t.q && d == StopDelay(t) && vfifo == Pointer(t.base, t.j)
      ensures outcome == NoFailingRead <==> FewFail()
      ensures outcome == NoWorkingPhase <==> !FewFail() && NothingWorks()
      ensures outcome == Found || outcome == NoEndEdge ==>
        && Begins(origin, t.base, t.i, t.p, t.d)
        && (outcome == NoEndEdge <==> t.d == 0 && NoEnd(t.base, t.i, t.p))
      ensures outcome != NilRange && outcome != CentreFails
    {
      var i, p0, d0;
      ghost var base, j, e;
      outcome, dtaps, i, p0, d0, v, workBgn, base := FindBegin(origin);
      p, d, workEnd, t := p0, d0, 0, Trail(base, i, p0, d0, 0, 0, 0);
      if outcome == Found {
        SomethingWorks(origin, base, i, p0, d0);
        outcome, p, d, v, workBgn, workEnd, j, e := FindEdges(i, p0, d0, v, workBgn, origin, base);
        if outcome == Found {
          t := t.(j := j, q := p, e := e);
        }
      }
    }

    /** What the tracking hardware is told: one legal phase back from the last phase, the delay taps from
        where the search for the end stopped to the first failure after a working delay; without one,
        the static number. */
    ghost predicate IsTracked(t: Trail, taps: int)
      requires cfg.vfifoSize >= 1 && t.q >= 1
    {
      var h, q, d := Pointer(t.base, StepBefore(t.j, t.q)), PhaseBefore(t.q), StopDelay(t);
      exists dtaps :: IsStaticTap(dtaps) && IsTapCount(h, q, d, taps, dtaps)
    }

    /** rw_mgr_mem_calibrate_vfifo_find_dqs_en_phase: the window's ends are reported beside the outcome. */
    method FindPhase() returns (outcome: Outcome, workBgn: nat, workEnd: nat, v: int, ghost t: Trail)
      requires Valid()
      modifies this
      // every phase and delay ever programmed is legal, whatever the outcome
      ensures Valid()
      // the software's step count and the hardware pointer never drift apart
      ensures Synced(v, old(vfifo))
      // success: the setting left programmed passed its read test, and is the window's centre less
      // whole VFIFO cycles
      ensures outcome == Found ==> pass(vfifo, phase, delay)
      ensures outcome == Found || outcome == CentreFails ==>
        && IsWindow(t, workBgn, workEnd) && IsCentre(cfg.Reduced((workBgn + workEnd) / 2), phase, delay)
        && IsTracked(t, dtapsPerPtap)
      ensures outcome == Found ==> NearestWorks(t.base, StepBefore(t.j, t.q))
      // and what each failure says about the hardware
      ensures outcome == NoFailingRead <==> FewFail()
      ensures outcome == NoWorkingPhase <==> !FewFail() && NothingWorks()
      ensures outcome == NoEndEdge ==> exists h :: 0 <= h < cfg.vfifoSize && AllWork(h)
      // no end is seen exactly when no phase fails that the search for it looks at
      ensures outcome == Found || outcome == CentreFails || outcome == NoEndEdge ==>
        && Begins(old(vfifo), t.base, t.i, t.p, t.d)
        && (outcome == NoEndEdge <==> t.d == 0 && NoEnd(t.base, t.i, t.p))
      ensures outcome == CentreFails ==> forall h :: 0 <= h < cfg.vfifoSize ==> !pass(h, phase, delay)
      ensures outcome != NilRange
    {
      ghost var origin := vfifo;
      SetDelay(0);
      SetPhase(1);
      var dtaps, p, d;
      outcome, dtaps, p, d, v, workBgn, workEnd, t := MeasureWindow(origin);
      if outcome == Found {
        outcome, v := SettleOnCentre(p, d, v, dtaps, workBgn, workEnd, origin, t.base, t.j);
        assert IsTracked(t, dtapsPerPtap);
      } else if outcome == NoEndEdge {
        NoEndMeansAllWork(t.base, t.i, t.p);
      }
    }

    lemma AllDead(base: int, dtaps: nat)
      requires Valid() && cfg.opa <= Times(dtaps + 1, cfg.tap)
      requires forall e, k :: 0 <= e <= dtaps && 0 <= k < cfg.vfifoSize ==> DeadAt(0, base, k, e)
      ensures NothingWorks()
    {
      forall h, d: int | 0 <= h < cfg.vfifoSize && 0 <= d && Times(d, cfg.tap) < cfg.opa
        ensures Dead(h, d)
      {
        if d > dtaps {
          TimesGrows(dtaps + 1, d, cfg.tap);
        }
        var k := EveryPointer(0, base, h);
        assert DeadAt(0, base, k, d);
      }
    }
  }

  // ----- the measured window on some inputs -----

  /** A configuration of the usual size. */
  const SAMPLE: Config := Config(7, 31, 312, 25, 16)

  lemma SampleIsValid()
    ensures SAMPLE.Valid()
  {
    TimesIsProduct(31, 25);
  }

  /** Of the settings at delay 0 that work, pointer 3, phase 1 is the first, and phase 4 is none. */
  ghost predicate StartsAtPhaseOne(works: (int, int, int) -> bool) {
    && works(3, 1, 0) && !works(3, 4, 0)
    && forall h, p :: 0 <= h < 16 && h != 3 && 1 <= p <= 7 ==> !works(h, p, 0)
  }

  ghost predicate IsSample(c: DqsEnPath, works: (int, int, int) -> bool) {
    c.cfg == SAMPLE && c.pass == works && StartsAtPhaseOne(works)
  }

  lemma FirstIsPhaseOne(c: DqsEnPath, works: (int, int, int) -> bool, t: Trail)
    requires IsSample(c, works) && c.IsFirst(t.base, t.i, t.p, t.d)
    ensures t.p == 1 && t.d == 0 && c.Pointer(t.base, t.i) == 3
  {
    SampleIsValid();
    var k := c.EveryPointer(0, t.base, 3);
    assert c.pass(3, 1, 0);
    assert !c.DeadAt(0, t.base, k, 0);
  }

  /** A window of phase 1 alone, delays 0 to e: the end is lost, and work_end misses e delay taps. */
  function OnePhase(e: nat): (int, int, int) -> bool { (h, p, d) => h == 3 && p == 1 && 0 <= d <= e }

  lemma OnePhaseLosesEnd(c: DqsEnPath, e: nat, t: Trail, workBgn: nat, workEnd: nat)
    requires IsSample(c, OnePhase(e)) && e < SAMPLE.delayMax && c.IsWindow(t, workBgn, workEnd)
    ensures c.IsEndTime(t, workEnd + Times(e, SAMPLE.tap))
  {
    SampleIsValid();
    FirstIsPhaseOne(c, OnePhase(e), t);
    var end := c.EndError(t, workBgn, workEnd);
    assert c.LosesEnd(t.base, t.i);
    c.LastDelayIs(3, 1, 0, e);
  }

  /** With phase 2 in the window, work_end is one phase tap early. */
  function TwoPhases(e: nat): (int, int, int) -> bool { (h, p, d) => h == 3 && 1 <= p <= 2 && 0 <= d <= e }

  lemma TwoPhasesEndEarly(c: DqsEnPath, e: nat, t: Trail, workBgn: nat, workEnd: nat)
    requires IsSample(c, TwoPhases(e)) && c.IsWindow(t, workBgn, workEnd)
    ensures c.IsEndTime(t, workEnd + SAMPLE.opa)
  {
    SampleIsValid();
    FirstIsPhaseOne(c, TwoPhases(e), t);
    var end := c.EndError(t, workBgn, workEnd);
  }

  /** With a gap at phase 2, work_end is the time of phase 2 itself, which fails; the window ended with
      phase 1. */
  function Gap(): (int, int, int) -> bool { (h, p, d) => h == 3 && (p == 1 || p == 3) && d == 0 }

  lemma GapEndsLate(c: DqsEnPath, t: Trail, workBgn: nat, workEnd: nat)
    requires IsSample(c, Gap()) && c.IsWindow(t, workBgn, workEnd)
    ensures workEnd == SAMPLE.Time(t.i, 2, 0) && !c.pass(3, 2, 0) && c.IsEndTime(t, SAMPLE.Time(t.i, 1, 0))
  {
    SampleIsValid();
    FirstIsPhaseOne(c, Gap(), t);
    var end := c.EndError(t, workBgn, workEnd);
    c.LastDelayIs(3, 1, 0, 0);
    GapIsSkipped(c, t);
  }

  lemma GapIsSkipped(c: DqsEnPath, t: Trail)
    requires IsSample(c, Gap()) && c.IsFirst(t.base, t.i, t.p, t.d) && c.IsEnd(t)
    ensures t.j == t.i && t.q == 3 && t.e == 0
  {
    FirstIsPhaseOne(c, Gap(), t);
    assert c.pass(3, 3, 0) && !c.pass(3, 4, 0);
    assert forall hi :: hi > 4 ==> !c.PhasesWork(3, 3, hi);
    c.LastDelayIs(3, 3, 0, 0);
  }

  /** A window that starts at the pointer before: work_bgn is late by two phase taps less
      20 delay taps. */
  function Straddling(): (int, int, int) -> bool {
    (h, p, d) => (h == 3 && p == 1 && d == 0) || (h == 2 && p == 7 && d == 20)
  }

  lemma StraddlingBeginsLate(c: DqsEnPath, t: Trail, workBgn: nat, workEnd: nat)
    requires IsSample(c, Straddling()) && c.IsWindow(t, workBgn, workEnd)
    ensures c.EarlierWorks(t.base, t.i, t.p, 20) && c.EarlierTime(t.i, t.p, 20) + 124 == workBgn
  {
    SampleIsValid();
    FirstIsPhaseOne(c, Straddling(), t);
    TimesIsProduct(20, 25);
    c.NextPointer(t.base, t.i - 1);
  }

  /** The routine does measure a window on all of these. */
  method SampleRun(works: (int, int, int) -> bool)
    returns (c: DqsEnPath, workBgn: nat, workEnd: nat, ghost t: Trail)
    requires StartsAtPhaseOne(works)
    ensures IsSample(c, works) && c.IsWindow(t, workBgn, workEnd)
  {
    SampleIsValid();
    c := new DqsEnPath(SAMPLE, works, 0);
    var outcome, v;
    outcome, workBgn, workEnd, v, t := c.FindPhase();
    assert !c.pass(0, 1, 0) && !c.pass(1, 1, 0);
    assert c.pass(3, 1, 0) && Times(0, SAMPLE.tap) < SAMPLE.opa && !c.Dead(3, 0);
    forall h | 0 <= h < 16
      ensures !c.AllWork(h)
    {
      assert !c.pass(h, 4, 0);
    }
  }

  /** All of them are such inputs. */
  lemma SamplesQualify(e: nat)
    ensures StartsAtPhaseOne(OnePhase(e)) && StartsAtPhaseOne(TwoPhases(e))
    ensures StartsAtPhaseOne(Gap()) && StartsAtPhaseOne(Straddling())
  {
  }

  /** How far work_end runs behind when the search first worked at phase p and delay d. */
  function Lag(cfg: Config, p: nat, d: nat): nat {
    if p == 1 && d == 0 then cfg.opa else 0
  }
}
