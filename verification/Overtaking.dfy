/** When a faster text runs into a slower one of its row. */
module Overtaking {
  import opened Arithmetic
  import opened FontMap
  import opened Painter
  import opened Scheduler
  import opened SlidingRuns

  predicate CoversColumn(l: Sliding, x: int) { l.x <= x < l.x + l.width }

  /** Some column of the plane shows both texts. */
  ghost predicate ShareColumn(a: Sliding, b: Sliding) {
    exists x :: CoversColumn(a, x) && CoversColumn(b, x)
  }

  /** n frames on, both are still shown and share a column. */
  ghost predicate CollideAfter(a: Sliding, b: Sliding, n: nat) {
    AgedTimes(a, n).enable && AgedTimes(b, n).enable && ShareColumn(AgedTimes(a, n), AgedTimes(b, n))
  }

  lemma {:induction false} PositionAfter(l: Sliding, n: nat)
    requires l.enable && -(l.width as int) <= l.x
    ensures if Times(n, l.ppc) <= l.x + l.width then AgedTimes(l, n) == l.(x := l.x - Times(n, l.ppc))
            else !AgedTimes(l, n).enable
  {
    if n > 0 {
      PositionAfter(l, n - 1);
    }
  }

  /** A text comes in at the right edge and moves left by 1 + (width + screen width) / 384 pixels a frame,
      until its right end has left the screen. */
  lemma TextPath(sw: nat, l: Sliding, r: Rendering, n: nat)
    requires IsMap(l.pixels)
    ensures var w, now := r.OutWidth(), AgedTimes(Fresh(l, sw, r), n);
            var v := 1 + (w + sw) / 384;
            && (now.enable <==> n * v <= sw + w)
            && (now.enable ==> now.x == sw - n * v && now.y == l.y && now.width == w
                               && now.pixels == MapAfter(r, l.pixels))
  {
    var f := Fresh(l, sw, r);
    TimesIsProduct(n, f.ppc);
    PositionAfter(f, n);
  }

  lemma {:induction false} TimesDifference(n: nat, a: nat, b: nat)
    requires a <= b
    ensures Times(n, b) - Times(n, a) == Times(n, b - a)
  {
    if n > 0 {
      TimesDifference(n - 1, a, b);
    }
  }

  /** How many frames a text with right end x and speed ppc still shows. */
  function Frames(x: nat, ppc: nat): nat
    requires ppc > 0
  {
    x / ppc
  }

  lemma FramesBound(x: nat, ppc: nat, f: nat)
    requires ppc > 0 && f == x / ppc
    ensures Times(f, ppc) <= x < Times(f + 1, ppc)
  {
    TimesIsProduct(f, ppc);
    assert x == f * ppc + x % ppc;
  }

  lemma FramesIsLast(x: nat, ppc: nat, n: nat)
    requires ppc > 0
    ensures Times(n, ppc) <= x <==> n <= Frames(x, ppc)
  {
    var f := Frames(x, ppc);
    FramesBound(x, ppc, f);
    if n <= f {
      TimesGrows(n, f, ppc);
    } else {
      TimesGrows(f + 1, n, ppc);
    }
  }

  /** A difference in speed needs a larger difference in width. */
  lemma SpeedGap(sw: nat, narrow: nat, wide: nat)
    requires 1 <= narrow && Speed(sw, narrow) < Speed(sw, wide)
    ensures Speed(sw, wide) - Speed(sw, narrow) <= wide
  {
  }

  /** The first multiple of d above g. */
  lemma FirstAbove(n: nat, d: nat, g: nat) returns (m: nat)
    requires Times(n, d) > g
    ensures 1 <= m <= n && Times(m - 1, d) <= g < Times(m, d)
  {
    m := n;
    while Times(m - 1, d) > g
      invariant 1 <= m <= n && Times(m, d) > g
      decreases m
    {
      m := m - 1;
    }
  }

  /** A text placed in a row while another is leaving collides with it exactly when it is faster and
      gains more than the distance between them in the frames the other one has left. */
  lemma CollisionIff(sw: nat, e: Sliding, l: Sliding)
    requires e.enable && e.width >= 1 && e.ppc == Speed(sw, e.width) && -(e.width as int) <= e.x && e.x + e.width <= sw
    requires l.enable && l.ppc == Speed(sw, l.width) && l.x == sw
    ensures (exists n: nat :: CollideAfter(e, l, n))
       <==> l.ppc > e.ppc && Times(Frames(e.x + e.width, e.ppc), l.ppc - e.ppc) > sw - (e.x + e.width)
  {
    var gap, last := sw - (e.x + e.width), Frames(e.x + e.width, e.ppc);
    forall n: nat | CollideAfter(e, l, n)
      ensures l.ppc > e.ppc && Times(last, l.ppc - e.ppc) > gap
    {
      CollisionNeedsSpeed(sw, e, l, n);
    }
    if l.ppc > e.ppc && Times(last, l.ppc - e.ppc) > gap {
      var n := FirstAbove(last, l.ppc - e.ppc, gap);
      SpeedGap(sw, e.width, l.width);
      SpeedCollides(sw, e, l, n);
    }
  }

  lemma CollisionNeedsSpeed(sw: nat, e: Sliding, l: Sliding, n: nat)
    requires e.enable && e.ppc == Speed(sw, e.width) && -(e.width as int) <= e.x && e.x + e.width <= sw
    requires l.enable && l.x == sw && CollideAfter(e, l, n)
    ensures l.ppc > e.ppc && Times(Frames(e.x + e.width, e.ppc), l.ppc - e.ppc) > sw - (e.x + e.width)
  {
    PositionAfter(e, n);
    PositionAfter(l, n);
    FramesIsLast(e.x + e.width, e.ppc, n);
    if l.ppc <= e.ppc {
      TimesDifference(n, l.ppc, e.ppc);
    } else {
      TimesDifference(n, e.ppc, l.ppc);
      TimesGrows(n, Frames(e.x + e.width, e.ppc), l.ppc - e.ppc);
    }
  }

  lemma SpeedCollides(sw: nat, e: Sliding, l: Sliding, n: nat)
    requires e.enable && e.width >= 1 && -(e.width as int) <= e.x && e.x + e.width <= sw
    requires l.enable && l.x == sw && 0 < e.ppc < l.ppc && l.ppc - e.ppc <= l.width
    requires 1 <= n <= Frames(e.x + e.width, e.ppc)
    requires Times(n - 1, l.ppc - e.ppc) <= sw - (e.x + e.width) < Times(n, l.ppc - e.ppc)
    ensures CollideAfter(e, l, n)
  {
    var right := e.x + e.width;
    FramesIsLast(right, e.ppc, n);
    TimesDifference(n, e.ppc, l.ppc);
    var te, tl := Times(n, e.ppc), Times(n, l.ppc);
    assert te <= right && sw - right < tl - te <= sw - right + l.width;
    PositionAfter(e, n);
    PositionAfter(l, n);
    var a, b := e.(x := e.x - te), l.(x := l.x - tl);
    assert AgedTimes(e, n) == a && AgedTimes(l, n) == b;
    var x := if a.x >= b.x then a.x else b.x;
    assert CoversColumn(a, x) && CoversColumn(b, x);
  }

  // ----- a run in which it happens -----

  /** Nothing is pending, and since s0 the texts have only moved, for n frames. */
  ghost predicate Drifted(s0: State, s: State, n: nat) {
    && WellFormed(s) && |s0.g| == CELLS && s.pending == []
    && forall c :: 0 <= c < CELLS ==> s.g[c] == AgedTimes(s0.g[c], n)
  }

  lemma IdleFrame(s0: State, s: State, n: nat, sw: nat, r: Rendering)
    requires Drifted(s0, s, n)
    ensures Drifted(s0, FrameStep(s, sw, Input([], r)), n + 1)
  {
    assert Place(s.(pending := s.pending + [], pushed := s.pushed + []), sw, r).g == s.g;
  }

  function Idle(n: nat, r: Rendering): (run: seq<Input>)
    ensures |run| == n
  {
    if n == 0 then [] else Idle(n - 1, r) + [Input([], r)]
  }

  lemma {:induction false} IdleFrames(s: State, sw: nat, run: seq<Input>, n: nat, r: Rendering)
    requires WellFormed(s) && Run(s, sw, run).pending == []
    ensures Drifted(Run(s, sw, run), Run(s, sw, run + Idle(n, r)), n)
  {
    if n == 0 {
      assert run + Idle(0, r) == run;
      NoDrift(Run(s, sw, run));
    } else {
      IdleFrames(s, sw, run, n - 1, r);
      OneMoreIdle(s, sw, run, n - 1, r);
      IdleFrame(Run(s, sw, run), Run(s, sw, run + Idle(n - 1, r)), n - 1, sw, r);
    }
  }

  lemma NoDrift(s: State)
    requires WellFormed(s) && s.pending == []
    ensures Drifted(s, s, 0)
  {
  }

  lemma OneMoreIdle(s: State, sw: nat, run: seq<Input>, n: nat, r: Rendering)
    requires WellFormed(s)
    ensures Run(s, sw, run + Idle(n + 1, r)) == FrameStep(Run(s, sw, run + Idle(n, r)), sw, Input([], r))
  {
    assert run + Idle(n + 1, r) == (run + Idle(n, r)) + [Input([], r)];
    RunStep(s, sw, run + Idle(n, r), Input([], r));
  }

  /** A text that arrives with nothing pending goes into the first free cell. */
  lemma ArrivalIsPlaced(s: State, sw: nat, text: string, r: Rendering, c: nat)
    requires WellFormed(s) && s.pending == [] && c < CELLS && FirstFree(s.g, sw, 0) == c
    ensures var s' := FrameStep(s, sw, Input([text], r));
            && s'.pending == []
            && forall k :: 0 <= k < CELLS ==> s'.g[k] == Aged(if k == c then Fresh(s.g[c], sw, r) else s.g[k])
  {
  }

  lemma RunStep(s: State, sw: nat, run: seq<Input>, inp: Input)
    requires WellFormed(s)
    ensures Run(s, sw, run + [inp]) == FrameStep(Run(s, sw, run), sw, inp)
  {
    assert (run + [inp])[..|run|] == run;
  }

  const BLACK: (int, int) -> int := (i, j) => 0
  /** Two texts for a screen of 1000 pixels: 3 and 5 pixels a frame. */
  const SHORT: Rendering := Rendering(50, 2, 100, 50, BLACK, 1)
  const LONG: Rendering := Rendering(50, 12, 600, 50, BLACK, 2)

  /** The short text arrives, 33 frames go by, the long text arrives, and another frame goes by. */
  const CHASE: seq<Input> :=
    [Input(["short"], SHORT)] + Idle(33, SHORT) + [Input(["long"], LONG)] + Idle(1, LONG)

  lemma ShortAlone(s0: State) returns (s: State)
    requires IsInitial(s0)
    ensures s == Run(s0, 1000, [Input(["short"], SHORT)] + Idle(33, SHORT)) && s.pending == []
    ensures s.g[0].enable && s.g[0].x == 898 && s.g[0].width == 100 && s.g[0].ppc == 3 && !s.g[1].enable
    ensures forall c :: 1 <= c < CELLS ==> !s.g[c].enable
  {
    var first := Input(["short"], SHORT);
    assert IsFree(s0.g, 1000, 0);
    ArrivalIsPlaced(s0, 1000, "short", SHORT, 0);
    RunStep(s0, 1000, [], first);
    assert [] + [first] == [first] && Run(s0, 1000, []) == s0;
    var l := Run(s0, 1000, [first]).g[0];
    assert l.enable && l.x == 997 && l.width == 100 && l.ppc == 3;
    IdleFrames(s0, 1000, [first], 33, SHORT);
    s := Run(s0, 1000, [first] + Idle(33, SHORT));
    TimesIsProduct(33, 3);
    PositionAfter(l, 33);
    forall c | 1 <= c < CELLS
      ensures !s.g[c].enable
    {
      StaysOff(Run(s0, 1000, [first]).g[c], 33);
    }
  }

  lemma {:induction false} StaysOff(l: Sliding, n: nat)
    requires !l.enable
    ensures AgedTimes(l, n) == l
  {
    if n > 0 {
      StaysOff(l, n - 1);
    }
  }

  /** So it does happen: in a run from the start, the long text is put into the row of the short one and
      has caught up with it two frames later. */
  lemma FasterTextCanCollide(s0: State)
    requires IsInitial(s0)
    ensures var s := Run(s0, 1000, CHASE);
            s.g[0].enable && s.g[1].enable && Row(0) == Row(1) && ShareColumn(s.g[0], s.g[1])
  {
    var run, next := [Input(["short"], SHORT)] + Idle(33, SHORT), Input(["long"], LONG);
    var s := ShortAlone(s0);
    assert !IsFree(s.g, 1000, 0) && IsFree(s.g, 1000, 1);
    assert FirstFree(s.g, 1000, 0) == FirstFree(s.g, 1000, 1) == 1;
    ArrivalIsPlaced(s, 1000, "long", LONG, 1);
    RunStep(s0, 1000, run, next);
    IdleFrames(s0, 1000, run + [next], 1, LONG);
    var s' := Run(s0, 1000, run + [next]);
    assert AgedTimes(s'.g[0], 1) == Aged(s'.g[0]) && AgedTimes(s'.g[1], 1) == Aged(s'.g[1]);
    var e, l := Aged(s'.g[0]), Aged(s'.g[1]);
    assert e.x == 892 && l.x == 990;
    assert CoversColumn(e, 990) && CoversColumn(l, 990);
  }
}
