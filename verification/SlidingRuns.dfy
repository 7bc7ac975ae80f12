/** The sliding texts over whole runs: what is pushed, placed and shown, frame after frame. */
module SlidingRuns {
  import opened Arithmetic
  import opened FontMap
  import opened Painter
  import opened Scheduler

  /** The grid at the start of a frame, the pending texts, and the history: everything pushed and
      placed so far, and for each cell the number of the placement that filled it. */
  datatype State = State(
    g: seq<Sliding>, pending: seq<string>, pushed: seq<string>, placed: seq<string>, born: seq<int>)

  /** What the outside contributes to a frame: texts that arrive before the fetch, and how the text at
      the head of the queue renders. */
  datatype Input = Input(arrivals: seq<string>, rendering: Rendering)

  predicate WellFormed(s: State) {
    |s.g| == |s.born| == CELLS && forall c :: 0 <= c < CELLS ==> IsMap(s.g[c].pixels)
  }

  /** Fetch, InsertSliding and Pop. */
  function Place(s: State, sw: nat, r: Rendering): (s': State)
    requires WellFormed(s)
    ensures WellFormed(s')
  {
    var c := FirstFree(s.g, sw, 0);
    if s.pending == [] || c == -1 then s
    else s.(g := s.g[c := Fresh(s.g[c], sw, r)], pending := s.pending[1..],
            placed := s.placed + [s.pending[0]], born := s.born[c := |s.placed|])
  }

  function AgeAll(g: seq<Sliding>): (g': seq<Sliding>)
    ensures |g'| == |g| && forall c :: 0 <= c < |g| ==> g'[c] == Aged(g[c])
  {
    seq(|g|, c requires 0 <= c < |g| => Aged(g[c]))
  }

  function FrameStep(s: State, sw: nat, inp: Input): (s': State)
    requires WellFormed(s)
    ensures WellFormed(s')
  {
    var s1 := s.(pending := s.pending + inp.arrivals, pushed := s.pushed + inp.arrivals);
    var s2 := Place(s1, sw, inp.rendering);
    s2.(g := AgeAll(s2.g))
  }

  function Run(s: State, sw: nat, run: seq<Input>): (s': State)
    requires WellFormed(s)
    ensures WellFormed(s')
  {
    if run == [] then s else FrameStep(Run(s, sw, run[..|run| - 1]), sw, run[|run| - 1])
  }

  /** Before the first frame: all slots empty, nothing pending. */
  predicate IsInitial(s: State) {
    && WellFormed(s) && s.pending == s.pushed == s.placed == []
    && forall c :: 0 <= c < CELLS ==> !s.g[c].enable
  }

  // ----- the invariant -----

  /** A text at the start of a frame has moved at least once since it was placed. */
  predicate Moving(l: Sliding, sw: nat) {
    l.enable ==> l.ppc == Speed(sw, l.width) && -(l.width as int) <= l.x <= sw - l.ppc
  }

  /** Two texts of a row: of the two at most one is still entering, and as long as the later one is
      not faster, it stays to the right of the earlier one. */
  predicate Apart(g: seq<Sliding>, born: seq<int>, sw: nat, a: int, b: int)
    requires |g| == |born| == CELLS && 0 <= a < CELLS && 0 <= b < CELLS
  {
    g[a].enable && g[b].enable && Row(a) == Row(b) && a != b ==>
      && !(Entering(g[a], sw) && Entering(g[b], sw))
      && born[a] != born[b]
      && (born[a] < born[b] && g[b].ppc <= g[a].ppc ==> g[a].x + g[a].width <= g[b].x)
  }

  ghost predicate Inv(s: State, sw: nat) {
    && WellFormed(s) && s.placed + s.pending == s.pushed
    && (forall c :: 0 <= c < CELLS ==> Moving(s.g[c], sw))
    && (forall c :: 0 <= c < CELLS ==> s.g[c].enable ==> s.born[c] < |s.placed|)
    && forall a, b :: 0 <= a < CELLS && 0 <= b < CELLS ==> Apart(s.g, s.born, sw, a, b)
  }

  lemma PlaceKeepsApart(s: State, sw: nat, r: Rendering, a: int, b: int)
    requires Inv(s, sw) && 0 <= a < CELLS && 0 <= b < CELLS
    ensures Apart(Place(s, sw, r).g, Place(s, sw, r).born, sw, a, b)
  {
    assert Apart(s.g, s.born, sw, a, b);
  }

  lemma PlaceKeepsOrder(s: State, sw: nat, r: Rendering)
    requires WellFormed(s) && s.placed + s.pending == s.pushed
    ensures var s' := Place(s, sw, r); s'.placed + s'.pending == s'.pushed
  {
  }

  lemma PlaceNumbersTexts(s: State, sw: nat, r: Rendering, c: int)
    requires Inv(s, sw) && 0 <= c < CELLS
    ensures var s' := Place(s, sw, r); s'.g[c].enable ==> s'.born[c] < |s'.placed|
  {
  }

  /** Placed in this frame or before, every text has moved by the end of it. */
  lemma PlacedTextsMove(s: State, sw: nat, r: Rendering, c: int)
    requires Inv(s, sw) && 0 <= c < CELLS
    ensures Moving(Aged(Place(s, sw, r).g[c]), sw)
  {
  }

  lemma AgeKeepsApart(g: seq<Sliding>, born: seq<int>, sw: nat, a: int, b: int)
    requires |g| == |born| == CELLS && 0 <= a < CELLS && 0 <= b < CELLS && Apart(g, born, sw, a, b)
    ensures Apart(AgeAll(g), born, sw, a, b)
  {
  }

  lemma FrameInv(s: State, sw: nat, inp: Input)
    requires Inv(s, sw)
    ensures Inv(FrameStep(s, sw, inp), sw)
  {
    var s1 := s.(pending := s.pending + inp.arrivals, pushed := s.pushed + inp.arrivals);
    assert s1.placed + s1.pending == s1.pushed;
    PlaceKeepsOrder(s1, sw, inp.rendering);
    var s2 := Place(s1, sw, inp.rendering);
    forall a, b | 0 <= a < CELLS && 0 <= b < CELLS
      ensures Apart(AgeAll(s2.g), s2.born, sw, a, b)
    {
      PlaceKeepsApart(s1, sw, inp.rendering, a, b);
      AgeKeepsApart(s2.g, s2.born, sw, a, b);
    }
    forall c | 0 <= c < CELLS
      ensures Moving(AgeAll(s2.g)[c], sw)
      ensures s2.g[c].enable ==> s2.born[c] < |s2.placed|
    {
      PlaceNumbersTexts(s1, sw, inp.rendering, c);
      PlacedTextsMove(s1, sw, inp.rendering, c);
    }
  }

  lemma {:induction false} RunInv(s: State, sw: nat, run: seq<Input>)
    requires Inv(s, sw)
    ensures Inv(Run(s, sw, run), sw)
  {
    if run != [] {
      RunInv(s, sw, run[..|run| - 1]);
      FrameInv(Run(s, sw, run[..|run| - 1]), sw, run[|run| - 1]);
    }
  }

  /** Over every run: the placed texts are the first that arrived, in order, and the rest is pending. */
  lemma TextsPlacedInOrder(s: State, sw: nat, run: seq<Input>)
    requires IsInitial(s)
    ensures var s' := Run(s, sw, run); s'.placed + s'.pending == s'.pushed == Arrivals(run)
  {
    RunInv(s, sw, run);
    EveryArrivalIsPushed(s, sw, run);
  }

  /** All texts that arrive in a run, in order. */
  function Arrivals(run: seq<Input>): seq<string> {
    if run == [] then [] else Arrivals(run[..|run| - 1]) + run[|run| - 1].arrivals
  }

  lemma {:induction false} EveryArrivalIsPushed(s: State, sw: nat, run: seq<Input>)
    requires WellFormed(s) && s.pushed == []
    ensures Run(s, sw, run).pushed == Arrivals(run)
  {
    if run != [] {
      var init, last := run[..|run| - 1], run[|run| - 1];
      EveryArrivalIsPushed(s, sw, init);
      FramePushes(Run(s, sw, init), sw, last);
    }
  }

  lemma FramePushes(s: State, sw: nat, inp: Input)
    requires WellFormed(s)
    ensures FrameStep(s, sw, inp).pushed == s.pushed + inp.arrivals
  {
  }

  /** In every reachable state, no two texts of a row are both still entering, and a later text that
      is not faster shares no column with an earlier one. */
  lemma RowsStayReadable(s: State, sw: nat, run: seq<Input>, a: int, b: int)
    requires IsInitial(s) && 0 <= a < CELLS && 0 <= b < CELLS && a != b && Row(a) == Row(b)
    ensures var s' := Run(s, sw, run);
            s'.g[a].enable && s'.g[b].enable ==>
              && !(Entering(s'.g[a], sw) && Entering(s'.g[b], sw))
              && (s'.born[a] < s'.born[b] && s'.g[b].ppc <= s'.g[a].ppc ==> s'.g[a].x + s'.g[a].width <= s'.g[b].x)
  {
    RunInv(s, sw, run);
    assert Apart(Run(s, sw, run).g, Run(s, sw, run).born, sw, a, b);
  }

  // ----- every text crosses the screen in time -----

  /** l after n frames. */
  function AgedTimes(l: Sliding, n: nat): Sliding {
    if n == 0 then l else Aged(AgedTimes(l, n - 1))
  }

  /** n more frames carry the text off the screen. */
  predicate GoneIn(l: Sliding, n: nat) {
    l.enable ==> l.x + l.width < Times(n, l.ppc)
  }

  lemma AgingApproachesGone(l: Sliding, n: nat)
    requires n > 0 && GoneIn(l, n)
    ensures GoneIn(Aged(l), n - 1)
  {
  }

  lemma SpeedSuffices(sw: nat, width: nat, n: nat)
    requires n == CYCLE_PER_DANMU
    ensures width + sw < Times(n, Speed(sw, width)) == Speed(sw, width) + Times(n - 1, Speed(sw, width))
  {
    TimesIsProduct(n, Speed(sw, width));
  }

  /** And it is the least speed that gets a text across: a pixel a frame less would not do. */
  lemma SpeedIsLeast(sw: nat, width: nat)
    ensures (Speed(sw, width) - 1) * 384 <= width + sw < Speed(sw, width) * 384
  {
  }

  lemma {:induction false} GoneAfter(l: Sliding, n: nat, m: nat)
    requires GoneIn(l, n + m)
    ensures GoneIn(AgedTimes(l, n), m)
  {
    if n > 0 {
      GoneAfter(l, n - 1, m + 1);
      AgingApproachesGone(AgedTimes(l, n - 1), m + 1);
    }
  }

  /** Whatever its width, a text is gone by its 384th frame. */
  lemma TextIsGoneInTime(l: Sliding, sw: nat, r: Rendering, n: nat)
    requires IsMap(l.pixels) && n == CYCLE_PER_DANMU
    ensures !AgedTimes(Fresh(l, sw, r), n).enable
  {
    var f := Fresh(l, sw, r);
    SpeedSuffices(sw, f.width, n);
    GoneAfter(f, n - 1, 1);
    var last := AgedTimes(f, n - 1);
    assert GoneIn(last, 1);
    assert Times(1, last.ppc) == Times(0, last.ppc) + last.ppc;
  }

  ghost predicate AllGoneIn(g: seq<Sliding>, n: nat) {
    forall c :: 0 <= c < |g| ==> GoneIn(g[c], n)
  }

  lemma {:induction false} PlacedOnlyGrows(s: State, sw: nat, run: seq<Input>)
    requires WellFormed(s)
    ensures |Run(s, sw, run).placed| >= |s.placed|
  {
    if run != [] {
      PlacedOnlyGrows(s, sw, run[..|run| - 1]);
      FrameOnlyPlaces(Run(s, sw, run[..|run| - 1]), sw, run[|run| - 1]);
    }
  }

  lemma FrameOnlyPlaces(s: State, sw: nat, inp: Input)
    requires WellFormed(s)
    ensures |FrameStep(s, sw, inp).placed| >= |s.placed|
  {
  }

  /** A frame that places nothing only moves the texts, and leaves the queue waiting. */
  lemma FailedFrame(s: State, sw: nat, inp: Input, n: nat)
    requires WellFormed(s) && n > 0 && |FrameStep(s, sw, inp).placed| == |s.placed|
    requires s.pending + inp.arrivals != [] && AllGoneIn(s.g, n)
    ensures FrameStep(s, sw, inp).pending != [] && AllGoneIn(FrameStep(s, sw, inp).g, n - 1)
  {
  }

  /** While the head of the queue is tried in vain, the grid empties. */
  lemma {:induction false} WaitingEmptiesGrid(s: State, sw: nat, run: seq<Input>, n: nat)
    requires WellFormed(s) && |Run(s, sw, run).placed| == |s.placed|
    requires run != [] && s.pending + run[0].arrivals != [] && AllGoneIn(s.g, |run| + n)
    ensures Run(s, sw, run).pending != [] && AllGoneIn(Run(s, sw, run).g, n)
  {
    var before, last := run[..|run| - 1], run[|run| - 1];
    var s1 := Run(s, sw, before);
    PlacedOnlyGrows(s, sw, before);
    FrameOnlyPlaces(s1, sw, last);
    if before != [] {
      assert before[0] == run[0];
      WaitingEmptiesGrid(s, sw, before, n + 1);
    }
    FailedFrame(s1, sw, last, n + 1);
  }

  lemma GridEmptiesInTime(s: State, sw: nat, n: nat)
    requires Inv(s, sw) && n + 1 == CYCLE_PER_DANMU
    ensures AllGoneIn(s.g, n)
  {
    forall c | 0 <= c < CELLS
      ensures GoneIn(s.g[c], n)
    {
      assert Moving(s.g[c], sw);
      SpeedSuffices(sw, s.g[c].width, n + 1);
    }
  }

  lemma EmptyGridTakesHead(s: State, sw: nat, inp: Input)
    requires Inv(s, sw) && AllGoneIn(s.g, 0) && s.pending + inp.arrivals != []
    ensures |FrameStep(s, sw, inp).placed| > |s.placed|
  {
  }

  /** From any reachable state, the text at the head of the queue is placed no later than the 384th
      frame that tries it. */
  lemma HeadIsPlacedInTime(s0: State, sw: nat, run: seq<Input>, tries: seq<Input>)
    requires IsInitial(s0) && |tries| == CYCLE_PER_DANMU
    requires Run(s0, sw, run).pending + tries[0].arrivals != []
    ensures |Run(Run(s0, sw, run), sw, tries).placed| > |Run(s0, sw, run).placed|
  {
    RunInv(s0, sw, run);
    var s, n := Run(s0, sw, run), |tries| - 1;
    var before := tries[..n];
    var s1 := Run(s, sw, before);
    PlacedOnlyGrows(s, sw, before);
    FrameOnlyPlaces(s1, sw, tries[n]);
    assert before[0] == tries[0];
    if |s1.placed| == |s.placed| {
      GridEmptiesInTime(s, sw, n);
      WaitingEmptiesGrid(s, sw, before, 0);
      RunInv(s, sw, before);
      EmptyGridTakesHead(s1, sw, tries[n]);
    }
  }
}
