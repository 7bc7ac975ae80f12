/** The render and the overlay thread as one state machine: two program counters, the ring pointers
    and the buffers. One action is one step of one thread, so a sequence of actions is a run of the
    pipeline in one of its interleavings. */
module Pipeline {
  import opened FrameRing

  /** Where `Render` stands: before its wait for room, before GetEmptyBuffer, drawing into a buffer,
      before CommitBuffer. */
  datatype Renderer = WaitRoom | TakeEmpty | Draw(slot: int) | Commit(slot: int)

  /** Where `Thread4Overlay` stands: before its first GetFilledBuffer, before sending a buffer,
      waiting for the transmission, before the size check, before ReleaseBuffer, before the
      GetFilledBuffer that follows it. */
  datatype Overlay =
    TakeFirst | Transmit(slot: int) | WaitDone(slot: int) | CheckSize(slot: int) | Release(slot: int) | TakeNext

  /** A step of a thread. While drawing, a render step leaves any contents in the buffer; `done`
      says that the drawing, or the transmission, has finished. */
  datatype Action<F> = Render(frame: F, done: bool) | Show(done: bool)

  /** `ids[i]` names the commit that filled buffer i, -1 while it is none; `sent` and `sentIds` list
      what was transmitted. `aborted` is set by a failing assert. */
  datatype State<F> = State(
    rd: int, wr: int, renderer: Renderer, overlay: Overlay, aborted: bool,
    buf: seq<F>, ids: seq<int>, committed: seq<F>, sent: seq<F>, sentIds: seq<int>)

  function Initial<F>(buf: seq<F>): State<F> {
    State(0, 0, WaitRoom, TakeFirst, false, buf, seq(NUM_FRAME_BUFFER, i => -1), [], [], [])
  }

  predicate WellFormed<F>(s: State<F>) {
    && Index(s.rd) && Index(s.wr) && |s.buf| == |s.ids| == NUM_FRAME_BUFFER
    && (s.renderer.Draw? || s.renderer.Commit? ==> Index(s.renderer.slot))
  }

  function RenderStep<F>(s: State<F>, frame: F, done: bool): (s': State<F>)
    requires WellFormed(s)
    ensures WellFormed(s')
  {
    match s.renderer
    case WaitRoom =>
      if Fill(s.rd, s.wr) >= NUM_FRAME_BUFFER - 1 then s else s.(renderer := TakeEmpty)
    case TakeEmpty =>
      if Next(s.wr) == s.rd then s else s.(renderer := Draw(s.wr))
    case Draw(i) =>
      s.(buf := s.buf[i := frame], ids := s.ids[i := -1], renderer := if done then Commit(i) else Draw(i))
    case Commit(i) =>
      if Next(s.wr) == s.rd then s.(aborted := true)
      else
        s.(wr := Next(s.wr), committed := s.committed + [s.buf[i]], ids := s.ids[i := |s.committed|],
           renderer := WaitRoom)
  }

  function ShowStep<F>(s: State<F>, done: bool): (s': State<F>)
    requires WellFormed(s)
    ensures WellFormed(s')
  {
    match s.overlay
    case TakeFirst =>
      if s.wr == s.rd then s else s.(overlay := Transmit(s.rd))
    case Transmit(i) =>
      if !Index(i) then s.(aborted := true)
      else s.(sent := s.sent + [s.buf[i]], sentIds := s.sentIds + [s.ids[i]], overlay := WaitDone(i))
    case WaitDone(i) =>
      if done then s.(overlay := CheckSize(i)) else s
    case CheckSize(i) =>
      s.(overlay := if Fill(s.rd, s.wr) > 2 then Release(i) else Transmit(i))
    case Release(_) =>
      if s.rd == s.wr then s.(aborted := true) else s.(rd := Next(s.rd), overlay := TakeNext)
    case TakeNext =>
      s.(overlay := Transmit(if s.wr == s.rd then -1 else s.rd))
  }

  function Step<F>(s: State<F>, a: Action<F>): (s': State<F>)
    requires WellFormed(s)
    ensures WellFormed(s')
  {
    match a
    case Render(frame, done) => RenderStep(s, frame, done)
    case Show(done) => ShowStep(s, done)
  }

  // ----- the invariant -----

  function Filled<F>(s: State<F>): int
    requires WellFormed(s)
  {
    Fill(s.rd, s.wr)
  }

  /** Number of the oldest frame still in the ring. */
  function Oldest<F>(s: State<F>): int
    requires WellFormed(s)
  {
    |s.committed| - Filled(s)
  }

  /** The overlay thread holds this buffer: from GetFilledBuffer to ReleaseBuffer. */
  predicate Holds<F>(s: State<F>, i: int) {
    match s.overlay
    case Transmit(j) => i == j
    case WaitDone(j) => i == j
    case CheckSize(j) => i == j
    case Release(j) => i == j
    case _ => false
  }

  /** The render thread is writing this buffer. */
  predicate Draws<F>(s: State<F>, i: int) {
    (s.renderer.Draw? || s.renderer.Commit?) && s.renderer.slot == i
  }

  /** The filled buffers hold the youngest commits, in order, unchanged. */
  ghost predicate RingHoldsCommits<F>(s: State<F>)
    requires WellFormed(s)
  {
    && 0 <= Oldest(s)
    && forall k :: 0 <= k < Filled(s) ==>
      s.buf[Slot(s.rd, k)] == s.committed[Oldest(s) + k] && s.ids[Slot(s.rd, k)] == Oldest(s) + k
  }

  ghost predicate RendererOk<F>(s: State<F>)
    requires WellFormed(s)
  {
    match s.renderer
    case WaitRoom => true
    case TakeEmpty => Filled(s) < NUM_FRAME_BUFFER - 1
    case Draw(i) => i == s.wr && Filled(s) < NUM_FRAME_BUFFER - 1
    case Commit(i) => i == s.wr && Filled(s) < NUM_FRAME_BUFFER - 1
  }

  /** What the overlay thread knows, and the number it sent last. */
  ghost predicate OverlayOk<F>(s: State<F>)
    requires WellFormed(s)
  {
    var last := Last(s.sentIds);
    match s.overlay
    case TakeFirst => s.sentIds == [] && Oldest(s) == 0
    case Transmit(i) => i == s.rd && Filled(s) >= 1 && (last == Oldest(s) || last == Oldest(s) - 1)
    case WaitDone(i) => i == s.rd && Filled(s) >= 1 && last == Oldest(s)
    case CheckSize(i) => i == s.rd && Filled(s) >= 1 && last == Oldest(s)
    case Release(i) => i == s.rd && Filled(s) > 2 && last == Oldest(s)
    case TakeNext => Filled(s) >= 2 && last == Oldest(s) - 1
  }

  /** Everything sent so far is a commit as it was committed, and each transmission repeats the one
      before it or is the next commit. */
  ghost predicate LogOk<F>(sent: seq<F>, ids: seq<int>, committed: seq<F>) {
    && |sent| == |ids|
    && (forall k :: 0 <= k < |ids| ==> 0 <= ids[k] < |committed| && sent[k] == committed[ids[k]])
    && (ids != [] ==> ids[0] == 0)
    && forall k :: 0 < k < |ids| ==> ids[k - 1] <= ids[k] <= ids[k - 1] + 1
  }

  function Last(ids: seq<int>): int { if ids == [] then -1 else ids[|ids| - 1] }

  lemma LogSurvivesCommit<F>(sent: seq<F>, ids: seq<int>, committed: seq<F>, frame: F)
    requires LogOk(sent, ids, committed)
    ensures LogOk(sent, ids, committed + [frame])
  {
  }

  lemma LogGrows<F>(sent: seq<F>, ids: seq<int>, committed: seq<F>, id: int)
    requires LogOk(sent, ids, committed) && 0 <= id < |committed| && Last(ids) <= id <= Last(ids) + 1
    ensures LogOk(sent + [committed[id]], ids + [id], committed)
  {
  }

  ghost predicate Inv<F>(s: State<F>) {
    && WellFormed(s) && !s.aborted && LogOk(s.sent, s.sentIds, s.committed)
    && RingHoldsCommits(s) && RendererOk(s) && OverlayOk(s)
  }

  lemma InitialInv<F>(buf: seq<F>)
    requires |buf| == NUM_FRAME_BUFFER
    ensures Inv(Initial(buf))
  {
  }

  /** Drawing happens outside the filled part of the ring. */
  lemma DrawKeepsRing<F>(s: State<F>, frame: F, done: bool)
    requires Inv(s) && s.renderer.Draw?
    ensures var s' := RenderStep(s, frame, done); WellFormed(s') && RingHoldsCommits(s')
  {
    var s' := RenderStep(s, frame, done);
    assert Filled(s') == Filled(s) && Oldest(s') == Oldest(s);
    forall k | 0 <= k < Filled(s)
      ensures s'.buf[Slot(s.rd, k)] == s.committed[Oldest(s) + k] && s'.ids[Slot(s.rd, k)] == Oldest(s) + k
    {
      assert Slot(s.rd, k) != s.wr;
    }
  }

  /** A commit extends it by one. */
  lemma CommitKeepsRing<F>(s: State<F>, frame: F, done: bool)
    requires Inv(s) && s.renderer.Commit?
    ensures var s' := RenderStep(s, frame, done); WellFormed(s') && RingHoldsCommits(s')
  {
    var s' := RenderStep(s, frame, done);
    assert Filled(s') == Filled(s) + 1 && Oldest(s') == Oldest(s);
    forall k | 0 <= k < Filled(s')
      ensures s'.buf[Slot(s.rd, k)] == s'.committed[Oldest(s) + k] && s'.ids[Slot(s.rd, k)] == Oldest(s) + k
    {
      assert if k < Filled(s) then Slot(s.rd, k) != s.wr else Slot(s.rd, k) == s.wr;
    }
  }

  lemma RenderKeepsRing<F>(s: State<F>, frame: F, done: bool)
    requires Inv(s)
    ensures var s' := RenderStep(s, frame, done); WellFormed(s') && RingHoldsCommits(s')
  {
    if s.renderer.Draw? {
      DrawKeepsRing(s, frame, done);
    } else if s.renderer.Commit? {
      CommitKeepsRing(s, frame, done);
    }
  }

  lemma RenderKeepsThreads<F>(s: State<F>, frame: F, done: bool)
    requires Inv(s) && !s.renderer.Commit? && WellFormed(RenderStep(s, frame, done))
    ensures var s' := RenderStep(s, frame, done);
            !s'.aborted && RendererOk(s') && OverlayOk(s') && LogOk(s'.sent, s'.sentIds, s'.committed)
  {
  }

  /** A commit leaves the oldest frame the oldest. */
  lemma CommitKeepsThreads<F>(s: State<F>, frame: F, done: bool)
    requires Inv(s) && s.renderer.Commit? && WellFormed(RenderStep(s, frame, done))
    ensures var s' := RenderStep(s, frame, done);
            !s'.aborted && RendererOk(s') && OverlayOk(s') && LogOk(s'.sent, s'.sentIds, s'.committed)
  {
    LogSurvivesCommit(s.sent, s.sentIds, s.committed, s.buf[s.renderer.slot]);
    assert Oldest(RenderStep(s, frame, done)) == Oldest(s);
  }

  /** Only ReleaseBuffer shrinks the filled part of the ring, at its old end. */
  lemma ReleaseKeepsRing<F>(s: State<F>)
    requires Inv(s) && s.rd != s.wr
    ensures var s' := s.(rd := Next(s.rd)); WellFormed(s') && RingHoldsCommits(s') && Filled(s') == Filled(s) - 1
  {
    var s' := s.(rd := Next(s.rd));
    forall k | 0 <= k < Filled(s')
      ensures s.buf[Slot(s'.rd, k)] == s.committed[Oldest(s') + k] && s.ids[Slot(s'.rd, k)] == Oldest(s') + k
    {
      assert Slot(s'.rd, k) == Slot(s.rd, k + 1);
    }
  }

  /** A transmission sends the oldest commit in the ring. */
  lemma TransmitSendsOldest<F>(s: State<F>)
    requires Inv(s) && s.overlay.Transmit?
    ensures var s' := ShowStep(s, true);
            && s'.sent == s.sent + [s.committed[Oldest(s)]] && s'.sentIds == s.sentIds + [Oldest(s)]
            && LogOk(s'.sent, s'.sentIds, s.committed)
  {
    assert Slot(s.rd, 0) == s.rd;
    LogGrows(s.sent, s.sentIds, s.committed, Oldest(s));
  }

  lemma TransmitInv<F>(s: State<F>, done: bool)
    requires Inv(s) && s.overlay.Transmit?
    ensures Inv(ShowStep(s, done))
  {
    TransmitSendsOldest(s);
  }

  lemma ReleaseInv<F>(s: State<F>, done: bool)
    requires Inv(s) && s.overlay.Release?
    ensures Inv(ShowStep(s, done))
  {
    ReleaseKeepsRing(s);
  }

  /** The other steps of the overlay thread change nothing but where it stands. */
  lemma OverlayMoves<F>(s: State<F>, overlay: Overlay)
    requires Inv(s) && OverlayOk(s.(overlay := overlay))
    ensures Inv(s.(overlay := overlay))
  {
    assert Filled(s.(overlay := overlay)) == Filled(s) && Oldest(s.(overlay := overlay)) == Oldest(s);
  }

  lemma WaitInv<F>(s: State<F>, done: bool)
    requires Inv(s) && !s.overlay.Transmit? && !s.overlay.Release?
    ensures Inv(ShowStep(s, done))
  {
    var s' := ShowStep(s, done);
    assert s' == s.(overlay := s'.overlay) && OverlayOk(s');
    OverlayMoves(s, s'.overlay);
  }

  lemma ShowStepInv<F>(s: State<F>, done: bool)
    requires Inv(s)
    ensures Inv(ShowStep(s, done))
  {
    if s.overlay.Transmit? {
      TransmitInv(s, done);
    } else if s.overlay.Release? {
      ReleaseInv(s, done);
    } else {
      WaitInv(s, done);
    }
  }

  lemma StepInv<F>(s: State<F>, a: Action<F>)
    requires Inv(s)
    ensures Inv(Step(s, a))
  {
    match a
    case Render(frame, done) =>
      RenderKeepsRing(s, frame, done);
      if s.renderer.Commit? {
        CommitKeepsThreads(s, frame, done);
      } else {
        RenderKeepsThreads(s, frame, done);
      }
    case Show(done) =>
      ShowStepInv(s, done);
  }

  // ----- all runs -----

  function Run<F>(s: State<F>, run: seq<Action<F>>): (s': State<F>)
    requires WellFormed(s)
    ensures WellFormed(s')
  {
    if run == [] then s else Step(Run(s, run[..|run| - 1]), run[|run| - 1])
  }

  lemma {:induction false} RunInv<F>(s: State<F>, run: seq<Action<F>>)
    requires Inv(s)
    ensures Inv(Run(s, run))
  {
    if run != [] {
      RunInv(s, run[..|run| - 1]);
      StepInv(Run(s, run[..|run| - 1]), run[|run| - 1]);
    }
  }

  /** In every interleaving: no assert fails, the two threads never touch the same buffer, the index
      about to be transmitted is a buffer, and once the overlay thread has a buffer there is always
      one for it. */
  lemma ThreadsNeverCollide<F>(buf: seq<F>, run: seq<Action<F>>)
    requires |buf| == NUM_FRAME_BUFFER
    ensures var s := Run(Initial(buf), run);
            && !s.aborted
            && (forall i :: !(Draws(s, i) && Holds(s, i)))
            && (s.overlay.Transmit? ==> Index(s.overlay.slot))
            && (!s.overlay.TakeFirst? ==> Filled(s) >= 1)
  {
    InitialInv(buf);
    RunInv(Initial(buf), run);
  }

  /** While the overlay thread holds a buffer, no step of either thread changes it. */
  lemma HeldBufferIsStable<F>(buf: seq<F>, run: seq<Action<F>>, a: Action<F>, i: int)
    requires |buf| == NUM_FRAME_BUFFER && Index(i) && Holds(Run(Initial(buf), run), i)
    ensures var s := Run(Initial(buf), run);
            && 0 <= Oldest(s) < |s.committed|
            && Step(s, a).buf[i] == s.buf[i] == s.committed[Oldest(s)]
  {
    InitialInv(buf);
    RunInv(Initial(buf), run);
    assert Slot(Run(Initial(buf), run).rd, 0) == i;
  }

  /** The transmissions without those that repeat the frame just sent. */
  function WithoutRepeats<F>(sent: seq<F>, ids: seq<int>): seq<F>
    requires |sent| == |ids|
  {
    if ids == [] then []
    else
      var n := |ids| - 1;
      var before := WithoutRepeats(sent[..n], ids[..n]);
      if n > 0 && ids[n] == ids[n - 1] then before else before + [sent[n]]
  }

  lemma {:induction false} LogIsPrefix<F>(sent: seq<F>, ids: seq<int>, committed: seq<F>)
    requires LogOk(sent, ids, committed)
    ensures -1 <= Last(ids) < |committed|
    ensures WithoutRepeats(sent, ids) == committed[..Last(ids) + 1]
  {
    if ids != [] {
      var n := |ids| - 1;
      LogIsPrefix(sent[..n], ids[..n], committed);
      assert n > 0 ==> Last(ids[..n]) == ids[n - 1];
    }
  }

  /** Over every run, what is transmitted, repeats aside, is a prefix of what was committed. */
  lemma FramesArriveInOrder<F>(buf: seq<F>, run: seq<Action<F>>)
    requires |buf| == NUM_FRAME_BUFFER
    ensures var s := Run(Initial(buf), run); |s.sent| == |s.sentIds| && WithoutRepeats(s.sent, s.sentIds) <= s.committed
  {
    InitialInv(buf);
    RunInv(Initial(buf), run);
    var s := Run(Initial(buf), run);
    LogIsPrefix(s.sent, s.sentIds, s.committed);
  }

  // ----- what holds of every frame -----

  /** Whenever the drawing of a frame finishes, the frame has the property. */
  ghost predicate DrawsOnly<F>(run: seq<Action<F>>, good: F -> bool) {
    forall k :: 0 <= k < |run| && run[k].Render? && run[k].done ==> good(run[k].frame)
  }

  ghost predicate CommitsOnly<F>(s: State<F>, good: F -> bool)
    requires WellFormed(s)
  {
    && (forall k :: 0 <= k < |s.committed| ==> good(s.committed[k]))
    && (s.renderer.Commit? ==> good(s.buf[s.renderer.slot]))
  }

  lemma {:induction false} RunCommitsOnly<F>(s: State<F>, run: seq<Action<F>>, good: F -> bool)
    requires WellFormed(s) && CommitsOnly(s, good) && DrawsOnly(run, good)
    ensures CommitsOnly(Run(s, run), good)
  {
    if run != [] {
      RunCommitsOnly(s, run[..|run| - 1], good);
      StepCommitsOnly(Run(s, run[..|run| - 1]), run[|run| - 1], good);
    }
  }

  lemma StepCommitsOnly<F>(s: State<F>, a: Action<F>, good: F -> bool)
    requires WellFormed(s) && CommitsOnly(s, good) && (a.Render? && a.done ==> good(a.frame))
    ensures CommitsOnly(Step(s, a), good)
  {
  }

  /** So in every interleaving each frame that is transmitted has it, however little of the drawing of the
      next ones is done. */
  lemma ShowsOnly<F>(buf: seq<F>, run: seq<Action<F>>, good: F -> bool)
    requires |buf| == NUM_FRAME_BUFFER && DrawsOnly(run, good)
    ensures var s := Run(Initial(buf), run); forall k :: 0 <= k < |s.sent| ==> good(s.sent[k])
  {
    InitialInv(buf);
    RunInv(Initial(buf), run);
    RunCommitsOnly(Initial(buf), run, good);
    var s := Run(Initial(buf), run);
    assert LogOk(s.sent, s.sentIds, s.committed);
  }

  // ----- progress -----

  /** The ring has moved: a frame was committed or a buffer released. */
  function Moves<F>(s: State<F>): int
    requires WellFormed(s)
  {
    |s.committed| + Oldest(s)
  }

  /** Steps of the render thread, other than unfinished drawing, before its commit; it only waits
      when the ring is full. */
  function RenderDistance(r: Renderer): nat {
    match r case WaitRoom => 3 case TakeEmpty => 2 case Draw(_) => 1 case Commit(_) => 0
  }

  /** Steps of the overlay thread, other than waiting for the transmission, before its release; in a
      full ring it does not wait. */
  function ShowDistance(o: Overlay): nat {
    match o
    case TakeFirst => 4
    case TakeNext => 4
    case Transmit(_) => 3
    case WaitDone(_) => 2
    case CheckSize(_) => 1
    case Release(_) => 0
  }

  /** The threads cannot both be waiting for each other: with room the render thread, in a full ring
      the overlay thread gets nearer to moving the ring with each of its own steps, and the steps of
      the other never set it back. */
  lemma StepProgress<F>(s: State<F>, a: Action<F>)
    requires Inv(s)
    ensures var s' := Step(s, a);
            && (Moves(s') == Moves(s) || Moves(s') == Moves(s) + 1)
            && (Moves(s') == Moves(s) ==> Filled(s') == Filled(s))
            && (Moves(s') == Moves(s) && Filled(s) < NUM_FRAME_BUFFER - 1 ==>
                  RenderDistance(s'.renderer) + (if a.Render? && a.done then 1 else 0) <= RenderDistance(s.renderer))
            && (Moves(s') == Moves(s) && Filled(s) == NUM_FRAME_BUFFER - 1 ==>
                  ShowDistance(s'.overlay) + (if a.Show? && a.done then 1 else 0) <= ShowDistance(s.overlay))
  {
    if a.Render? {
      assert Step(s, a) == RenderStep(s, a.frame, a.done);
    } else {
      assert Step(s, a) == ShowStep(s, a.done);
    }
  }

  function RenderSteps<F>(run: seq<Action<F>>): nat {
    if run == [] then 0
    else RenderSteps(run[..|run| - 1]) + if run[|run| - 1].Render? && run[|run| - 1].done then 1 else 0
  }

  function ShowSteps<F>(run: seq<Action<F>>): nat {
    if run == [] then 0
    else ShowSteps(run[..|run| - 1]) + if run[|run| - 1].Show? && run[|run| - 1].done then 1 else 0
  }

  lemma {:induction false} RunProgress<F>(s: State<F>, run: seq<Action<F>>)
    requires Inv(s)
    ensures var s' := Run(s, run);
            && Moves(s') >= Moves(s)
            && (Moves(s') == Moves(s) ==> Filled(s') == Filled(s))
            && (Moves(s') == Moves(s) && Filled(s) < NUM_FRAME_BUFFER - 1 ==>
                  RenderDistance(s'.renderer) + RenderSteps(run) <= RenderDistance(s.renderer))
            && (Moves(s') == Moves(s) && Filled(s) == NUM_FRAME_BUFFER - 1 ==>
                  ShowDistance(s'.overlay) + ShowSteps(run) <= ShowDistance(s.overlay))
  {
    if run != [] {
      var before := run[..|run| - 1];
      RunProgress(s, before);
      RunInv(s, before);
      StepProgress(Run(s, before), run[|run| - 1]);
    }
  }

  /** No standstill: from wherever a run has got to, any continuation in which the render thread makes
      four and the overlay thread five effective steps, however interleaved, commits another frame or
      releases another buffer. */
  lemma PipelineNeverStalls<F>(buf: seq<F>, run: seq<Action<F>>, more: seq<Action<F>>)
    requires |buf| == NUM_FRAME_BUFFER && RenderSteps(more) >= 4 && ShowSteps(more) >= 5
    ensures var s := Run(Initial(buf), run); Moves(Run(s, more)) > Moves(s)
  {
    InitialInv(buf);
    RunInv(Initial(buf), run);
    RunProgress(Run(Initial(buf), run), more);
  }

  // ----- the overlay thread -----

  /** More than two filled: the overlay thread gets nearer to releasing a buffer with each of its own
      steps, and a commit of the other does not set it back. */
  lemma OverlayProgress<F>(s: State<F>, a: Action<F>)
    requires Inv(s) && Filled(s) > 2
    ensures var s' := Step(s, a);
            || Oldest(s') == Oldest(s) + 1
            || (Oldest(s') == Oldest(s) && Filled(s') > 2
                && ShowDistance(s'.overlay) + (if a.Show? && a.done then 1 else 0) <= ShowDistance(s.overlay))
  {
    if a.Render? {
      assert Step(s, a) == RenderStep(s, a.frame, a.done);
    } else {
      assert Step(s, a) == ShowStep(s, a.done);
    }
  }

  /** No step takes a frame out of the ring with fewer than three in it. */
  lemma TwoStay<F>(s: State<F>, a: Action<F>)
    requires Inv(s) && Filled(s) <= 2
    ensures Oldest(Step(s, a)) == Oldest(s)
  {
    if a.Render? {
      assert Step(s, a) == RenderStep(s, a.frame, a.done);
    } else {
      assert Step(s, a) == ShowStep(s, a.done);
    }
  }

  lemma OldestNeverFalls<F>(s: State<F>, a: Action<F>)
    requires Inv(s)
    ensures Oldest(Step(s, a)) >= Oldest(s)
  {
    if Filled(s) > 2 {
      OverlayProgress(s, a);
    } else {
      TwoStay(s, a);
    }
  }

  lemma {:induction false} OverlayRun<F>(s: State<F>, run: seq<Action<F>>)
    requires Inv(s) && Filled(s) > 2
    ensures var s' := Run(s, run);
            || Oldest(s') > Oldest(s)
            || (Oldest(s') == Oldest(s) && Filled(s') > 2
                && ShowDistance(s'.overlay) + ShowSteps(run) <= ShowDistance(s.overlay))
  {
    if run != [] {
      var before := run[..|run| - 1];
      OverlayRun(s, before);
      RunInv(s, before);
      OldestNeverFalls(Run(s, before), run[|run| - 1]);
      if Oldest(Run(s, before)) == Oldest(s) {
        OverlayProgress(Run(s, before), run[|run| - 1]);
      }
    }
  }

  /** So from every reachable state with more than two buffers filled, five effective steps of the overlay
      thread, whatever the other does in between, release one. */
  lemma OverlayReleases<F>(buf: seq<F>, run: seq<Action<F>>, more: seq<Action<F>>)
    requires |buf| == NUM_FRAME_BUFFER && Filled(Run(Initial(buf), run)) > 2 && ShowSteps(more) >= 5
    ensures var s := Run(Initial(buf), run); Oldest(Run(s, more)) > Oldest(s)
  {
    InitialInv(buf);
    RunInv(Initial(buf), run);
    OverlayRun(Run(Initial(buf), run), more);
  }
}
