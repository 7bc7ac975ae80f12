/** The resting texts over whole runs: which slot a text takes, and how long it stays. */
module Resting {
  import opened FontMap
  import opened Painter

  const NUM_STATIC_LAYER := 5
  const DURATION := 300

  /** The slot for a new resting text: the first free one, or the one that was drawn by lot. */
  function StaticSlot(t: seq<Static>, lot: nat, k: nat): (slot: nat)
    requires k <= |t| && lot < |t|
    ensures slot < |t| && (slot < k ==> slot == lot)
    ensures (exists i :: k <= i < |t| && !t[i].enable) ==>
      k <= slot && !t[slot].enable && forall i :: k <= i < slot ==> t[i].enable
    ensures (forall i :: k <= i < |t| ==> t[i].enable) ==> slot == lot
    decreases |t| - k
  {
    if k == |t| then lot else if !t[k].enable then k else StaticSlot(t, lot, k + 1)
  }

  function PlaceStatic(t: seq<Static>, lot: nat, r: Rendering): (t': seq<Static>)
    requires lot < |t| && forall i :: 0 <= i < |t| ==> IsMap(t[i].pixels)
    ensures |t'| == |t|
  {
    var k := StaticSlot(t, lot, 0);
    t[k := t[k].(pixels := MapAfter(r, t[k].pixels), validLen := r.OutWidth(), enable := true, counter := 0)]
  }

  function AgedStatic(l: Static): Static {
    if !l.enable then l
    else if l.counter + 1 >= DURATION then l.(counter := l.counter + 1, enable := false)
    else l.(counter := l.counter + 1)
  }

  function AgeStill(t: seq<Static>): (t': seq<Static>)
    ensures |t'| == |t| && forall k :: 0 <= k < |t| ==> t'[k] == AgedStatic(t[k])
  {
    seq(|t|, k requires 0 <= k < |t| => AgedStatic(t[k]))
  }

  /** The resting layers at the start of a frame, and the texts that wait for one. */
  datatype Rest = Rest(t: seq<Static>, waiting: seq<string>)

  /** What the outside contributes to a frame: texts that arrive, how the one at the head of the queue
      renders, and the slot drawn by lot. */
  datatype Arrival = Arrival(texts: seq<string>, rendering: Rendering, lot: nat)

  predicate IsRest(s: Rest) {
    |s.t| == NUM_STATIC_LAYER && forall k :: 0 <= k < |s.t| ==> IsMap(s.t[k].pixels)
  }

  predicate IsArrival(a: Arrival) { a.lot < NUM_STATIC_LAYER }

  /** Fetch, InsertStatic and Pop. */
  function Settle(s: Rest, a: Arrival): (s': Rest)
    requires IsRest(s) && IsArrival(a)
    ensures IsRest(s')
  {
    var waiting := s.waiting + a.texts;
    if waiting == [] then s.(waiting := []) else Rest(PlaceStatic(s.t, a.lot, a.rendering), waiting[1..])
  }

  function StillStep(s: Rest, a: Arrival): (s': Rest)
    requires IsRest(s) && IsArrival(a)
    ensures IsRest(s')
  {
    var s1 := Settle(s, a);
    s1.(t := AgeStill(s1.t))
  }

  function StillRun(s: Rest, run: seq<Arrival>): (s': Rest)
    requires IsRest(s) && forall m :: 0 <= m < |run| ==> IsArrival(run[m])
    ensures IsRest(s')
  {
    if run == [] then s else StillStep(StillRun(s, run[..|run| - 1]), run[|run| - 1])
  }

  /** This frame puts a text into slot k. */
  predicate Takes(s: Rest, a: Arrival, k: nat)
    requires IsRest(s) && IsArrival(a)
  {
    s.waiting + a.texts != [] && StaticSlot(s.t, a.lot, 0) == k
  }

  /** l after n frames. */
  function AgedStillTimes(l: Static, n: nat): Static {
    if n == 0 then l else AgedStatic(AgedStillTimes(l, n - 1))
  }

  /** l is the layer `before` with a new text, n frames on: it is enabled for less than 300 frames and never
      after, and shows the text's map in the same row at the same width throughout. */
  ghost predicate ShowsText(l: Static, before: Static, r: Rendering, n: nat)
    requires IsMap(before.pixels)
  {
    && (l.enable <==> n < 300) && (n < 300 ==> l.counter == n)
    && l.pixels == MapAfter(r, before.pixels) && l.y == before.y && l.validLen == r.OutWidth()
  }

  lemma {:induction false} RestingAges(t: seq<Static>, lot: nat, r: Rendering, n: nat)
    requires lot < |t| && forall i :: 0 <= i < |t| ==> IsMap(t[i].pixels)
    ensures var k := StaticSlot(t, lot, 0); ShowsText(AgedStillTimes(PlaceStatic(t, lot, r)[k], n), t[k], r, n)
  {
    if n > 0 {
      RestingAges(t, lot, r, n - 1);
      var k := StaticSlot(t, lot, 0);
      AgeShowsText(AgedStillTimes(PlaceStatic(t, lot, r)[k], n - 1), t[k], r, n - 1);
    }
  }

  lemma AgeShowsText(l: Static, before: Static, r: Rendering, n: nat)
    requires IsMap(before.pixels) && ShowsText(l, before, r, n)
    ensures ShowsText(AgedStatic(l), before, r, n + 1)
  {
  }

  lemma StepPlaces(s: Rest, a: Arrival, k: nat)
    requires IsRest(s) && IsArrival(a) && k < NUM_STATIC_LAYER && Takes(s, a, k)
    ensures ShowsText(StillStep(s, a).t[k], s.t[k], a.rendering, 1)
  {
  }

  lemma StepKeeps(s: Rest, a: Arrival, k: nat)
    requires IsRest(s) && IsArrival(a) && k < NUM_STATIC_LAYER && !Takes(s, a, k)
    ensures StillStep(s, a).t[k] == AgedStatic(s.t[k])
  {
  }

  /** The frames of the run after its first leave slot k alone. */
  ghost predicate KeepsSlot(s: Rest, run: seq<Arrival>, k: nat)
    requires IsRest(s) && forall m :: 0 <= m < |run| ==> IsArrival(run[m])
  {
    forall m :: 1 <= m < |run| ==> !Takes(StillRun(s, run[..m]), run[m], k)
  }

  lemma KeepsSlotBefore(s: Rest, run: seq<Arrival>, k: nat)
    requires IsRest(s) && (forall m :: 0 <= m < |run| ==> IsArrival(run[m])) && run != [] && KeepsSlot(s, run, k)
    ensures KeepsSlot(s, run[..|run| - 1], k)
  {
    var init := run[..|run| - 1];
    forall m | 1 <= m < |init|
      ensures !Takes(StillRun(s, init[..m]), init[m], k)
    {
      assert init[..m] == run[..m];
    }
  }

  /** A text placed in the first frame of a run, from any state, and not replaced in it: it is among the
      layers shown in the frame that places it and the 298 that follow, 299 in all, and in none after. */
  lemma {:induction false} RestingTextLasts(s: Rest, run: seq<Arrival>, k: nat)
    requires IsRest(s) && (forall m :: 0 <= m < |run| ==> IsArrival(run[m])) && k < NUM_STATIC_LAYER
    requires run != [] && Takes(s, run[0], k) && KeepsSlot(s, run, k)
    ensures ShowsText(StillRun(s, run).t[k], s.t[k], run[0].rendering, |run|)
  {
    var init, last := run[..|run| - 1], run[|run| - 1];
    if init == [] {
      assert StillRun(s, init) == s;
      StepPlaces(s, last, k);
    } else {
      KeepsSlotBefore(s, run, k);
      RestingTextLasts(s, init, k);
      assert !Takes(StillRun(s, init), last, k);
      StepKeeps(StillRun(s, init), last, k);
      AgeShowsText(StillRun(s, init).t[k], s.t[k], run[0].rendering, |init|);
    }
  }

  /** It is replaced before its time only when no slot is free, and the lot falls on it. */
  lemma OnlyLotReplaces(s: Rest, a: Arrival, k: nat)
    requires IsRest(s) && IsArrival(a) && k < NUM_STATIC_LAYER && s.t[k].enable && Takes(s, a, k)
    ensures a.lot == k && forall i :: 0 <= i < NUM_STATIC_LAYER ==> s.t[i].enable
  {
  }

  /** Texts wait their turn: each frame takes the first of those that wait. */
  lemma WaitingGetsShorter(s: Rest, a: Arrival)
    requires IsRest(s) && IsArrival(a)
    ensures var waiting := s.waiting + a.texts;
            StillStep(s, a).waiting == if waiting == [] then [] else waiting[1..]
  {
  }
}
