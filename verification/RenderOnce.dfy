/** One rendered frame: input, placement, motion and drawing together. */
module RenderOnce {
  import opened Options
  import opened FontMap
  import opened Frame
  import opened Painter
  import opened Picture
  import opened Scheduler
  import opened SlidingRuns
  import opened Resting
  import opened MessageQueue

  /** A line of standard input, by its type digit; without one, the texts a button press reports. */
  datatype Line = Slide(text: string) | Still(text: string) | Unknown | NoLine(reports: seq<string>)

  // ----- what the layers show -----

  function Scene(s: Screen, g: seq<Sliding>, t: seq<Static>): (scene: seq<Sprite>)
    ensures |scene| == |g| + |t|
    ensures forall k :: 0 <= k < |g| ==> scene[k] == g[k].AsSprite()
    ensures forall k :: 0 <= k < |t| ==> scene[|g| + k] == t[k].AsSprite(s)
  {
    seq(|g|, k requires 0 <= k < |g| => g[k].AsSprite()) + seq(|t|, k requires 0 <= k < |t| => t[k].AsSprite(s))
  }

  /** The layer fits the screen, and shows no sync code. */
  ghost predicate SlidingOk(s: Screen, l: Sliding) {
    && l.y < NUM_ROWS && IsMap(l.pixels) && l.width <= MAX_WIDTH && s.Edge() <= MAX_HEIGHT
    && l.AsSprite().Valid(s) && IsClean(s, l.AsSprite())
  }

  ghost predicate StaticOk(s: Screen, l: Static) {
    && l.y < NUM_ROWS && IsMap(l.pixels) && l.validLen <= MAX_WIDTH && s.Edge() <= MAX_HEIGHT
    && l.AsSprite(s).Valid(s) && IsClean(s, l.AsSprite(s))
  }

  /** A rendering for this screen of a text that is no wider than its cells. */
  predicate Fits(s: Screen, r: Rendering) {
    r.Valid() && r.edge == s.Edge() && r.width <= r.edge * r.len
  }

  lemma FreshIsOk(s: Screen, l: Sliding, r: Rendering)
    requires s.Valid() && Fits(s, r) && SlidingOk(s, l)
    ensures SlidingOk(s, Fresh(l, s.width, r))
  {
  }

  lemma PlacedStaticIsOk(s: Screen, l: Static, r: Rendering)
    requires s.Valid() && Fits(s, r) && StaticOk(s, l)
    ensures StaticOk(s, l.(pixels := MapAfter(r, l.pixels), validLen := r.OutWidth(), enable := true, counter := 0))
  {
  }

  lemma AgedIsOk(s: Screen, l: Sliding, m: Static)
    requires SlidingOk(s, l) && StaticOk(s, m)
    ensures SlidingOk(s, Aged(l)) && StaticOk(s, AgedStatic(m))
  {
  }

  method InsertStatic(s: Screen, still: array<Static>, r: Rendering, lot: nat)
    requires lot < still.Length == NUM_STATIC_LAYER && forall i :: 0 <= i < still.Length ==> IsMap(still[i].pixels)
    modifies still
    ensures still[..] == PlaceStatic(old(still[..]), lot, r)
  {
    ghost var t := still[..];
    for i := 0 to NUM_STATIC_LAYER
      invariant still[..] == t && StaticSlot(t, lot, 0) == StaticSlot(t, lot, i)
    {
      if !still[i].enable {
        ForceStaticSetDanmu(still, i, r);
        return;
      }
    }
    ForceStaticSetDanmu(still, lot, r);
  }

  method ForceStaticSetDanmu(still: array<Static>, k: nat, r: Rendering)
    requires k < still.Length && IsMap(still[k].pixels)
    modifies still
    ensures still[..] == old(still[..])[k := old(still[k]).(pixels := MapAfter(r, old(still[k]).pixels),
      validLen := r.OutWidth(), enable := true, counter := 0)]
  {
    still[k] := still[k].(pixels := MapAfter(r, still[k].pixels), validLen := r.OutWidth());
    still[k] := still[k].(enable := true);
    still[k] := still[k].(counter := 0);
  }

  /** The motion of all layers. */
  method NextCycle(cells: array<Sliding>, still: array<Static>)
    modifies cells, still
    ensures cells[..] == AgeAll(old(cells[..]))
    ensures |still[..]| == |old(still[..])|
    ensures forall k :: 0 <= k < still.Length ==> still[k] == AgedStatic(old(still[k]))
  {
    for c := 0 to cells.Length
      invariant still[..] == old(still[..])
      invariant forall k :: 0 <= k < c ==> cells[k] == Aged(old(cells[k]))
      invariant forall k :: c <= k < cells.Length ==> cells[k] == old(cells[k])
    {
      ghost var before := cells[..];
      SlidingNextCycle(cells, c);
      assert forall k :: 0 <= k < cells.Length && k != c ==> cells[k] == before[k];
    }
    ghost var moved := cells[..];
    for k := 0 to still.Length
      invariant cells[..] == moved
      invariant forall i :: 0 <= i < k ==> still[i] == AgedStatic(old(still[i]))
      invariant forall i :: k <= i < still.Length ==> still[i] == old(still[i])
    {
      if still[k].enable {
        still[k] := still[k].(counter := still[k].counter + 1);
        if still[k].counter >= DURATION {
          still[k] := still[k].(enable := false);
        }
      }
    }
  }

  lemma SceneIsDrawable(s: Screen, g: seq<Sliding>, t: seq<Static>)
    requires s.Valid()
    requires forall c :: 0 <= c < |g| ==> SlidingOk(s, g[c])
    requires forall k :: 0 <= k < |t| ==> StaticOk(s, t[k])
    ensures Drawable(s, Scene(s, g, t)) && Clean(s, Scene(s, g, t))
  {
  }

  /** Clear the buffer and draw all layers over it. */
  method DrawLayers(s: Screen, blank: array<int>, buf: array<int>, cells: array<Sliding>, still: array<Static>)
    requires s.Valid() && blank != buf && blank[..] == BlankLines(s, s.height) && buf.Length == blank.Length
    requires forall c :: 0 <= c < cells.Length ==> SlidingOk(s, cells[c])
    requires forall k :: 0 <= k < still.Length ==> StaticOk(s, still[k])
    modifies buf
    ensures Drawable(s, Scene(s, cells[..], still[..])) && Shows(s, buf[..], Scene(s, cells[..], still[..]))
    ensures Parse(buf[..]) == Some(PictureLines(s, Scene(s, cells[..], still[..]), 0))
  {
    ghost var scene := Scene(s, cells[..], still[..]);
    SceneIsDrawable(s, cells[..], still[..]);
    CopyBytes(buf, 0, blank[..], 0, buf.Length);
    assert buf[..] == BlankLines(s, s.height);
    TemplateShowsNothing(s);
    assert scene[..0] == [];
    DrawSliding(s, buf, cells, scene);
    DrawStill(s, buf, still, scene, cells.Length);
    assert scene[..|scene|] == scene;
    FrameParses(s, buf[..], scene);
  }

  /** The sliding layers are the first of the scene. */
  method DrawSliding(s: Screen, buf: array<int>, cells: array<Sliding>, ghost scene: seq<Sprite>)
    requires s.Valid() && buf.Length == s.Base(s.height) && Drawable(s, scene) && cells.Length <= |scene|
    requires forall c :: 0 <= c < cells.Length ==> SlidingOk(s, cells[c]) && scene[c] == cells[c].AsSprite()
    requires Drawable(s, scene[..0]) && Shows(s, buf[..], scene[..0])
    modifies buf
    ensures Drawable(s, scene[..cells.Length]) && Shows(s, buf[..], scene[..cells.Length])
  {
    for c := 0 to cells.Length
      invariant Drawable(s, scene[..c]) && Shows(s, buf[..], scene[..c])
    {
      ghost var before := buf[..];
      SlidingWritePixels(s, buf, cells[c]);
      PaintingAddsLayer(s, before, buf[..], scene[..c], scene[c]);
      assert scene[..c + 1] == scene[..c] + [scene[c]];
    }
  }

  /** The resting layers are those after the first `first`. */
  method DrawStill(s: Screen, buf: array<int>, still: array<Static>, ghost scene: seq<Sprite>, ghost first: nat)
    requires s.Valid() && buf.Length == s.Base(s.height) && Drawable(s, scene) && first + still.Length == |scene|
    requires forall k :: 0 <= k < still.Length ==> StaticOk(s, still[k]) && scene[first..][k] == still[k].AsSprite(s)
    requires Drawable(s, scene[..first]) && Shows(s, buf[..], scene[..first])
    modifies buf
    ensures Drawable(s, scene[..|scene|]) && Shows(s, buf[..], scene[..|scene|])
  {
    for k := 0 to still.Length
      invariant Drawable(s, scene[..first + k]) && Shows(s, buf[..], scene[..first + k])
    {
      ghost var before, n := buf[..], first + k;
      assert scene[first..][k] == scene[n];
      StaticWritePixels(s, buf, still[k]);
      PaintingAddsLayer(s, before, buf[..], scene[..n], scene[n]);
      assert scene[..n + 1] == scene[..n] + [scene[n]];
    }
  }

  // ----- the program's state, and a whole frame -----

  function BlankMap(): (m: seq<seq<int>>)
    ensures IsMap(m) && forall i, j :: 0 <= i < MAX_HEIGHT && 0 <= j < MAX_WIDTH * 2 ==> m[i][j] == PXL_BLANK
  {
    seq(MAX_HEIGHT, i => seq(MAX_WIDTH * 2, j => PXL_BLANK))
  }

  class Danmaku {
    const s: Screen
    const blank: array<int>
    const cells: array<Sliding>
    const still: array<Static>
    const slidingQueue: Queue
    const staticQueue: Queue
    ghost var pushed: seq<string>    // sliding texts received so far
    ghost var placed: seq<string>    // sliding texts shown so far
    ghost var born: seq<int>         // for each cell, the number of the text it took last

    ghost predicate Valid()
      reads this, blank, cells, still, slidingQueue, slidingQueue.str, staticQueue, staticQueue.str
    {
      && s.Valid() && blank[..] == BlankLines(s, s.height)
      && cells.Length == |born| == CELLS && still.Length == NUM_STATIC_LAYER
      && slidingQueue != staticQueue && slidingQueue.str != staticQueue.str
      && slidingQueue.Valid() && staticQueue.Valid()
      && (forall c :: 0 <= c < CELLS ==> SlidingOk(s, cells[c]) && cells[c].y == Row(c))
      && (forall k :: 0 <= k < NUM_STATIC_LAYER ==> StaticOk(s, still[k]) && still[k].y == k)
    }

    /** The sliding texts, as the run model sees them. */
    ghost function Slides(): State
      requires slidingQueue.Valid()
      reads this, cells, slidingQueue, slidingQueue.str
    {
      State(cells[..], slidingQueue.Pending(), pushed, placed, born)
    }

    /** The resting texts, as theirs sees them. */
    ghost function Rests(): Rest
      requires staticQueue.Valid()
      reads still, staticQueue, staticQueue.str
    {
      Rest(still[..], staticQueue.Pending())
    }

    ghost function OnScreen(): seq<Sprite>
      reads cells, still
    {
      Scene(s, cells[..], still[..])
    }

    /** Before the first frame; `memory` is what the freshly allocated maps of the sliding texts hold. */
    constructor (s: Screen, memory: seq<seq<int>>)
      requires s.Valid() && IsMap(memory)
      ensures Valid() && this.s == s && IsInitial(Slides()) && staticQueue.Pending() == []
      ensures fresh(blank) && fresh(cells) && fresh(still)
      ensures fresh(slidingQueue) && fresh(slidingQueue.str) && fresh(staticQueue) && fresh(staticQueue.str)
    {
      this.s := s;
      var template := InitBlankScreen(s, s.Base(s.height));
      blank := template;
      var layers := InitSlidingLayers(s, memory);
      cells := layers;
      var resting := InitStaticLayers(s);
      still := resting;
      var q := new Queue();
      slidingQueue := q;
      q := new Queue();
      staticQueue := q;
      pushed, placed, born := [], [], seq(CELLS, c => -1);
    }

    /** Texts for the sliding queue in a line of input. */
    static function SlidingTexts(line: Line): seq<string> {
      if line.Slide? then [line.text] else []
    }

    /** Texts for the resting queue: from input, or reported by the button. */
    static function StaticTexts(line: Line): seq<string> {
      match line case Still(text) => [text] case NoLine(reports) => reports case _ => []
    }

    /** A line that begins with 0 goes to the sliding texts, one that begins with 1 to the resting ones, any
        other to neither; without a line, what the button reports goes to the resting ones. */
    static lemma LineGoesWhereItSays(text: string, reports: seq<string>)
      ensures SlidingTexts(Slide(text)) == [text] && StaticTexts(Slide(text)) == []
      ensures SlidingTexts(Still(text)) == [] && StaticTexts(Still(text)) == [text]
      ensures SlidingTexts(Unknown) == StaticTexts(Unknown) == []
      ensures SlidingTexts(NoLine(reports)) == [] && StaticTexts(NoLine(reports)) == reports
    {
    }

    method TakeInput(line: Line)
      requires Valid()
      requires line.Slide? ==> |slidingQueue.Pending()| < QUEEN_SIZE
      requires |staticQueue.Pending()| + |StaticTexts(line)| <= QUEEN_SIZE
      modifies this`pushed, slidingQueue, slidingQueue.str, staticQueue, staticQueue.str
      ensures Valid()
      ensures Slides() == old(Slides()).(pending := old(Slides()).pending + SlidingTexts(line),
                                           pushed := old(Slides()).pushed + SlidingTexts(line))
      ensures staticQueue.Pending() == old(staticQueue.Pending()) + StaticTexts(line)
    {
      match line {
        case Slide(text) =>
          slidingQueue.Push(text);
        case Still(text) =>
          staticQueue.Push(text);
        case Unknown =>
        case NoLine(reports) =>
          TakeReports(reports);
      }
      pushed := pushed + SlidingTexts(line);
    }

    method TakeReports(reports: seq<string>)
      requires Valid() && |staticQueue.Pending()| + |reports| <= QUEEN_SIZE
      modifies staticQueue, staticQueue.str
      ensures Valid() && Slides() == old(Slides())
      ensures staticQueue.Pending() == old(staticQueue.Pending()) + reports
    {
      for i := 0 to |reports|
        invariant Valid() && Slides() == old(Slides())
        invariant staticQueue.Pending() == old(staticQueue.Pending()) + reports[..i]
      {
        staticQueue.Push(reports[i]);
        assert reports[..i + 1] == reports[..i] + [reports[i]];
      }
      assert reports[..|reports|] == reports;
    }

    method InsertText(r: Rendering) returns (ok: bool)
      requires Valid() && Fits(s, r)
      modifies cells
      ensures Valid()
      ensures var g := old(cells[..]);
              var c := FirstFree(g, s.width, 0);
              ok == (c != -1) && cells[..] == if ok then g[c := Fresh(g[c], s.width, r)] else g
    {
      ghost var c := FirstFree(cells[..], s.width, 0);
      if c != -1 {
        FreshIsOk(s, cells[c], r);
      }
      ok := InsertSliding(s.width, cells, r);
    }

    method PlaceSliding(r: Rendering)
      requires Valid() && Fits(s, r)
      modifies this`placed, this`born, cells, slidingQueue
      ensures Valid() && Slides() == Place(old(Slides()), s.width, r)
    {
      var ok, text := slidingQueue.Fetch();
      if ok {
        ghost var c := FirstFree(cells[..], s.width, 0);
        ok := InsertText(r);
        if ok {
          slidingQueue.Pop();
          born := born[c := |placed|];
          placed := placed + [text];
        }
      }
    }

    method PlaceStill(r: Rendering, lot: nat)
      requires Valid() && Fits(s, r) && lot < NUM_STATIC_LAYER
      modifies still, staticQueue
      ensures Valid()
      ensures if old(staticQueue.Pending()) == [] then still[..] == old(still[..]) && staticQueue.Pending() == []
              else
                && still[..] == PlaceStatic(old(still[..]), lot, r)
                && staticQueue.Pending() == old(staticQueue.Pending())[1..]
    {
      var ok, text := staticQueue.Fetch();
      if ok {
        PlacedStaticIsOk(s, still[StaticSlot(still[..], lot, 0)], r);
        InsertStatic(s, still, r, lot);
        staticQueue.Pop();
      }
    }

    /** The sliding texts once those of a line have arrived. */
    ghost function Arrived(before: State, line: Line): State {
      before.(pending := before.pending + SlidingTexts(line), pushed := before.pushed + SlidingTexts(line))
    }

    /** Input and placement. */
    method TakeTexts(line: Line, slidingR: Rendering, stillR: Rendering, lot: nat)
      requires Valid()
      requires Fits(s, slidingR) && Fits(s, stillR) && lot < NUM_STATIC_LAYER
      requires line.Slide? ==> |slidingQueue.Pending()| < QUEEN_SIZE
      requires |staticQueue.Pending()| + |StaticTexts(line)| <= QUEEN_SIZE
      modifies this`pushed, this`placed, this`born, cells, still
      modifies slidingQueue, slidingQueue.str, staticQueue, staticQueue.str
      ensures Valid()
      ensures WellFormed(Arrived(old(Slides()), line))
      ensures Slides() == Place(Arrived(old(Slides()), line), s.width, slidingR)
      ensures Rests() == Settle(old(Rests()), Arrival(StaticTexts(line), stillR, lot))
    {
      TakeInput(line);
      PlaceSliding(slidingR);
      PlaceStill(stillR, lot);
    }

    /** Motion and drawing. */
    method ShowLayers(buf: array<int>)
      requires Valid() && buf != blank && buf.Length == blank.Length
      modifies buf, cells, still
      ensures Valid() && Slides() == old(Slides()).(g := AgeAll(old(Slides()).g))
      ensures Rests() == old(Rests()).(t := AgeStill(old(Rests()).t))
      ensures OnDisplay(buf)
    {
      forall c, k | 0 <= c < CELLS && 0 <= k < NUM_STATIC_LAYER
        ensures SlidingOk(s, Aged(cells[c])) && StaticOk(s, AgedStatic(still[k]))
      {
        AgedIsOk(s, cells[c], still[k]);
      }
      NextCycle(cells, still);
      DrawLayers(s, blank, buf, cells, still);
    }

    /** The buffer is the picture of the layers, and reads back as its lines. */
    ghost predicate OnDisplay(buf: array<int>)
      reads buf, cells, still
    {
      && s.Valid() && buf.Length == s.Base(s.height) && Drawable(s, OnScreen()) && Shows(s, buf[..], OnScreen())
      && Parse(buf[..]) == Some(PictureLines(s, OnScreen(), 0))
    }

    lemma DisplayIsPicture(buf: array<int>)
      requires s.Valid() && OnDisplay(buf)
      ensures IsPicture(s, buf[..])
    {
    }

    /** RenderOnce. `slidingR` and `stillR` are how the two texts fetched would render, `lot` the
        outcome of the draw for a resting text when all slots are taken. */
    method RenderOnce(buf: array<int>, line: Line, slidingR: Rendering, stillR: Rendering, lot: nat)
      requires Valid() && buf != blank && buf.Length == blank.Length
      requires Fits(s, slidingR) && Fits(s, stillR) && lot < NUM_STATIC_LAYER
      requires line.Slide? ==> |slidingQueue.Pending()| < QUEEN_SIZE
      requires |staticQueue.Pending()| + |StaticTexts(line)| <= QUEEN_SIZE
      modifies this`pushed, this`placed, this`born, buf, cells, still
      modifies slidingQueue, slidingQueue.str, staticQueue, staticQueue.str
      ensures Valid()
      // the sliding texts make one step of the run model
      ensures Slides() == FrameStep(old(Slides()), s.width, Input(SlidingTexts(line), slidingR))
      // and so do the resting texts
      ensures Rests() == StillStep(old(Rests()), Arrival(StaticTexts(line), stillR, lot))
      // the buffer shows the layers
      ensures OnDisplay(buf)
    {
      TakeTexts(line, slidingR, stillR, lot);
      ShowLayers(buf);
    }
  }

  method InitSlidingLayers(s: Screen, memory: seq<seq<int>>) returns (cells: array<Sliding>)
    requires s.Valid() && IsMap(memory)
    ensures fresh(cells) && cells.Length == CELLS
    ensures forall c :: 0 <= c < CELLS ==> SlidingOk(s, cells[c]) && cells[c].y == Row(c) && !cells[c].enable
  {
    cells := new Sliding[CELLS](c => Sliding.Sliding(false, 0, 0, 0, 0, memory));
    for c := 0 to CELLS
      invariant forall k :: 0 <= k < c ==> SlidingOk(s, cells[k]) && cells[k].y == Row(k) && !cells[k].enable
    {
      cells[c] := Sliding.Sliding(false, 0, c / COLS, 0, 0, memory);
    }
  }

  method InitStaticLayers(s: Screen) returns (still: array<Static>)
    requires s.Valid()
    ensures fresh(still) && still.Length == NUM_STATIC_LAYER
    ensures forall k :: 0 <= k < NUM_STATIC_LAYER ==> StaticOk(s, still[k]) && still[k].y == k && !still[k].enable
  {
    still := new Static[NUM_STATIC_LAYER](k => Static.Static(false, 0, 0, 0, []));
    for k := 0 to NUM_STATIC_LAYER
      invariant forall i :: 0 <= i < k ==> StaticOk(s, still[i]) && still[i].y == i && !still[i].enable
    {
      still[k] := Static.Static(false, 0, 0, k, BlankMap());
    }
  }
}
