/** What a stack of layers must look like, and how a frame is read back line by line. */
module Picture {
  import opened Options
  import opened FontMap
  import opened Frame
  import opened Painter

  predicate Drawable(s: Screen, scene: seq<Sprite>) {
    forall k :: 0 <= k < |scene| ==> scene[k].Valid(s)
  }

  /** Byte x of line y of the picture: that of the last layer covering it, else of the template. */
  function Colour(s: Screen, scene: seq<Sprite>, x: nat, y: nat): int
    requires x < s.width + 2 && Drawable(s, scene)
  {
    if scene == [] then BlankLine(s, y)[x]
    else
      var top := scene[|scene| - 1];
      if top.Covers(s, x, y) then top.Pixel(s, x, y) else Colour(s, scene[..|scene| - 1], x, y)
  }

  /** The topmost layer wins; where no layer is, the template shows. */
  lemma {:induction false} TopmostWins(s: Screen, scene: seq<Sprite>, x: nat, y: nat)
    requires x < s.width + 2 && Drawable(s, scene)
    ensures (forall k :: 0 <= k < |scene| ==> !scene[k].Covers(s, x, y)) ==>
      Colour(s, scene, x, y) == BlankLine(s, y)[x]
    ensures forall k ::
      0 <= k < |scene| && scene[k].Covers(s, x, y) && (forall l :: k < l < |scene| ==> !scene[l].Covers(s, x, y)) ==>
      Colour(s, scene, x, y) == scene[k].Pixel(s, x, y)
  {
    if scene != [] {
      TopmostWins(s, scene[..|scene| - 1], x, y);
    }
  }

  ghost predicate ShowsAt(s: Screen, frame: seq<int>, scene: seq<Sprite>, x: nat, y: nat)
    requires |frame| == s.Base(s.height) && Drawable(s, scene)
    requires s.Valid() && x < s.width + 2 && y < s.height
  {
    AtInRange(s, x, y);
    ImageIsItsLines(s);
    frame[At(s, x, y)] == Colour(s, scene, x, y)
  }

  /** The frame is the picture of the scene, sync bytes included. */
  ghost predicate Shows(s: Screen, frame: seq<int>, scene: seq<Sprite>)
    requires s.Valid() && |frame| == s.Base(s.height) && Drawable(s, scene)
  {
    forall x, y :: 0 <= x < s.width + 2 && 0 <= y < s.height ==> ShowsAt(s, frame, scene, x, y)
  }

  lemma TemplateShowsNothing(s: Screen)
    requires s.Valid()
    ensures Shows(s, BlankLines(s, s.height), [])
  {
    forall x: nat, y: nat | x < s.width + 2 && y < s.height
      ensures ShowsAt(s, BlankLines(s, s.height), [], x, y)
    {
      BlankLineAt(s, x, y, s.height);
    }
  }

  lemma PaintingAddsLayer(s: Screen, before: seq<int>, after: seq<int>, scene: seq<Sprite>, sp: Sprite)
    requires s.Valid() && |before| == |after| == s.Base(s.height)
    requires sp.Valid(s) && Drawable(s, scene)
    requires Shows(s, before, scene) && Painted(s, before, after, sp, s.height)
    ensures Shows(s, after, scene + [sp])
  {
    assert (scene + [sp])[..|scene|] == scene;
    forall x: nat, y: nat | x < s.width + 2 && y < s.height
      ensures ShowsAt(s, after, scene + [sp], x, y)
    {
      assert ShowsAt(s, before, scene, x, y) && PaintedAt(s, before, after, sp, s.height, x, y);
    }
  }

  // ----- reading a frame back -----

  /** Length of the longest prefix without sync bytes. */
  function PixelRun(f: seq<int>): (n: nat)
    ensures n <= |f|
  {
    if f == [] || IsSync(f[0]) then 0 else 1 + PixelRun(f[1..])
  }

  /** The receiver's view: pixels up to two HSYNC bytes make a line, two VSYNC bytes end the last one
      and the frame; anything else is malformed. */
  function Parse(f: seq<int>): Option<seq<seq<int>>> {
    var n := PixelRun(f);
    if n + 2 > |f| then None
    else if f[n] == f[n + 1] == PXL_VSYNC then
      if n + 2 == |f| then Some([f[..n]]) else None
    else if f[n] == f[n + 1] == PXL_HSYNC then
      match Parse(f[n + 2..])
      case None => None
      case Some(rest) => Some([f[..n]] + rest)
    else None
  }

  lemma {:induction false} PixelRunIs(f: seq<int>, n: nat)
    requires n < |f| && IsSync(f[n]) && forall i :: 0 <= i < n ==> !IsSync(f[i])
    ensures PixelRun(f) == n
  {
    if n > 0 {
      PixelRunIs(f[1..], n - 1);
    }
  }

  /** No layer shows a sync code. */
  ghost predicate Clean(s: Screen, scene: seq<Sprite>)
    requires Drawable(s, scene)
  {
    forall k :: 0 <= k < |scene| ==> IsClean(s, scene[k])
  }

  ghost predicate IsClean(s: Screen, sp: Sprite)
    requires sp.Valid(s)
  {
    forall i, j :: 0 <= i < s.Edge() && 0 <= j < sp.width ==> !IsSync(sp.pixels[i][j])
  }

  lemma {:induction false} ColourIsPixel(s: Screen, scene: seq<Sprite>, x: nat, y: nat)
    requires x < s.width + 2 && Drawable(s, scene)
    requires Clean(s, scene)
    ensures if x < s.width then !IsSync(Colour(s, scene, x, y)) else Colour(s, scene, x, y) == BlankLine(s, y)[x]
  {
    if scene != [] {
      var init, top := scene[..|scene| - 1], scene[|scene| - 1];
      assert forall k :: 0 <= k < |init| ==> init[k] == scene[k];
      ColourIsPixel(s, init, x, y);
    }
  }

  /** Line y of the picture. */
  function PictureLine(s: Screen, scene: seq<Sprite>, y: nat): (line: seq<int>)
    requires Drawable(s, scene)
    ensures |line| == s.width && forall x :: 0 <= x < s.width ==> line[x] == Colour(s, scene, x, y)
  {
    seq(s.width, x requires 0 <= x < s.width => Colour(s, scene, x, y))
  }

  function PictureLines(s: Screen, scene: seq<Sprite>, y: nat): (lines: seq<seq<int>>)
    requires y <= s.height && Drawable(s, scene)
    ensures |lines| == s.height - y
    decreases s.height - y
  {
    if y == s.height then [] else [PictureLine(s, scene, y)] + PictureLines(s, scene, y + 1)
  }

  /** f begins with a line and the two bytes that close it. */
  ghost predicate ReadsAs(f: seq<int>, line: seq<int>, code: int) {
    && |line| + 2 <= |f| && PixelRun(f) == |line| && f[..|line|] == line
    && f[|line|] == f[|line| + 1] == code
  }

  ghost predicate LineReads(s: Screen, frame: seq<int>, scene: seq<Sprite>, y: nat)
    requires Drawable(s, scene)
  {
    s.Base(y) <= |frame| && ReadsAs(frame[s.Base(y)..], PictureLine(s, scene, y), CodeAfter(s, y))
  }

  lemma LineReadsBack(s: Screen, frame: seq<int>, scene: seq<Sprite>, y: nat)
    requires s.Valid() && |frame| == s.Base(s.height) && Drawable(s, scene)
    requires Shows(s, frame, scene) && Clean(s, scene) && y < s.height
    ensures LineReads(s, frame, scene, y)
  {
    BaseGrows(s, y, s.height);
    var f := frame[s.Base(y)..];
    forall x: nat | x < s.width + 2
      ensures f[x] == Colour(s, scene, x, y)
      ensures if x < s.width then !IsSync(f[x]) else f[x] == BlankLine(s, y)[x]
    {
      assert ShowsAt(s, frame, scene, x, y);
      ColourIsPixel(s, scene, x, y);
    }
    PixelRunIs(f, s.width);
    assert f[..s.width] == PictureLine(s, scene, y);
  }

  lemma LineParses(s: Screen, frame: seq<int>, scene: seq<Sprite>, y: nat, lines: seq<seq<int>>)
    requires Drawable(s, scene) && y + 1 < s.height && LineReads(s, frame, scene, y)
    requires s.Base(y + 1) <= |frame| && Parse(frame[s.Base(y + 1)..]) == Some(lines)
    ensures Parse(frame[s.Base(y)..]) == Some([PictureLine(s, scene, y)] + lines)
  {
  }

  lemma LastLineParses(s: Screen, frame: seq<int>, scene: seq<Sprite>, y: nat)
    requires Drawable(s, scene) && y + 1 == s.height && LineReads(s, frame, scene, y) && |frame| == s.Base(s.height)
    ensures Parse(frame[s.Base(y)..]) == Some([PictureLine(s, scene, y)])
  {
  }

  /** From line y on, the frame reads back as the lines of the picture. */
  lemma {:induction false} ParsesFrom(s: Screen, frame: seq<int>, scene: seq<Sprite>, y: nat)
    requires |frame| == s.Base(s.height) && Drawable(s, scene) && y < s.height
    requires forall l :: 0 <= l < s.height ==> LineReads(s, frame, scene, l)
    ensures s.Base(y) <= |frame| && Parse(frame[s.Base(y)..]) == Some(PictureLines(s, scene, y))
    decreases s.height - y
  {
    assert LineReads(s, frame, scene, y);
    if y + 1 < s.height {
      ParsesFrom(s, frame, scene, y + 1);
      LineParses(s, frame, scene, y, PictureLines(s, scene, y + 1));
    } else {
      LastLineParses(s, frame, scene, y);
      assert PictureLines(s, scene, y) == [PictureLine(s, scene, y)];
    }
  }

  /** A completed frame parses as exactly `height` lines of `width` pixels, and those pixels are the
      picture. */
  lemma FrameParses(s: Screen, frame: seq<int>, scene: seq<Sprite>)
    requires s.Valid() && |frame| == s.Base(s.height) && Drawable(s, scene)
    requires Shows(s, frame, scene) && Clean(s, scene)
    ensures Parse(frame) == Some(PictureLines(s, scene, 0))
  {
    forall y | 0 <= y < s.height
      ensures LineReads(s, frame, scene, y)
    {
      LineReadsBack(s, frame, scene, y);
    }
    ParsesFrom(s, frame, scene, 0);
    assert frame[s.Base(0)..] == frame;
  }

  /** The frame is the picture of some layers, and is read back as the lines of that picture. */
  ghost predicate IsPicture(s: Screen, frame: seq<int>)
    requires s.Valid()
  {
    && |frame| == s.Base(s.height)
    && exists scene: seq<Sprite> ::
         && Drawable(s, scene) && Shows(s, frame, scene)
         && Parse(frame) == Some(PictureLines(s, scene, 0))
  }
}
