/** Copying text layers onto a frame, and the picture that a whole stack of layers makes. */
module Painter {
  import opened Frame

  const NUM_ROWS := 5

  /** A layer as it is drawn: `x` is the screen column of the map's first column. */
  datatype Sprite = Sprite(x: int, row: nat, width: nat, pixels: seq<seq<int>>) {
    predicate Valid(s: Screen) {
      && row < NUM_ROWS && |pixels| >= s.Edge()
      && forall i :: 0 <= i < s.Edge() ==> |pixels[i]| >= width
    }

    /** First screen line of the sprite's row. */
    function Top(s: Screen): nat { s.Edge() * row }

    predicate Covers(s: Screen, px: int, py: int) {
      0 <= px < s.width && Top(s) <= py < Top(s) + s.Edge() && x <= px < x + width
    }

    /** The map's pixel for a screen position. */
    function Pixel(s: Screen, px: int, py: int): int
      requires Valid(s) && Covers(s, px, py)
    {
      pixels[py - Top(s)][px - x]
    }
  }

  lemma RowFits(s: Screen, sp: Sprite)
    requires s.Valid() && sp.row < NUM_ROWS
    ensures sp.Top(s) + s.Edge() <= s.height
  {
  }

  /** `after` is `before` with the sprite drawn over it, for lines above `limit`. */
  ghost predicate Painted(s: Screen, before: seq<int>, after: seq<int>, sp: Sprite, limit: int)
    requires s.Valid() && sp.Valid(s) && |before| == |after| == s.Base(s.height)
  {
    forall x, y :: 0 <= x < s.width + 2 && 0 <= y < s.height ==> PaintedAt(s, before, after, sp, limit, x, y)
  }

  ghost predicate PaintedAt(s: Screen, before: seq<int>, after: seq<int>, sp: Sprite, limit: int, x: nat, y: nat)
    requires s.Valid() && sp.Valid(s) && |before| == |after| == s.Base(s.height)
    requires x < s.width + 2 && y < s.height
  {
    AtInRange(s, x, y);
    ImageIsItsLines(s);
    after[At(s, x, y)] == if y < limit && sp.Covers(s, x, y) then sp.Pixel(s, x, y) else before[At(s, x, y)]
  }

  /** One DMA transfer. */
  method CopyBytes(dst: array<int>, at: nat, src: seq<int>, from: nat, len: nat)
    requires at + len <= dst.Length && from + len <= |src|
    modifies dst
    ensures forall k :: 0 <= k < dst.Length ==>
      dst[k] == if at <= k < at + len then src[from + (k - at)] else old(dst[k])
  {
    for i := 0 to len
      invariant forall k :: 0 <= k < dst.Length ==>
        dst[k] == if at <= k < at + i then src[from + (k - at)] else old(dst[k])
    {
      dst[at + i] := src[from + i];
    }
  }

  /** First and last screen column that show the sprite. */
  function From(sp: Sprite): nat { if sp.x < 0 then 0 else sp.x }

  function To(s: Screen, sp: Sprite): int {
    if sp.x + sp.width - 1 >= s.width then s.width - 1 else sp.x + sp.width - 1
  }

  /** `after` is `mid` with the sprite's bytes of one line copied in, in one transfer. */
  ghost predicate LineCopied(s: Screen, mid: seq<int>, after: seq<int>, sp: Sprite, line: nat)
    requires sp.Valid(s) && |mid| == |after| && sp.Top(s) <= line < sp.Top(s) + s.Edge()
    requires From(sp) <= To(s, sp)
  {
    var a, col := s.Base(line) + From(sp), From(sp) - sp.x;
    forall k :: 0 <= k < |after| ==>
      after[k] == if a <= k < a + (To(s, sp) - From(sp) + 1) then sp.pixels[line - sp.Top(s)][col + (k - a)] else mid[k]
  }

  lemma OneMoreByte(s: Screen, before: seq<int>, mid: seq<int>, after: seq<int>, sp: Sprite, line: nat, x: nat, y: nat)
    requires s.Valid() && sp.Valid(s) && |before| == |mid| == |after| == s.Base(s.height)
    requires sp.Top(s) <= line < sp.Top(s) + s.Edge() && line < s.height && From(sp) <= To(s, sp)
    requires LineCopied(s, mid, after, sp, line)
    requires x < s.width + 2 && y < s.height && PaintedAt(s, before, mid, sp, line, x, y)
    ensures PaintedAt(s, before, after, sp, line + 1, x, y)
  {
    var k := At(s, x, y);
    AtInRange(s, x, y);
    ImageIsItsLines(s);
    if y < line {
      BaseGrows(s, y, line);
    } else if y > line {
      BaseGrows(s, line, y);
    }
  }

  lemma OneMoreLine(s: Screen, before: seq<int>, mid: seq<int>, after: seq<int>, sp: Sprite, line: nat, next: nat)
    requires s.Valid() && sp.Valid(s) && |before| == |mid| == |after| == s.Base(s.height)
    requires sp.Top(s) <= line < sp.Top(s) + s.Edge() && line < s.height && From(sp) <= To(s, sp)
    requires LineCopied(s, mid, after, sp, line) && next == line + 1
    requires Painted(s, before, mid, sp, line)
    ensures Painted(s, before, after, sp, next)
  {
    forall x: nat, y: nat | x < s.width + 2 && y < s.height
      ensures PaintedAt(s, before, after, sp, next, x, y)
    {
      assert PaintedAt(s, before, mid, sp, line, x, y);
      OneMoreByte(s, before, mid, after, sp, line, x, y);
    }
  }

  /** The line loop of both drawing routines. */
  method CopyLines(s: Screen, dst: array<int>, sp: Sprite, xfrom: nat, xto: int, srcX: nat)
    requires s.Valid() && sp.Valid(s) && dst.Length == s.Base(s.height)
    requires xfrom == From(sp) <= xto == To(s, sp) && srcX == xfrom - sp.x
    modifies dst
    ensures Painted(s, old(dst[..]), dst[..], sp, s.height)
  {
    var lineBase := s.Edge() * sp.row * (s.width + 2);
    RowFits(s, sp);
    BaseIsProduct(s, sp.Top(s));
    ghost var line := sp.Top(s);
    for i := 0 to s.Edge()
      invariant line == sp.Top(s) + i && lineBase == s.Base(line)
      invariant Painted(s, old(dst[..]), dst[..], sp, line)
    {
      ghost var mid := dst[..];
      BaseGrows(s, line, s.height);
      CopyBytes(dst, lineBase + xfrom, sp.pixels[i], srcX, xto - xfrom + 1);
      assert LineCopied(s, mid, dst[..], sp, line);
      OneMoreLine(s, old(dst[..]), mid, dst[..], sp, line, line + 1);
      lineBase := lineBase + (s.width + 2);
      line := line + 1;
    }
    PaintedBelow(s, old(dst[..]), dst[..], sp);
  }

  /** Past the sprite's last line there is nothing left to draw. */
  lemma PaintedBelow(s: Screen, before: seq<int>, after: seq<int>, sp: Sprite)
    requires s.Valid() && sp.Valid(s) && |before| == |after| == s.Base(s.height)
    requires Painted(s, before, after, sp, sp.Top(s) + s.Edge())
    ensures Painted(s, before, after, sp, s.height)
  {
    var bottom := sp.Top(s) + s.Edge();
    forall x: nat, y: nat | x < s.width + 2 && y < s.height
      ensures PaintedAt(s, before, after, sp, s.height, x, y)
    {
      assert PaintedAt(s, before, after, sp, bottom, x, y);
    }
  }

  lemma NothingToPaint(s: Screen, frame: seq<int>, sp: Sprite)
    requires s.Valid() && sp.Valid(s) && |frame| == s.Base(s.height)
    requires sp.x >= s.width || sp.x + sp.width <= 0 || sp.width == 0
    ensures Painted(s, frame, frame, sp, s.height)
  {
  }

  /** A moving text; `pixels` is its map. */
  datatype Sliding = Sliding(enable: bool, x: int, y: nat, width: nat, ppc: nat, pixels: seq<seq<int>>) {
    function AsSprite(): Sprite {
      if enable then Sprite(x, y, width, pixels) else Sprite(0, y, 0, pixels)
    }
  }

  /** A resting text. */
  datatype Static = Static(enable: bool, counter: nat, validLen: nat, y: nat, pixels: seq<seq<int>>) {
    /** Centred, or at the left edge if too long. */
    function AsSprite(s: Screen): Sprite {
      Sprite(if s.width > validLen then (s.width - validLen) / 2 else 0, y, if enable then validLen else 0, pixels)
    }
  }

  /** A resting text that is narrower than the screen leaves as much room on its left as on its right, give
      or take a pixel; a wider one starts at the left edge. */
  lemma RestingTextIsCentred(s: Screen, l: Static)
    requires l.enable
    ensures var left, right := l.AsSprite(s).x, s.width - (l.AsSprite(s).x + l.AsSprite(s).width);
            && l.AsSprite(s).width == l.validLen
            && if l.validLen <= s.width then 0 <= left <= right <= left + 1 else left == 0
  {
  }

  method SlidingWritePixels(s: Screen, dst: array<int>, l: Sliding)
    requires s.Valid() && l.AsSprite().Valid(s) && dst.Length == s.Base(s.height)
    modifies dst
    ensures Painted(s, old(dst[..]), dst[..], l.AsSprite(), s.height)
  {
    if !l.enable {
      NothingToPaint(s, dst[..], l.AsSprite());
      return;
    }
    var xfrom, xto, srcX := l.x, l.x + l.width - 1, 0;
    if xfrom >= s.width || xto < 0 || xto < xfrom {
      NothingToPaint(s, dst[..], l.AsSprite());
      return;
    }
    if xfrom < 0 {
      srcX := -xfrom;
      xfrom := 0;
    }
    if xto >= s.width {
      xto := s.width - 1;
    }
    CopyLines(s, dst, l.AsSprite(), xfrom, xto, srcX);
  }

  method StaticWritePixels(s: Screen, dst: array<int>, l: Static)
    requires s.Valid() && l.AsSprite(s).Valid(s) && dst.Length == s.Base(s.height)
    modifies dst
    ensures Painted(s, old(dst[..]), dst[..], l.AsSprite(s), s.height)
  {
    if !l.enable {
      NothingToPaint(s, dst[..], l.AsSprite(s));
      return;
    }
    var xfrom := if s.width > l.validLen then (s.width - l.validLen) / 2 else 0;
    var xto := xfrom + l.validLen - 1;
    if xfrom >= s.width || xto < 0 || xto < xfrom {
      NothingToPaint(s, dst[..], l.AsSprite(s));
      return;
    }
    if xto >= s.width {
      xto := s.width - 1;
    }
    CopyLines(s, dst, l.AsSprite(s), xfrom, xto, 0);
  }
}
