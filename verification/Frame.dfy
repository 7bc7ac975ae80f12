/** Frame buffers: the blank template, the clipped row copies of the text layers, and the picture and
    the byte format that come out. */
module Frame {
  import opened FontMap

  /** Resolution as SubMain accepts it, within what the fixed-size buffers are made for. */
  datatype Screen = Screen(width: nat, height: nat) {
    predicate Valid() {
      && 100 <= width <= MAX_WIDTH && width % 4 == 0 && 100 <= height && height % 4 == 0
      && 5 * Edge() <= height
    }

    /** Side of a character cell. */
    function Edge(): nat { width / 20 }

    /** Offset of line y: each of the lines above takes its pixels and two sync bytes. */
    function Base(y: nat): nat { if y == 0 then 0 else Base(y - 1) + width + 2 }

    function ImgSize(): nat { ((width + 2) * height + 3) / 4 * 4 }
  }

  lemma {:induction false} BaseIsProduct(s: Screen, y: nat)
    ensures s.Base(y) == y * (s.width + 2)
  {
    if y > 0 {
      BaseIsProduct(s, y - 1);
      assert y * (s.width + 2) == (y - 1) * (s.width + 2) + (s.width + 2);
    }
  }

  lemma {:induction false} BaseGrows(s: Screen, y: nat, z: nat)
    requires y <= z
    ensures s.Base(y) <= s.Base(z)
    ensures y < z ==> s.Base(y) + s.width + 2 <= s.Base(z)
  {
    if y < z {
      BaseGrows(s, y, z - 1);
    }
  }

  lemma EightDivides(s: Screen) returns (n: nat)
    requires s.width % 4 == 0 && s.height % 4 == 0
    ensures (s.width + 2) * s.height == 8 * n
  {
    var m, b := s.width / 4 * 2 + 1, s.height / 4;
    n := m * b;
    assert s.width + 2 == 2 * m && s.height == 4 * b;
    assert (2 * m) * (4 * b) == 8 * (m * b);
  }

  /** The frame is exactly its lines, and its size suits the 8-byte transmission. */
  lemma ImageIsItsLines(s: Screen)
    requires s.Valid()
    ensures s.ImgSize() == s.Base(s.height) && s.ImgSize() % 8 == 0
  {
    BaseIsProduct(s, s.height);
    var n := EightDivides(s);
    RoundingUpKeeps((s.width + 2) * s.height, n);
  }

  const MAX_SCREEN_HEIGHT := 1100
  const FRAME_BUFFER_SIZE := ((MAX_WIDTH + 2) * MAX_SCREEN_HEIGHT + 3) / 4 * 4

  lemma AreaGrows(w: nat, w': nat, h: nat, h': nat)
    requires w <= w' && h <= h'
    ensures w * h <= w' * h'
  {
    assert w' * h' == w * h + w * (h' - h) + (w' - w) * h';
  }

  lemma ImageFitsBuffer(s: Screen)
    requires s.Valid() && s.height <= MAX_SCREEN_HEIGHT
    ensures s.ImgSize() <= FRAME_BUFFER_SIZE
  {
    AreaGrows(s.width + 2, MAX_WIDTH + 2, s.height, MAX_SCREEN_HEIGHT);
  }

  lemma RoundingUpKeeps(t: nat, n: nat)
    requires t == 8 * n
    ensures (t + 3) / 4 * 4 == t && t % 8 == 0
  {
    var m := 2 * n;
    assert t == 4 * m && (t + 3) / 4 == m;
  }

  /** Where byte x of line y is. */
  function At(s: Screen, x: nat, y: nat): nat { s.Base(y) + x }

  lemma AtInRange(s: Screen, x: nat, y: nat)
    requires s.Valid() && x < s.width + 2 && y < s.height
    ensures At(s, x, y) < s.ImgSize()
  {
    ImageIsItsLines(s);
    BaseGrows(s, y, s.height);
  }

  function Blanks(n: nat): (b: seq<int>)
    ensures |b| == n && forall i :: 0 <= i < n ==> b[i] == 0x10 + PXL_BLANK
  {
    seq(n, i => 0x10 + PXL_BLANK)
  }

  /** What closes line y. */
  function CodeAfter(s: Screen, y: nat): int { if y + 1 < s.height then PXL_HSYNC else PXL_VSYNC }

  /** Line y of the template: blank pixels, closed by two HSYNC bytes, or two VSYNC bytes if last. */
  function BlankLine(s: Screen, y: nat): (line: seq<int>)
    ensures |line| == s.width + 2
  {
    Blanks(s.width) + [CodeAfter(s, y), CodeAfter(s, y)]
  }

  /** The first y lines of the template. */
  function BlankLines(s: Screen, y: nat): (lines: seq<int>)
    ensures |lines| == s.Base(y)
  {
    if y == 0 then [] else BlankLines(s, y - 1) + BlankLine(s, y - 1)
  }

  lemma {:induction false} BlankLineAt(s: Screen, x: nat, y: nat, n: nat)
    requires x < s.width + 2 && y < n
    ensures At(s, x, y) < s.Base(n) && BlankLines(s, n)[At(s, x, y)] == BlankLine(s, y)[x]
  {
    BaseGrows(s, y, n);
    if y < n - 1 {
      BlankLineAt(s, x, y, n - 1);
    }
  }

  /** Lines 0..y-1 are done in blank[..offset], the last without its closing bytes. */
  ghost predicate LinesDone(s: Screen, blank: array<int>, y: nat, offset: nat)
    requires y <= s.height
    reads blank
  {
    && offset <= blank.Length
    && blank[..offset] == if y < s.height then BlankLines(s, y)
                          else if y == 0 then [] else BlankLines(s, y - 1) + Blanks(s.width)
  }

  method BlankOneLine(s: Screen, blank: array<int>, i: nat, offset0: nat) returns (offset: nat)
    requires i < s.height && blank.Length == s.Base(s.height) && LinesDone(s, blank, i, offset0)
    modifies blank
    ensures LinesDone(s, blank, i + 1, offset)
  {
    offset := offset0;
    BaseGrows(s, i, s.height);
    BaseGrows(s, i + 1, s.height);
    for j := 0 to s.width
      invariant offset == s.Base(i) + j
      invariant blank[..offset] == BlankLines(s, i) + Blanks(j)
    {
      offset := Append(blank, offset, 0x10 + PXL_BLANK);
      assert Blanks(j) + [0x10 + PXL_BLANK] == Blanks(j + 1);
    }
    if i < s.height - 1 {
      offset := Append(blank, offset, PXL_HSYNC);
      offset := Append(blank, offset, PXL_HSYNC);
      assert blank[..offset] == BlankLines(s, i) + BlankLine(s, i);
    }
  }

  /** Pad to the image size and turn the last two bytes into VSYNC. */
  method CloseBlankScreen(s: Screen, blank: array<int>, offset0: nat)
    requires s.height > 0 && blank.Length == s.Base(s.height) && LinesDone(s, blank, s.height, offset0)
    modifies blank
    ensures blank[..] == BlankLines(s, s.height)
  {
    var imgSize, offset := blank.Length, offset0;
    ghost var body := BlankLines(s, s.height - 1) + Blanks(s.width);
    while offset < imgSize
      invariant imgSize - 2 <= offset <= imgSize
      invariant blank[..imgSize - 2] == body
    {
      offset := Append(blank, offset, 0x10 + PXL_BLANK);
    }
    blank[imgSize - 1] := PXL_VSYNC;
    blank[imgSize - 2] := PXL_VSYNC;
    assert blank[..] == blank[..imgSize - 2] + [PXL_VSYNC, PXL_VSYNC];
  }

  method InitBlankScreen(s: Screen, imgSize: nat) returns (blank: array<int>)
    requires s.height > 0 && imgSize == s.Base(s.height)
    ensures fresh(blank) && blank[..] == BlankLines(s, s.height)
  {
    blank := new int[imgSize];
    var offset := 0;
    for i := 0 to s.height
      invariant LinesDone(s, blank, i, offset)
    {
      offset := BlankOneLine(s, blank, i, offset);
    }
    CloseBlankScreen(s, blank, offset);
  }

  method Append(a: array<int>, offset: nat, value: int) returns (next: nat)
    requires offset < a.Length
    modifies a
    ensures next == offset + 1 && a[..next] == old(a[..offset]) + [value]
    ensures forall i :: 0 <= i < a.Length && i != offset ==> a[i] == old(a[i])
  {
    a[offset] := value;
    next := offset + 1;
  }
}
