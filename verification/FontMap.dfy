/** Pixel values, and the map of one rendered text with its outline. */
module FontMap {
  import opened Arithmetic

  const MAX_WIDTH := 2000
  const MAX_HEIGHT := 256
  const PXL_HSYNC := 0xe
  const PXL_VSYNC := 0xf
  const PXL_BLANK := 0xd

  predicate IsSync(pixel: int) { pixel == PXL_HSYNC || pixel == PXL_VSYNC }

  /** One text as it was rendered: its size in pixels, the grey value of every pixel (unread below
      `height`), and how it is to be drawn. */
  datatype Rendering = Rendering(edge: nat, len: nat, width: nat, height: nat, gray: (int, int) -> int, color: int) {
    predicate Valid() {
      edge <= MAX_HEIGHT && edge * len <= MAX_WIDTH * 2 && 0 <= color < 8
    }

    function OutWidth(): nat { Min(width, MAX_WIDTH) }

    /** The complementary colour, color ^ 7. */
    function Reverse(): int { 7 - color }

    predicate IsText(i: int, j: int) {
      0 <= i < edge && 0 <= j < OutWidth() && i < height && gray(i, j) < 128
    }

    /** Text right of, left of, below or above the pixel; text in row 0 or column 0 is not looked at
        from below or from the right. */
    predicate TouchesText(i: int, j: int) {
      || (i + 1 < edge && IsText(i + 1, j))
      || (j + 1 < len * edge && IsText(i, j + 1))
      || (i - 1 > 0 && IsText(i - 1, j))
      || (j - 1 > 0 && IsText(i, j - 1))
    }

    /** What the map shows at (i, j) in the rows 0..edge-1; `before` is what it showed before. */
    function Pixel(i: int, j: int, before: int): int {
      if IsText(i, j) then color
      else if j < OutWidth() && TouchesText(i, j) then Reverse()
      else if j < edge * len then PXL_BLANK
      else before
    }
  }

  /** A map as a value: MAX_HEIGHT rows of MAX_WIDTH * 2 pixels. */
  predicate IsMap(m: seq<seq<int>>) {
    |m| == MAX_HEIGHT && forall i :: 0 <= i < MAX_HEIGHT ==> |m[i]| == MAX_WIDTH * 2
  }

  function Contents(a: array2<int>): (m: seq<seq<int>>)
    requires a.Length0 == MAX_HEIGHT && a.Length1 == MAX_WIDTH * 2
    reads a
    ensures IsMap(m)
    ensures forall i, j :: 0 <= i < MAX_HEIGHT && 0 <= j < MAX_WIDTH * 2 ==> m[i][j] == a[i, j]
  {
    seq(MAX_HEIGHT, i requires 0 <= i < MAX_HEIGHT reads a =>
      if i < a.Length0 then
        seq(MAX_WIDTH * 2, j requires 0 <= j < MAX_WIDTH * 2 reads a => if j < a.Length1 then a[i, j] else 0)
      else [])
  }

  /** The map after a text was written over `before`: rows below `edge`, and columns beyond both the
      text and edge * len, keep what they showed. */
  function MapAfter(r: Rendering, before: seq<seq<int>>): (m: seq<seq<int>>)
    requires IsMap(before)
    ensures IsMap(m)
    ensures forall i, j :: 0 <= i < MAX_HEIGHT && 0 <= j < MAX_WIDTH * 2 ==>
      m[i][j] == if i < r.edge then r.Pixel(i, j, before[i][j]) else before[i][j]
  {
    seq(MAX_HEIGHT, i requires 0 <= i < MAX_HEIGHT =>
      seq(MAX_WIDTH * 2, j requires 0 <= j < MAX_WIDTH * 2 =>
        if i < r.edge then r.Pixel(i, j, before[i][j]) else before[i][j]))
  }

  method BlankBoth(r: Rendering, map0: array2<int>, map1: array2<int>)
    requires r.Valid() && map0 != map1
    requires map0.Length0 == map1.Length0 == MAX_HEIGHT && map0.Length1 == map1.Length1 == MAX_WIDTH * 2
    modifies map0, map1
    ensures forall i, j :: 0 <= i < MAX_HEIGHT && 0 <= j < MAX_WIDTH * 2 ==>
      if i < r.edge && j < r.edge * r.len then map0[i, j] == map1[i, j] == PXL_BLANK
      else map0[i, j] == old(map0[i, j]) && map1[i, j] == old(map1[i, j])
  {
    for i := 0 to r.edge
      invariant forall k, j :: 0 <= k < MAX_HEIGHT && 0 <= j < MAX_WIDTH * 2 ==>
        if k < i && j < r.edge * r.len then map0[k, j] == map1[k, j] == PXL_BLANK
        else map0[k, j] == old(map0[k, j]) && map1[k, j] == old(map1[k, j])
    {
      for j := 0 to r.edge * r.len
        invariant forall k, l :: 0 <= k < MAX_HEIGHT && 0 <= l < MAX_WIDTH * 2 ==>
          if (k < i && l < r.edge * r.len) || (k == i && l < j) then map0[k, l] == map1[k, l] == PXL_BLANK
          else map0[k, l] == old(map0[k, l]) && map1[k, l] == old(map1[k, l])
      {
        map0[i, j] := PXL_BLANK;
        map1[i, j] := PXL_BLANK;
      }
    }
  }

  method DrawText(r: Rendering, map1: array2<int>)
    requires r.Valid() && map1.Length0 == MAX_HEIGHT && map1.Length1 == MAX_WIDTH * 2
    modifies map1
    ensures forall i, j :: 0 <= i < MAX_HEIGHT && 0 <= j < MAX_WIDTH * 2 ==>
      map1[i, j] == if i < r.edge && j < r.OutWidth() then (if r.IsText(i, j) then r.color else PXL_BLANK)
                    else old(map1[i, j])
  {
    for i := 0 to r.edge
      invariant forall k, l :: 0 <= k < MAX_HEIGHT && 0 <= l < MAX_WIDTH * 2 ==>
        map1[k, l] == if k < i && l < r.OutWidth() then (if r.IsText(k, l) then r.color else PXL_BLANK)
                      else old(map1[k, l])
    {
      for j := 0 to r.OutWidth()
        invariant forall k, l :: 0 <= k < MAX_HEIGHT && 0 <= l < MAX_WIDTH * 2 ==>
          map1[k, l] == if (k < i && l < r.OutWidth()) || (k == i && l < j)
                        then (if r.IsText(k, l) then r.color else PXL_BLANK) else old(map1[k, l])
      {
        map1[i, j] := if i >= r.height || r.gray(i, j) >= 128 then PXL_BLANK else r.color;
      }
    }
  }

  method WriteFontMap(r: Rendering, map0: array2<int>, map1: array2<int>) returns (outWidth: nat)
    requires r.Valid() && map0 != map1
    requires map0.Length0 == map1.Length0 == MAX_HEIGHT && map0.Length1 == map1.Length1 == MAX_WIDTH * 2
    modifies map0, map1
    ensures outWidth == r.OutWidth() && Contents(map0) == MapAfter(r, old(Contents(map0)))
  {
    ghost var before := Contents(map0);
    BlankBoth(r, map0, map1);
    outWidth := Min(r.width, MAX_WIDTH);
    DrawText(r, map1);
    Outline(r, map0, map1);
    ghost var after, spec := Contents(map0), MapAfter(r, before);
    forall i | 0 <= i < MAX_HEIGHT
      ensures after[i] == spec[i]
    {
      assert forall j :: 0 <= j < MAX_WIDTH * 2 ==> after[i][j] == spec[i][j];
    }
  }

  method Outline(r: Rendering, map0: array2<int>, map1: array2<int>)
    requires r.Valid() && map0 != map1
    requires map0.Length0 == map1.Length0 == MAX_HEIGHT && map0.Length1 == map1.Length1 == MAX_WIDTH * 2
    requires forall i, j :: 0 <= i < r.edge && 0 <= j < MAX_WIDTH * 2 && (j < r.OutWidth() || j < r.len * r.edge) ==>
      (map1[i, j] == r.color <==> r.IsText(i, j))
    modifies map0
    ensures forall i, j :: 0 <= i < MAX_HEIGHT && 0 <= j < MAX_WIDTH * 2 ==>
      map0[i, j] == if i < r.edge && j < r.OutWidth() then
                      (if r.IsText(i, j) then r.color else if r.TouchesText(i, j) then r.Reverse() else old(map0[i, j]))
                    else old(map0[i, j])
  {
    for i := 0 to r.edge
      invariant forall k, l :: 0 <= k < MAX_HEIGHT && 0 <= l < MAX_WIDTH * 2 ==>
        map0[k, l] == if k < i && l < r.OutWidth() then
                        (if r.IsText(k, l) then r.color
                         else if r.TouchesText(k, l) then r.Reverse() else old(map0[k, l]))
                      else old(map0[k, l])
    {
      for j := 0 to r.OutWidth()
        invariant forall k, l :: 0 <= k < MAX_HEIGHT && 0 <= l < MAX_WIDTH * 2 ==>
          map0[k, l] == if (k < i && l < r.OutWidth()) || (k == i && l < j) then
                          (if r.IsText(k, l) then r.color
                           else if r.TouchesText(k, l) then r.Reverse() else old(map0[k, l]))
                        else old(map0[k, l])
      {
        if map1[i, j] == r.color {
          map0[i, j] := map1[i, j];
        } else if (i + 1 < r.edge && map1[i + 1, j] == r.color)
               || (j + 1 < r.len * r.edge && map1[i, j + 1] == r.color)
               || (i - 1 > 0 && map1[i - 1, j] == r.color)
               || (j - 1 > 0 && map1[i, j - 1] == r.color)
        {
          map0[i, j] := r.Reverse();
        }
      }
    }
  }

  /** Within a text's cells the map shows the text's colour exactly where the grey value is below 128, the
      opposite colour, all of whose three bits differ, or blank elsewhere. */
  lemma MapShowsText(r: Rendering, i: int, j: int, before: int)
    requires r.Valid() && 0 <= i < r.edge && 0 <= j < r.width && j < 2000 && j < r.edge * r.len
    ensures r.Pixel(i, j, before) == r.color <==> i < r.height && r.gray(i, j) < 128
    ensures r.Pixel(i, j, before) != r.color ==> r.Pixel(i, j, before) + r.color == 7 || r.Pixel(i, j, before) == 0xd
  {
  }

  // ----- where the outline has holes -----

  /** The neighbours that the outline pass looks at: not the one above from row 1, not the one on the
      left from column 1, not the one on the right beyond edge * len. */
  predicate SeesBelow(r: Rendering, i: int, j: int) { r.IsText(i + 1, j) }
  predicate SeesAbove(r: Rendering, i: int, j: int) { i != 1 && r.IsText(i - 1, j) }
  predicate SeesLeft(r: Rendering, i: int, j: int) { j != 1 && r.IsText(i, j - 1) }
  predicate SeesRight(r: Rendering, i: int, j: int) { j + 1 < r.edge * r.len && r.IsText(i, j + 1) }

  predicate NextToText(r: Rendering, i: int, j: int) {
    r.IsText(i + 1, j) || r.IsText(i - 1, j) || r.IsText(i, j - 1) || r.IsText(i, j + 1)
  }

  predicate InMap(r: Rendering, i: int, j: int) { 0 <= i < r.edge && 0 <= j < r.OutWidth() }

  /** A drawn pixel next to text, but not text itself, that gets no outline. */
  predicate IsHole(r: Rendering, i: int, j: int) {
    InMap(r, i, j) && !r.IsText(i, j) && NextToText(r, i, j) && !r.TouchesText(i, j)
  }

  /** In row 1 it needs text above, in column 1 on the left, past edge * len on the right, and no
      text at any of the other neighbours that are looked at. */
  lemma HoleIff(r: Rendering, i: int, j: int)
    requires r.Valid()
    ensures IsHole(r, i, j) <==>
      && InMap(r, i, j) && !r.IsText(i, j)
      && !SeesBelow(r, i, j) && !SeesAbove(r, i, j) && !SeesLeft(r, i, j) && !SeesRight(r, i, j)
      && ((i == 1 && r.IsText(0, j)) || (j == 1 && r.IsText(i, 0)) || (j + 1 >= r.edge * r.len && r.IsText(i, j + 1)))
  {
  }

  ghost predicate RowOneOutlined(r: Rendering) {
    forall j :: 0 <= j && r.IsText(0, j) && r.edge > 1 && !r.IsText(1, j) ==>
      SeesBelow(r, 1, j) || SeesLeft(r, 1, j) || SeesRight(r, 1, j)
  }

  ghost predicate ColumnOneOutlined(r: Rendering) {
    forall i :: 0 <= i && r.IsText(i, 0) && r.OutWidth() > 1 && !r.IsText(i, 1) ==>
      SeesBelow(r, i, 1) || SeesAbove(r, i, 1) || SeesRight(r, i, 1)
  }

  ghost predicate FarTextOutlined(r: Rendering) {
    forall i, j :: 0 <= j && r.edge * r.len <= j + 1 && r.IsText(i, j + 1) && !r.IsText(i, j) ==>
      SeesBelow(r, i, j) || SeesAbove(r, i, j) || SeesLeft(r, i, j)
  }

  /** Every drawn pixel next to text is outlined exactly when three things hold of the text: what row 0
      alone could give to row 1, column 0 to column 1, and the columns past edge * len to the left, some
      other neighbour gives too. */
  lemma OutlineCompleteIff(r: Rendering)
    requires r.Valid()
    ensures (forall i, j, before :: InMap(r, i, j) && !r.IsText(i, j) && NextToText(r, i, j) ==>
               r.Pixel(i, j, before) == r.Reverse())
        <==> RowOneOutlined(r) && ColumnOneOutlined(r) && FarTextOutlined(r)
  {
    if RowOneOutlined(r) && ColumnOneOutlined(r) && FarTextOutlined(r) {
      forall i, j, before | InMap(r, i, j) && !r.IsText(i, j) && NextToText(r, i, j)
        ensures r.Pixel(i, j, before) == r.Reverse()
      {
        HoleIff(r, i, j);
      }
    } else {
      var i, j := SomeHole(r);
      assert r.Pixel(i, j, PXL_BLANK) == PXL_BLANK;
    }
  }

  lemma SomeHole(r: Rendering) returns (i: int, j: int)
    requires r.Valid() && !(RowOneOutlined(r) && ColumnOneOutlined(r) && FarTextOutlined(r))
    ensures IsHole(r, i, j)
  {
    if !RowOneOutlined(r) {
      i := 1;
      j :| 0 <= j && r.IsText(0, j) && !r.IsText(1, j)
           && !(SeesBelow(r, 1, j) || SeesLeft(r, 1, j) || SeesRight(r, 1, j));
    } else if !ColumnOneOutlined(r) {
      j := 1;
      i :| 0 <= i && r.IsText(i, 0) && !r.IsText(i, 1)
           && !(SeesBelow(r, i, 1) || SeesAbove(r, i, 1) || SeesRight(r, i, 1));
    } else {
      i, j :| 0 <= j && r.edge * r.len <= j + 1 && r.IsText(i, j + 1) && !r.IsText(i, j)
              && !(SeesBelow(r, i, j) || SeesAbove(r, i, j) || SeesLeft(r, i, j));
    }
    HoleIff(r, i, j);
  }

  /** It does happen: one dot of text in row 0 is outlined on its left and right but not below. */
  lemma DotInRowZero(before: int)
    ensures var r := Rendering(50, 2, 60, 50, (i, j) => if i == 0 && j == 50 then 0 else 255, 3);
            && r.Valid() && r.IsText(0, 50) && r.Pixel(0, 49, before) == r.Pixel(0, 51, before) == r.Reverse()
            && r.Pixel(1, 50, before) == PXL_BLANK && !RowOneOutlined(r)
  {
    var r := Rendering(50, 2, 60, 50, (i, j) => if i == 0 && j == 50 then 0 else 255, 3);
    assert r.IsText(0, 50) && !r.IsText(1, 50);
    assert !SeesBelow(r, 1, 50) && !SeesLeft(r, 1, 50) && !SeesRight(r, 1, 50);
  }

  // ----- what earlier texts leave behind -----

  /** The drawn part of a map shows nothing but text, outline and blank exactly when every drawn pixel
      beyond edge * len is text or outline. */
  lemma NoStalePixelIff(r: Rendering)
    requires r.Valid()
    ensures (forall i, j, before :: 0 <= i < r.edge && 0 <= j < r.OutWidth() ==> IsDrawn(r, r.Pixel(i, j, before)))
        <==> forall i, j :: 0 <= i < r.edge && r.edge * r.len <= j < r.OutWidth() ==>
               r.IsText(i, j) || r.TouchesText(i, j)
  {
    if i, j :| 0 <= i < r.edge && r.edge * r.len <= j < r.OutWidth() && !r.IsText(i, j) && !r.TouchesText(i, j) {
      assert !IsDrawn(r, r.Pixel(i, j, PXL_HSYNC));
    }
  }

  predicate IsDrawn(r: Rendering, pixel: int) {
    pixel == r.color || pixel == r.Reverse() || pixel == PXL_BLANK
  }

  /** In particular a text no wider than edge * len never brings a sync code onto the screen. */
  lemma NarrowTextHasNoSync(r: Rendering, i: int, j: int, before: int)
    requires r.Valid() && r.width <= r.edge * r.len && 0 <= i < r.edge && 0 <= j < r.OutWidth()
    ensures IsDrawn(r, r.Pixel(i, j, before)) && !IsSync(r.Pixel(i, j, before))
  {
  }

  /** It does happen: a short text that renders wider than its cells, over one that had text there,
      shows the colour of the earlier one. */
  lemma EarlierTextShowsThrough(m: seq<seq<int>>)
    requires IsMap(m)
    ensures var earlier := Rendering(50, 3, 150, 50, (i, j) => 0, 5);
            var later := Rendering(50, 2, 110, 50, (i, j) => 255, 3);
            && earlier.Valid() && later.Valid() && !later.IsText(0, 105) && 105 < later.OutWidth()
            && MapAfter(later, MapAfter(earlier, m))[0][105] == earlier.color
            && !IsDrawn(later, earlier.color)
  {
    var earlier := Rendering(50, 3, 150, 50, (i, j) => 0, 5);
    assert earlier.IsText(0, 105);
    assert MapAfter(earlier, m)[0][105] == 5;
  }
}
