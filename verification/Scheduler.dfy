/** The sliding texts: a grid of five rows of five slots, the rule that finds a slot for a new text,
    and the motion of the texts from frame to frame. Slot j of row i is cell 5 * i + j. */
module Scheduler {
  import opened FontMap
  import opened Painter

  const ROWS := 5
  const COLS := 5
  const CELLS := 25
  const CYCLE_PER_DANMU := 384

  function Row(c: int): int { c / COLS }

  /** One frame of motion. */
  function Aged(l: Sliding): Sliding {
    if !l.enable then l
    else
      var moved := l.(x := l.x - l.ppc);
      if moved.x < -(moved.width as int) then moved.(enable := false) else moved
  }

  /** Fast enough to cross the screen in CYCLE_PER_DANMU frames. */
  function Speed(sw: nat, width: nat): nat { 1 + (width + sw) / CYCLE_PER_DANMU }

  /** A text that has just been put into slot l. */
  function Fresh(l: Sliding, sw: nat, r: Rendering): Sliding
    requires IsMap(l.pixels)
  {
    l.(enable := true, x := sw, width := r.OutWidth(), ppc := Speed(sw, r.OutWidth()), pixels := MapAfter(r, l.pixels))
  }

  /** The text still reaches beyond the right edge of the screen. */
  predicate Entering(l: Sliding, sw: nat) { l.enable && l.x + l.width > sw }

  /** Cell c is empty and no other text of its row is still entering. */
  predicate IsFree(g: seq<Sliding>, sw: nat, c: int) {
    && |g| == CELLS && 0 <= c < CELLS && !g[c].enable
    && forall k :: 0 <= k < CELLS && Row(k) == Row(c) && k != c ==> !Entering(g[k], sw)
  }

  /** The first free cell from c on, or -1. */
  function FirstFree(g: seq<Sliding>, sw: nat, c: nat): (f: int)
    requires c <= CELLS
    ensures f == -1 ==> forall k :: c <= k < CELLS ==> !IsFree(g, sw, k)
    ensures f != -1 ==> c <= f && IsFree(g, sw, f) && forall k :: c <= k < f ==> !IsFree(g, sw, k)
    decreases CELLS - c
  {
    if c == CELLS then -1 else if IsFree(g, sw, c) then c else FirstFree(g, sw, c + 1)
  }

  method SlidingNextCycle(cells: array<Sliding>, c: nat)
    requires c < cells.Length
    modifies cells
    ensures cells[..] == old(cells[..])[c := Aged(old(cells[c]))]
  {
    if !cells[c].enable {
      return;
    }
    cells[c] := cells[c].(x := cells[c].x - cells[c].ppc);
    if cells[c].x < -(cells[c].width as int) {
      cells[c] := cells[c].(enable := false);
    }
  }

  method SlidingSetDanmu(sw: nat, cells: array<Sliding>, c: nat, r: Rendering)
    requires c < cells.Length && !cells[c].enable && IsMap(cells[c].pixels)
    modifies cells
    ensures cells[..] == old(cells[..])[c := Fresh(old(cells[c]), sw, r)]
  {
    cells[c] := cells[c].(pixels := MapAfter(r, cells[c].pixels), width := r.OutWidth());
    cells[c] := cells[c].(enable := true);
    cells[c] := cells[c].(x := sw);
    cells[c] := cells[c].(ppc := 1 + ((cells[c].width + sw) / CYCLE_PER_DANMU));
  }

  /** Whether another text of the row is still entering. */
  method RowIsBusy(sw: nat, cells: array<Sliding>, i: nat, j: nat) returns (conflict: bool)
    requires cells.Length == CELLS && i < ROWS && j < COLS && !cells[COLS * i + j].enable
    ensures conflict <==> !IsFree(cells[..], sw, COLS * i + j)
  {
    ghost var g, c := cells[..], COLS * i + j;
    for k := 0 to COLS
      invariant forall m :: COLS * i <= m < COLS * i + k && m != c ==> !Entering(g[m], sw)
    {
      var other := cells[COLS * i + k];
      if j != k && other.enable && other.x + other.width > sw {
        assert g[COLS * i + k] == other && Row(COLS * i + k) == Row(c);
        return true;
      }
    }
    return false;
  }

  /** A new text goes into the first free cell, row by row; if there is none, nothing happens. */
  method InsertSliding(sw: nat, cells: array<Sliding>, r: Rendering) returns (ok: bool)
    requires cells.Length == CELLS && forall c :: 0 <= c < CELLS ==> IsMap(cells[c].pixels)
    modifies cells
    ensures var g := old(cells[..]);
            var c := FirstFree(g, sw, 0);
            ok == (c != -1) && cells[..] == if ok then g[c := Fresh(g[c], sw, r)] else g
  {
    ghost var g := cells[..];
    for i := 0 to ROWS
      invariant cells[..] == g
      invariant forall c :: 0 <= c < COLS * i ==> !IsFree(g, sw, c)
    {
      for j := 0 to COLS
        invariant cells[..] == g
        invariant forall c :: 0 <= c < COLS * i + j ==> !IsFree(g, sw, c)
      {
        var c := COLS * i + j;
        if !cells[c].enable {
          var conflict := RowIsBusy(sw, cells, i, j);
          if !conflict {
            SlidingSetDanmu(sw, cells, c, r);
            return true;
          }
        }
      }
    }
    return false;
  }
}
