/** The queue of pending texts: a fixed row of slots, filled at `tail`, emptied at `head`, and moved
    back to the front in place when the tail has reached the end. */
module MessageQueue {
  const QUEEN_SIZE := 4096

  class Queue {
    const str: array<string>
    var head: int
    var tail: int

    ghost predicate Valid()
      reads this
    {
      str.Length == QUEEN_SIZE && 0 <= head <= tail <= QUEEN_SIZE
    }

    /** The texts still pending, oldest first. */
    ghost function Pending(): seq<string>
      requires Valid()
      reads this, str
    {
      str[head..tail]
    }

    constructor ()
      ensures Valid() && fresh(str) && Pending() == []
    {
      str := new string[QUEEN_SIZE];
      head, tail := 0, 0;
    }

    /** Looks at the oldest text; false when there is none. */
    method Fetch() returns (ok: bool, text: string)
      requires Valid()
      ensures ok == (Pending() != [])
      ensures ok ==> text == Pending()[0]
    {
      if tail == head {
        return false, "";
      }
      return true, str[head];
    }

    method Pop()
      requires Valid()
      modifies this`head
      ensures Valid()
      ensures Pending() == if old(Pending()) == [] then [] else old(Pending())[1..]
    {
      if tail - head > 0 {
        head := head + 1;
      }
    }

    /** Move the pending texts to the front. Source and destination overlap; going upwards, a text is
        read before its place is taken. */
    method ClearQueen()
      requires Valid()
      modifies this, str
      ensures Valid() && Pending() == old(Pending()) && head == 0
    {
      var len := tail - head;
      for i := 0 to len
        invariant head == old(head) && tail == old(tail)
        invariant forall k :: 0 <= k < i ==> str[k] == old(str[head + k])
        invariant forall k :: i <= k < QUEEN_SIZE ==> str[k] == old(str[k])
      {
        str[i] := str[head + i];
      }
      head := 0;
      tail := len;
    }

    method Push(text: string)
      requires Valid() && |Pending()| < QUEEN_SIZE
      modifies this, str
      ensures Valid() && Pending() == old(Pending()) + [text]
    {
      if tail >= QUEEN_SIZE {
        ClearQueen();
      }
      str[tail] := text;
      tail := tail + 1;
    }
  }
}
