/** A ring in a fixed buffer with one slot kept empty: `head` is the next slot to write, `tail` the next
    to read. The serial receiver and the event queue both use it. */
module Ring {
  predicate InRing(size: nat, head: nat, tail: nat) {
    head < size && tail < size
  }

  function Contents<T>(cells: seq<T>, head: nat, tail: nat): seq<T>
    requires InRing(|cells|, head, tail)
  {
    if tail <= head then cells[tail..head] else cells[tail..] + cells[..head]
  }

  function After(size: nat, i: nat): nat
    requires i < size
  {
    if i + 1 == size then 0 else i + 1
  }

  lemma AfterIsModulo(size: nat, i: nat)
    requires i < size
    ensures After(size, i) == (i + 1) % size
  {
  }

  /** The writer finds the next slot taken exactly when `size - 1` elements are queued. */
  lemma FullWhenNextTaken<T>(cells: seq<T>, head: nat, tail: nat)
    requires InRing(|cells|, head, tail)
    ensures After(|cells|, head) == tail <==> |Contents(cells, head, tail)| == |cells| - 1
    ensures head == tail <==> Contents(cells, head, tail) == []
  {
  }

  lemma PushAppends<T>(cells: seq<T>, head: nat, tail: nat, x: T)
    requires InRing(|cells|, head, tail) && After(|cells|, head) != tail
    ensures Contents(cells[head := x], After(|cells|, head), tail) == Contents(cells, head, tail) + [x]
  {
    var updated := cells[head := x];
    if tail <= head {
      if head + 1 == |cells| {
        assert updated[tail..] == cells[tail..head] + [x];
      } else {
        assert updated[tail..head + 1] == cells[tail..head] + [x];
      }
    } else {
      assert updated[tail..] == cells[tail..];
      assert updated[..head + 1] == cells[..head] + [x];
    }
  }

  lemma PopTakesFirst<T>(cells: seq<T>, head: nat, tail: nat)
    requires InRing(|cells|, head, tail) && head != tail
    ensures [cells[tail]] + Contents(cells, head, After(|cells|, tail)) == Contents(cells, head, tail)
  {
  }
}
