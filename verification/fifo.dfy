/**
 * The master's two circular queues: the request queue (`Modbus_FIFO_s`,
 * 255 slots) and the failure queue (`Modbus_FIFO_Errors`, 25 slots).
 *
 * Both are `Items/Head/Tail` counters over a fixed array. A queue is
 * described by a `Shape`: the number of slots of its array and the `limit`
 * its full test and its wrap-around use. The C code builds the request queue
 * with `Shape(255, 255)` and the failure queue with `Shape(25, 255)`: its
 * full test and its modulo use `MAX_ITEMS` instead of `MAX_E_ITEMS`, so the
 * head and tail indices can leave the 25-slot array. `Enqueue`/`Dequeue`
 * model that honestly, by reporting a store or load outside the array; the
 * rest of the model uses the corrected `Shape(25, 25)`.
 */
module Fifo {
  import opened Bytes

  /** `MAX_ITEMS`: slots of the request queue. */
  const MaxItems: nat := 255

  /** `MAX_E_ITEMS`: slots of the failure queue. */
  const MaxErrorItems: nat := 25

  /** The counters and the backing array of one queue. */
  datatype Ring<T> = Ring(items: nat, head: nat, tail: nat, buffer: seq<T>)

  /** Slots of the array, and the bound used by the full test and the wrap-around. */
  datatype Shape = Shape(slots: nat, limit: nat)

  /** The request queue. */
  const RequestShape := Shape(MaxItems, MaxItems)

  /** The failure queue as the C code builds it. */
  const ErrorShapeAsWritten := Shape(MaxErrorItems, MaxItems)

  /** The failure queue bounded by its own array. */
  const ErrorShape := Shape(MaxErrorItems, MaxErrorItems)

  /** A shape whose bound matches its array. */
  predicate Sound(sh: Shape) { sh.slots == sh.limit && sh.limit > 0 }

  /** The representation invariant of a queue of shape `sh`. */
  predicate Valid<T>(sh: Shape, q: Ring<T>)
  {
    && sh.limit > 0
    && |q.buffer| == sh.slots
    && q.items <= sh.limit
    && q.head < sh.limit
    && q.tail < sh.limit
    && q.head == (q.tail + q.items) % sh.limit
  }

  /** The items a valid queue holds, oldest first. */
  function Contents<T>(sh: Shape, q: Ring<T>): (s: seq<T>)
    requires Sound(sh) && Valid(sh, q)
    ensures |s| == q.items
  {
    seq(q.items, i requires 0 <= i < q.items => q.buffer[(q.tail + i) % sh.limit])
  }

  /** `Modbus_FIFO_Init` / `Modbus_FIFO_E_Init`: all counters 0; the array keeps `fill`. */
  function Init<T>(sh: Shape, fill: T): (q: Ring<T>)
    ensures q.items == 0 && q.head == 0 && q.tail == 0
    ensures sh.limit > 0 ==> Valid(sh, q)
    ensures Sound(sh) ==> Contents(sh, q) == []
  {
    Ring(0, 0, 0, seq(sh.slots, _ => fill))
  }

  /** `Modbus_FIFO_Empty` / `Modbus_FIFO_E_Empty`. */
  predicate Empty<T>(q: Ring<T>) { q.items == 0 }

  /** `Modbus_FIFO_Full` / `Modbus_FIFO_E_Full`. */
  predicate Full<T>(sh: Shape, q: Ring<T>) { q.items >= sh.limit }

  /** What an enqueue does: refuse (return 1), store (return 0), or store outside the array. */
  datatype Push<T> = Refused | Stored(queue: Ring<T>) | OutsideBuffer(index: nat)

  /** What a dequeue does: find nothing (return 0), take an item (return 1), or read outside the array. */
  datatype Pop<T> = Nothing | Taken(item: T, queue: Ring<T>) | ReadOutside(index: nat)

  /** The C return code of an enqueue. */
  function PushCode<T>(r: Push<T>): int { if r.Refused? then 1 else 0 }

  /** The C return code of a dequeue. */
  function PopCode<T>(r: Pop<T>): int { if r.Nothing? then 0 else 1 }

  /** `Modbus_FIFO_Enqueue` / `Modbus_FIFO_E_Enqueue`. */
  function Enqueue<T>(sh: Shape, q: Ring<T>, item: T): (r: Push<T>)
    requires sh.limit > 0
    ensures r.Refused? <==> Full(sh, q)
    ensures r.OutsideBuffer? <==> !Full(sh, q) && q.head >= |q.buffer|
    ensures r.Stored? ==>
      && r.queue.items == q.items + 1
      && r.queue.tail == q.tail
      && r.queue.head == (q.head + 1) % sh.limit
      && r.queue.buffer == q.buffer[q.head := item]
  {
    if Full(sh, q) then Refused
    else if q.head >= |q.buffer| then OutsideBuffer(q.head)
    else Stored(Ring(q.items + 1, (q.head + 1) % sh.limit, q.tail, q.buffer[q.head := item]))
  }

  /** `Modbus_FIFO_Dequeue` / `Modbus_FIFO_E_Dequeue`. */
  function Dequeue<T>(sh: Shape, q: Ring<T>): (r: Pop<T>)
    requires sh.limit > 0
    ensures r.Nothing? <==> Empty(q)
    ensures r.ReadOutside? <==> !Empty(q) && q.tail >= |q.buffer|
    ensures r.Taken? ==>
      && r.item == q.buffer[q.tail]
      && r.queue.items == q.items - 1
      && r.queue.head == q.head
      && r.queue.tail == (q.tail + 1) % sh.limit
      && r.queue.buffer == q.buffer
  {
    if Empty(q) then Nothing
    else if q.tail >= |q.buffer| then ReadOutside(q.tail)
    else Taken(q.buffer[q.tail], Ring(q.items - 1, q.head, (q.tail + 1) % sh.limit, q.buffer))
  }

  /** A remainder of a value below `2n`: at most one wrap-around. */
  lemma ModSmall(x: int, n: int)
    requires n > 0 && 0 <= x < 2 * n
    ensures x % n == if x < n then x else x - n
  {
    if x >= n {
      assert x - n == x - 1 * n;
      assert x / n == 1;
    }
  }

  /** Two positions of one queue less than `n` apart land on different slots. */
  lemma ModDistinct(t: nat, i: nat, j: nat, n: nat)
    requires t < n && i < j < n
    ensures (t + i) % n != (t + j) % n
  {
    ModSmall(t + i, n);
    ModSmall(t + j, n);
  }

  /** Advancing a wrapped position by one more step. */
  lemma ModStep(t: nat, i: nat, n: nat)
    requires t < n && i < n
    ensures ((t + 1) % n + i) % n == (t + 1 + i) % n
  {
    ModSmall(t + 1, n);
    ModSmall((t + 1) % n + i, n);
    ModSmall(t + 1 + i, n);
  }

  /** Enqueue on a valid, non-full queue of a sound shape appends the item at the back. */
  lemma EnqueueAppends<T>(sh: Shape, q: Ring<T>, item: T)
    requires Sound(sh) && Valid(sh, q) && !Full(sh, q)
    ensures Enqueue(sh, q, item).Stored?
    ensures Valid(sh, Enqueue(sh, q, item).queue)
    ensures Contents(sh, Enqueue(sh, q, item).queue) == Contents(sh, q) + [item]
  {
    var q' := Enqueue(sh, q, item).queue;
    var n := sh.limit;
    assert q'.head == (q.tail + q.items + 1) % n by {
      ModSmall(q.tail + q.items, n);
      ModSmall(q.head + 1, n);
      ModSmall(q.tail + q.items + 1, n);
    }
    var before := Contents(sh, q);
    var after := Contents(sh, q');
    assert |after| == |before| + 1;
    forall i | 0 <= i < |after|
      ensures after[i] == (before + [item])[i]
    {
      if i < q.items {
        ModDistinct(q.tail, i, q.items, n);
      } else {
        assert (q.tail + i) % n == q.head;
      }
    }
  }

  /** Dequeue on a valid, non-empty queue of a sound shape removes the oldest item. */
  lemma DequeueTakesOldest<T>(sh: Shape, q: Ring<T>)
    requires Sound(sh) && Valid(sh, q) && !Empty(q)
    ensures Dequeue(sh, q).Taken?
    ensures Dequeue(sh, q).item == Contents(sh, q)[0]
    ensures Valid(sh, Dequeue(sh, q).queue)
    ensures Contents(sh, Dequeue(sh, q).queue) == Contents(sh, q)[1..]
  {
    var q' := Dequeue(sh, q).queue;
    DequeueKeepsValid(sh, q);
    assert Contents(sh, q)[0] == q.buffer[q.tail] by {
      ModSmall(q.tail, sh.limit);
    }
    DequeueShifts(sh, q, q');
  }

  /** The counters after a dequeue still satisfy the invariant. */
  lemma DequeueKeepsValid<T>(sh: Shape, q: Ring<T>)
    requires Sound(sh) && Valid(sh, q) && !Empty(q)
    ensures Dequeue(sh, q).Taken? && Valid(sh, Dequeue(sh, q).queue)
  {
    var n := sh.limit;
    HeadAfterTake(q.tail, q.items, q.head, n);
    var q' := Ring(q.items - 1, q.head, (q.tail + 1) % n, q.buffer);
    assert q'.head == (q'.tail + q'.items) % n;
    assert q'.tail < n && q'.head < n && q'.items <= n && |q'.buffer| == sh.slots;
    assert Valid(sh, q');
    assert Dequeue(sh, q) == Taken(q.buffer[q.tail], q');
  }

  /** The head counter agrees with the tail and count after the tail moves on by one. */
  lemma HeadAfterTake(t: nat, items: nat, head: nat, n: nat)
    requires t < n && 1 <= items <= n && head == (t + items) % n
    ensures (t + 1) % n < n
    ensures head == ((t + 1) % n + (items - 1)) % n
  {
    ModStep(t, items - 1, n);
    assert t + 1 + (items - 1) == t + items;
  }

  /** Position `i` after a dequeue is position `i + 1` before it. */
  lemma DequeueShifts<T>(sh: Shape, q: Ring<T>, q': Ring<T>)
    requires Sound(sh) && Valid(sh, q) && Valid(sh, q') && !Empty(q)
    requires q'.items == q.items - 1 && q'.tail == (q.tail + 1) % sh.limit && q'.buffer == q.buffer
    ensures Contents(sh, q') == Contents(sh, q)[1..]
  {
    var after, before := Contents(sh, q'), Contents(sh, q);
    forall i | 0 <= i < |after|
      ensures after[i] == before[i + 1]
    {
      var n := sh.limit;
      assert after[i] == q.buffer[(q'.tail + i) % n];
      assert before[i + 1] == q.buffer[(q.tail + (i + 1)) % n];
      ModStep(q.tail, i, n);
      assert q.tail + (i + 1) == q.tail + 1 + i;
    }
  }

  /** In a sound shape the stores and loads of a valid queue never leave the array. */
  lemma SoundShapeStaysInBuffer<T>(sh: Shape, q: Ring<T>, item: T)
    requires Sound(sh) && Valid(sh, q)
    ensures !Enqueue(sh, q, item).OutsideBuffer?
    ensures !Dequeue(sh, q).ReadOutside?
  {
  }

  /** The corrected failure queue: every enqueue refuses or stores inside its 25 slots. */
  lemma ErrorQueueStaysInBuffer<T>(q: Ring<T>, item: T)
    requires Valid(ErrorShape, q)
    ensures Enqueue(ErrorShape, q, item).Refused? <==> q.items == MaxErrorItems
    ensures Enqueue(ErrorShape, q, item).Stored? ==> Valid(ErrorShape, Enqueue(ErrorShape, q, item).queue)
    ensures !Enqueue(ErrorShape, q, item).OutsideBuffer?
  {
    if !Full(ErrorShape, q) {
      EnqueueAppends(ErrorShape, q, item);
    }
  }

  /**
   * Enqueue on a queue of a sound shape, as the rest of the model uses it:
   * no room when full, otherwise the item joins the back.
   */
  function Put<T>(sh: Shape, q: Ring<T>, item: T): (r: Option<Ring<T>>)
    requires Sound(sh) && Valid(sh, q)
    ensures r.None? <==> Full(sh, q)
    ensures r.Some? ==> Valid(sh, r.value) && Contents(sh, r.value) == Contents(sh, q) + [item]
  {
    if Full(sh, q) then None
    else
      EnqueueAppends(sh, q, item);
      Some(Enqueue(sh, q, item).queue)
  }

  /** Dequeue on a queue of a sound shape: nothing when empty, otherwise the oldest item and the rest. */
  function Take<T>(sh: Shape, q: Ring<T>): (r: Option<(T, Ring<T>)>)
    requires Sound(sh) && Valid(sh, q)
    ensures r.None? <==> Empty(q)
    ensures r.Some? ==>
      && Contents(sh, q) != []
      && r.value.0 == Contents(sh, q)[0]
      && Valid(sh, r.value.1)
      && Contents(sh, r.value.1) == Contents(sh, q)[1..]
  {
    if Empty(q) then None
    else
      DequeueTakesOldest(sh, q);
      var p := Dequeue(sh, q);
      Some((p.item, p.queue))
  }

  /** Enqueue `item` `n` times into the failure queue as written, starting from `q`. */
  function FillAsWritten<T>(q: Ring<T>, item: T, n: nat): Push<T>
  {
    if n == 0 then Stored(q)
    else match FillAsWritten(q, item, n - 1)
      case Stored(q') => Enqueue(ErrorShapeAsWritten, q', item)
      case other => other
  }

  /** The first `n <= 25` failures recorded with nothing taken out fill slots `0 .. n-1`. */
  lemma {:induction false} FillAsWrittenCounts<T>(fill: T, item: T, n: nat)
    requires n <= MaxErrorItems
    ensures FillAsWritten(Init(ErrorShapeAsWritten, fill), item, n).Stored?
    ensures var q := FillAsWritten(Init(ErrorShapeAsWritten, fill), item, n).queue;
      q.items == n && q.head == n && q.tail == 0 && |q.buffer| == MaxErrorItems
  {
    if n > 0 {
      FillAsWrittenCounts(fill, item, n - 1);
    }
  }

  /**
   * The failure queue as written: after 25 failures with none read back, the
   * queue does not report full, and the 26th failure is stored at index 25,
   * one past the end of its 25-slot array.
   */
  lemma ErrorQueueEscapesAsWritten<T>(fill: T, item: T)
    ensures FillAsWritten(Init(ErrorShapeAsWritten, fill), item, MaxErrorItems).Stored?
    ensures var q := FillAsWritten(Init(ErrorShapeAsWritten, fill), item, MaxErrorItems).queue;
      !Full(ErrorShapeAsWritten, q)
      && Enqueue(ErrorShapeAsWritten, q, item) == OutsideBuffer(MaxErrorItems)
  {
    FillAsWrittenCounts(fill, item, MaxErrorItems);
  }
}
