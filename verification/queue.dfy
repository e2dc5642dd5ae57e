/** The `Queue` class of the queue page (src/components/queue-page/queue-page.tsx):
    a fixed-length array of slots with a `head` and a `tail` cursor that only
    move forward. It is not a ring buffer: indices never wrap, `dequeue`
    clamps `head` at the last slot, and the first item of an empty queue
    goes to slot 0 without moving `tail`. */
module Queues {
  import opened Types

  /** A queue value: the slots (`null` is `None`), the capacity given to the
      constructor, and the two cursors. */
  datatype Queue<T> = Queue(storage: seq<Option<T>>, queueSize: nat, head: nat, tail: nat)

  /** The object invariant: the storage keeps the constructor's length and
      both cursors point into it. */
  ghost predicate Valid<T>(q: Queue<T>) {
    && q.queueSize >= 1
    && |q.storage| == q.queueSize
    && q.head < q.queueSize
    && q.tail < q.queueSize
  }

  /** Every slot is `null`. */
  ghost predicate AllEmpty<T>(s: seq<Option<T>>) {
    forall i :: 0 <= i < |s| ==> s[i].None?
  }

  /** `new Queue(size)`: `size` empty slots, both cursors at 0. A queue of
      one slot is full from the start. */
  function NewQueue<T>(size: nat): (q: Queue<T>)
    requires size >= 1
    ensures Valid(q) && |q.storage| == size && AllEmpty(q.storage)
    ensures q.head == 0 && q.tail == 0
    ensures IsFull(q) <==> size == 1
  {
    Queue(seq(size, _ => None), size, 0, 0)
  }

  /** `isFull`: the tail cursor sits on the last slot. */
  predicate IsFull<T>(q: Queue<T>) {
    q.tail == q.queueSize - 1
  }

  /** `size()`: the length of the storage, which is always the capacity. */
  function Size<T>(q: Queue<T>): (n: nat)
    requires Valid(q)
    ensures n == q.queueSize && q.head < n && q.tail < n
  {
    |q.storage|
  }

  /** `enqueue`: throws when full and changes nothing; otherwise writes the
      item at slot 0 (when slot 0 is empty and `tail` is 0) or one past the
      tail. The head cursor never moves and no other slot changes. */
  function Enqueue<T>(q: Queue<T>, item: T): (r: Result<Queue<T>>)
    requires Valid(q)
    ensures r.Err? <==> IsFull(q)
    ensures r.Err? ==> r.error == CapacityExceeded
    ensures r.Ok? ==> var q' := r.value;
      && Valid(q') && q'.queueSize == q.queueSize && q'.head == q.head
      && q'.storage[q'.tail] == Some(item)
      && (q'.tail == q.tail <==> q.storage[0].None? && q.tail == 0)
      && (q'.tail != q.tail ==> q'.tail == q.tail + 1)
      && (forall i :: 0 <= i < |q.storage| && i != q'.tail ==> q'.storage[i] == q.storage[i])
  {
    if IsFull(q) then Err(CapacityExceeded)
    else if q.storage[0].None? && q.tail == 0 then Ok(q.(storage := q.storage[0 := Some(item)]))
    else Ok(q.(storage := q.storage[q.tail + 1 := Some(item)], tail := q.tail + 1))
  }

  /** `dequeue`: empties the head slot and advances `head`, clamped to the
      last slot. It never fails, never moves `tail` and changes no other slot. */
  function Dequeue<T>(q: Queue<T>): (r: Queue<T>)
    requires Valid(q)
    ensures Valid(r) && r.queueSize == q.queueSize && r.tail == q.tail
    ensures r.storage[q.head].None?
    ensures forall i :: 0 <= i < |q.storage| && i != q.head ==> r.storage[i] == q.storage[i]
    ensures q.head < q.queueSize - 1 ==> r.head == q.head + 1
    ensures q.head == q.queueSize - 1 ==> r.head == q.head
  {
    var h := q.head + 1;
    q.(storage := q.storage[q.head := None], head := if h == Size(q) then Size(q) - 1 else h)
  }

  /** `clear`: every slot empty, both cursors back at 0. */
  function Clear<T>(q: Queue<T>): (r: Queue<T>)
    requires Valid(q)
    ensures Valid(r) && r.queueSize == q.queueSize && AllEmpty(r.storage)
    ensures r.head == 0 && r.tail == 0
    ensures r == NewQueue(q.queueSize)
  {
    q.(storage := seq(|q.storage|, _ => None), head := 0, tail := 0)
  }

  /** Enqueues the items one after another, stopping at the first throw. */
  function EnqueueAll<T>(q: Queue<T>, items: seq<T>): (r: Result<Queue<T>>)
    requires Valid(q)
    ensures r.Ok? ==> Valid(r.value) && r.value.queueSize == q.queueSize && r.value.head == q.head
    decreases |items|
  {
    if items == [] then Ok(q)
    else match Enqueue(q, items[0]) {
      case Err(e) => Err(e)
      case Ok(q') => EnqueueAll(q', items[1..])
    }
  }

  /** Dequeues `n` times. */
  function DequeueTimes<T>(q: Queue<T>, n: nat): (r: Queue<T>)
    requires Valid(q)
    ensures Valid(r) && r.queueSize == q.queueSize && r.tail == q.tail
    decreases n
  {
    if n == 0 then q else DequeueTimes(Dequeue(q), n - 1)
  }

  /** The state reached from a fresh queue after enqueuing `xs` and
      dequeuing `d` of them: the first `d` slots emptied, the rest of `xs`
      in order, nothing behind, `head` on the oldest item not dequeued (or
      clamped on the last slot once everything is out). */
  ghost predicate Holds<T>(q: Queue<T>, xs: seq<T>, d: nat) {
    && Valid(q)
    && |xs| <= q.queueSize
    && d <= |xs|
    && q.head == (if d == q.queueSize then d - 1 else d)
    && q.tail == (if xs == [] then 0 else |xs| - 1)
    && forall i :: 0 <= i < |q.storage| ==>
         q.storage[i] == (if d <= i < |xs| then Some(xs[i]) else None)
  }

  /** One enqueue on a queue that has never been dequeued: it succeeds
      exactly when fewer than `queueSize` items are in (for a capacity of at
      least 2), and then the item is last in line. */
  lemma EnqueueStep<T>(q: Queue<T>, xs: seq<T>, x: T)
    requires Holds(q, xs, 0) && q.queueSize >= 2
    ensures Enqueue(q, x).Ok? <==> |xs| < q.queueSize
    ensures |xs| < q.queueSize ==> Holds(Enqueue(q, x).value, xs + [x], 0)
  {
    if xs != [] {
      assert q.storage[0] == Some(xs[0]);
    }
  }

  /** Enqueuing `ys` after `xs` succeeds while it fits and lines the items
      up in order. */
  lemma {:induction false} EnqueueAllFits<T>(q: Queue<T>, xs: seq<T>, ys: seq<T>)
    requires Holds(q, xs, 0) && q.queueSize >= 2
    requires |xs| + |ys| <= q.queueSize
    ensures EnqueueAll(q, ys).Ok? && Holds(EnqueueAll(q, ys).value, xs + ys, 0)
    decreases |ys|
  {
    if ys == [] {
      assert xs + ys == xs;
    } else {
      EnqueueStep(q, xs, ys[0]);
      var q' := Enqueue(q, ys[0]).value;
      EnqueueAllFits(q', xs + [ys[0]], ys[1..]);
      assert xs + [ys[0]] + ys[1..] == xs + ys;
    }
  }

  /** From a fresh queue of capacity `size` (at least 2), exactly `size`
      enqueues succeed, placing the items in slots 0 to `size - 1`, and the
      next enqueue throws. */
  lemma FreshCapacity<T>(size: nat, items: seq<T>, extra: T)
    requires size >= 2 && |items| == size
    ensures EnqueueAll(NewQueue<T>(size), items).Ok?
    ensures var q := EnqueueAll(NewQueue<T>(size), items).value;
      && (forall i :: 0 <= i < size ==> q.storage[i] == Some(items[i]))
      && IsFull(q) && Enqueue(q, extra) == Err(CapacityExceeded)
  {
    var q0 := NewQueue<T>(size);
    assert Holds(q0, [], 0);
    EnqueueAllFits(q0, [], items);
    assert [] + items == items;
  }

  /** On a queue that has never been dequeued and has at least 2 slots,
      `isFull` holds exactly when every slot holds an item. */
  lemma FullExactlyWhenFilled<T>(q: Queue<T>, xs: seq<T>)
    requires Holds(q, xs, 0) && q.queueSize >= 2
    ensures IsFull(q) <==> |xs| == q.queueSize
    ensures IsFull(q) <==> forall i :: 0 <= i < |q.storage| ==> q.storage[i].Some?
  {
    if !IsFull(q) {
      assert q.storage[q.queueSize - 1].None?;
    }
  }

  /** A queue of one slot accepts nothing. */
  lemma SingleSlotIsFull<T>(item: T)
    ensures Enqueue(NewQueue<T>(1), item) == Err(CapacityExceeded)
  {
  }

  /** One dequeue from the front of a queue that still holds an item. */
  lemma DequeueStep<T>(q: Queue<T>, xs: seq<T>, d: nat)
    requires Holds(q, xs, d) && d < |xs|
    ensures Holds(Dequeue(q), xs, d + 1)
  {
  }

  /** FIFO order: after enqueuing `xs` into a fresh queue and dequeuing `d`
      of them, the slot under `head` holds `xs[d]`, the oldest remaining
      item, and every earlier slot is empty. */
  lemma {:induction false} FirstInFirstOut<T>(q: Queue<T>, xs: seq<T>, d: nat)
    requires Holds(q, xs, 0) && d < |xs|
    ensures var r := DequeueTimes(q, d);
      && r.head == d && r.storage[r.head] == Some(xs[d])
      && (forall i :: 0 <= i < d ==> r.storage[i].None?)
  {
    DequeueTimesHolds(q, xs, 0, d);
  }

  lemma {:induction false} DequeueTimesHolds<T>(q: Queue<T>, xs: seq<T>, d: nat, n: nat)
    requires Holds(q, xs, d) && d + n <= |xs|
    ensures Holds(DequeueTimes(q, n), xs, d + n)
    decreases n
  {
    if n > 0 {
      DequeueStep(q, xs, d);
      DequeueTimesHolds(Dequeue(q), xs, d + 1, n - 1);
    }
  }

  /** The cursors never wrap: once `head` reaches the last slot, further
      dequeues keep it there and the queue stays empty at that slot. */
  lemma HeadClampsAtEnd<T>(q: Queue<T>, n: nat)
    requires Valid(q) && q.head == q.queueSize - 1
    ensures DequeueTimes(q, n).head == q.queueSize - 1
    ensures n > 0 ==> DequeueTimes(q, n).storage[q.queueSize - 1].None?
    decreases n
  {
    if n > 0 {
      HeadClampsAtEnd(Dequeue(q), n - 1);
    }
  }

  /** After one item has been enqueued and dequeued, slot 0 is empty and
      `tail` is still 0, so the next item goes into slot 0, behind `head`:
      it is stranded where no dequeue reaches it until `clear`. */
  lemma StrandedBehindHead<T>(size: nat, a: T, b: T)
    requires size >= 2
    ensures var q1 := Enqueue(NewQueue<T>(size), a).value;
      var q2 := Dequeue(q1);
      var q3 := Enqueue(q2, b).value;
      && q3.storage[0] == Some(b) && q3.head == 1 && q3.tail == 0
      && (forall n: nat :: DequeueTimes(q3, n).storage[0] == Some(b))
  {
    var q3 := Enqueue(Dequeue(Enqueue(NewQueue<T>(size), a).value), b).value;
    forall n: nat ensures DequeueTimes(q3, n).storage[0] == Some(b) {
      BehindHeadUntouched(q3, n);
    }
  }

  /** Dequeues only touch slots at or after `head`. */
  lemma {:induction false} BehindHeadUntouched<T>(q: Queue<T>, n: nat)
    requires Valid(q) && q.head >= 1
    ensures DequeueTimes(q, n).storage[0] == q.storage[0]
    ensures DequeueTimes(q, n).head >= 1
    decreases n
  {
    if n > 0 {
      BehindHeadUntouched(Dequeue(q), n - 1);
    }
  }

  /** What one circle of the queue page shows: the slot's letter (empty for
      `null`) and whether it carries the "head" and "tail" captions. */
  datatype Circle<T> = Circle(letter: Option<T>, index: nat, head: bool, tail: bool)

  /** The "head" caption: on the head slot when it holds an item, or when
      `head` has been clamped to the last slot. */
  predicate HeadLabel<T>(q: Queue<T>, index: nat)
    requires Valid(q) && index < q.queueSize
  {
    (index == q.head && q.storage[index].Some?) || (index == q.head && q.head == Size(q) - 1)
  }

  /** The "tail" caption: on the tail slot when it holds an item. */
  predicate TailLabel<T>(q: Queue<T>, index: nat)
    requires Valid(q) && index < q.queueSize
  {
    index == q.tail && q.storage[index].Some?
  }

  /** The circles drawn for the queue, one per slot. At most one carries
      "head" and at most one "tail"; "tail" is shown exactly when the tail
      slot holds an item. */
  function Circles<T>(q: Queue<T>): (cs: seq<Circle<T>>)
    requires Valid(q)
    ensures |cs| == q.queueSize
    ensures forall i :: 0 <= i < |cs| ==> cs[i].letter == q.storage[i] && cs[i].index == i
    ensures forall i :: 0 <= i < |cs| ==> cs[i].head == HeadLabel(q, i) && cs[i].tail == TailLabel(q, i)
    ensures forall i, j :: 0 <= i < |cs| && 0 <= j < |cs| && cs[i].head && cs[j].head ==> i == j
    ensures forall i, j :: 0 <= i < |cs| && 0 <= j < |cs| && cs[i].tail && cs[j].tail ==> i == j
    ensures (exists i :: 0 <= i < |cs| && cs[i].tail) <==> q.storage[q.tail].Some?
    ensures q.storage[q.head].Some? ==> cs[q.head].head
  {
    var cs := seq(q.queueSize, i requires 0 <= i < q.queueSize =>
      Circle(q.storage[i], i, HeadLabel(q, i), TailLabel(q, i)));
    assert q.storage[q.tail].Some? ==> cs[q.tail].tail;
    cs
  }

  /** The page's queue of 7 after enqueuing two items (say "1" and "2"):
      "head" on slot 0, "tail" on slot 1, and no other captions. */
  lemma SevenSlotScenario<T>(a: T, b: T)
    ensures var q := EnqueueAll(NewQueue<T>(7), [a, b]);
      && q.Ok?
      && var cs := Circles(q.value);
      && cs[0] == Circle(Some(a), 0, true, false)
      && cs[1] == Circle(Some(b), 1, false, true)
      && (forall i :: 2 <= i < 7 ==> cs[i] == Circle(None, i, false, false))
  {
    TwoEnqueued(a, b);
    var q := EnqueueAll(NewQueue<T>(7), [a, b]).value;
    var cs := Circles(q);
    forall i | 2 <= i < 7 ensures cs[i] == Circle(None, i, false, false) {
      assert q.storage[i].None?;
    }
  }

  lemma TwoEnqueued<T>(a: T, b: T)
    ensures EnqueueAll(NewQueue<T>(7), [a, b]).Ok?
    ensures var q := EnqueueAll(NewQueue<T>(7), [a, b]).value;
      && q.queueSize == 7 && q.head == 0 && q.tail == 1
      && q.storage[0] == Some(a) && q.storage[1] == Some(b)
      && (forall i :: 2 <= i < 7 ==> q.storage[i].None?)
  {
    var q0 := NewQueue<T>(7);
    assert Holds(q0, [], 0);
    EnqueueAllFits(q0, [], [a, b]);
    assert [] + [a, b] == [a, b];
  }
}
