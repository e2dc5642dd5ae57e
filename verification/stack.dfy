/** The `Stack` class of the stack page (src/components/stack-page/stack-page.tsx):
    an array used at its end, with an optional capacity (`Infinity` by
    default, written `None` here). */
module Stacks {
  import opened Types

  /** A stack value: the items, bottom first, and the capacity. */
  datatype Stack<T> = Stack(storage: seq<T>, capacity: Option<nat>)

  /** The size never exceeds a finite capacity. */
  ghost predicate Valid<T>(s: Stack<T>) {
    s.capacity.Some? ==> |s.storage| <= s.capacity.value
  }

  /** `new Stack(capacity)`: no items. */
  function NewStack<T>(capacity: Option<nat>): (s: Stack<T>)
    ensures Valid(s) && Size(s) == 0 && s.capacity == capacity
  {
    Stack([], capacity)
  }

  /** `size()`. */
  function Size<T>(s: Stack<T>): nat {
    |s.storage|
  }

  /** Whether a push would throw: the size has reached a finite capacity. */
  predicate AtCapacity<T>(s: Stack<T>) {
    s.capacity.Some? && Size(s) == s.capacity.value
  }

  /** `push`: throws when the size equals the capacity and changes nothing;
      otherwise the item goes on top and everything below stays. */
  function Push<T>(s: Stack<T>, item: T): (r: Result<Stack<T>>)
    requires Valid(s)
    ensures r.Err? <==> s.capacity.Some? && Size(s) >= s.capacity.value
    ensures r.Err? ==> r.error == CapacityExceeded
    ensures r.Ok? ==>
      && Valid(r.value) && r.value.capacity == s.capacity
      && Size(r.value) == Size(s) + 1
      && r.value.storage[..Size(s)] == s.storage
      && Peek(r.value) == Some(item)
  {
    if AtCapacity(s) then Err(CapacityExceeded)
    else Ok(s.(storage := s.storage + [item]))
  }

  /** A stack after `pop`, with the value it returned (`undefined` is
      `None`). */
  datatype Popped<T> = Popped(stack: Stack<T>, item: Option<T>)

  /** `pop`: removes and returns the top item; on an empty stack it returns
      nothing and the stack stays empty. */
  function Pop<T>(s: Stack<T>): (r: Popped<T>)
    requires Valid(s)
    ensures Valid(r.stack) && r.stack.capacity == s.capacity
    ensures r.item == Peek(s)
    ensures Size(s) == 0 ==> r.stack == s
    ensures Size(s) > 0 ==> Size(r.stack) == Size(s) - 1 && s.storage == r.stack.storage + [r.item.value]
  {
    if |s.storage| == 0 then Popped(s, None)
    else Popped(s.(storage := s.storage[..|s.storage| - 1]), Some(s.storage[|s.storage| - 1]))
  }

  /** `peek`: the top item, or nothing when empty; the stack is not
      touched. */
  function Peek<T>(s: Stack<T>): (v: Option<T>)
    ensures v.None? <==> Size(s) == 0
    ensures v.Some? ==> s.storage == s.storage[..Size(s) - 1] + [v.value]
  {
    if |s.storage| == 0 then None else Some(s.storage[|s.storage| - 1])
  }

  /** `clear`: drops every item and returns the new length, 0. */
  function Clear<T>(s: Stack<T>): (r: (Stack<T>, nat))
    requires Valid(s)
    ensures Valid(r.0) && Size(r.0) == 0 && r.0.capacity == s.capacity
    ensures r.1 == Size(r.0)
  {
    (s.(storage := []), 0)
  }

  /** LIFO: a push that succeeds followed by a pop returns the pushed item
      and restores the stack exactly. */
  lemma PushPop<T>(s: Stack<T>, item: T)
    requires Valid(s) && Push(s, item).Ok?
    ensures Pop(Push(s, item).value) == Popped(s, Some(item))
  {
    assert (s.storage + [item])[..|s.storage|] == s.storage;
  }

  /** Pushing the items one after another, stopping at the first throw. */
  function PushAll<T>(s: Stack<T>, items: seq<T>): (r: Result<Stack<T>>)
    requires Valid(s)
    ensures r.Ok? ==> Valid(r.value) && r.value.capacity == s.capacity
    decreases |items|
  {
    if items == [] then Ok(s)
    else match Push(s, items[0]) {
      case Err(e) => Err(e)
      case Ok(s') => PushAll(s', items[1..])
    }
  }

  /** Pops `n` times, collecting what each pop returned. */
  function PopTimes<T>(s: Stack<T>, n: nat): (r: (Stack<T>, seq<Option<T>>))
    requires Valid(s)
    ensures Valid(r.0) && |r.1| == n
    decreases n
  {
    if n == 0 then (s, [])
    else
      var p := Pop(s);
      var rest := PopTimes(p.stack, n - 1);
      (rest.0, [p.item] + rest.1)
  }

  /** Each pop shrinks the size by one until the stack is empty. */
  lemma {:induction false} PopTimesSize<T>(s: Stack<T>, n: nat)
    requires Valid(s)
    ensures Size(PopTimes(s, n).0) == if n <= Size(s) then Size(s) - n else 0
    decreases n
  {
    if n > 0 {
      PopTimesSize(Pop(s).stack, n - 1);
    }
  }

  /** A run of pushes that fits grows the size by the number of items. */
  lemma PushAllSize<T>(s: Stack<T>, items: seq<T>)
    requires Valid(s)
    requires s.capacity.Some? ==> Size(s) + |items| <= s.capacity.value
    ensures PushAll(s, items).Ok? && Size(PushAll(s, items).value) == Size(s) + |items|
  {
    PushAllShape(s, items);
  }

  /** The items in reverse order, each wrapped. */
  function Reversed<T>(xs: seq<T>): (r: seq<Option<T>>)
    ensures |r| == |xs|
    ensures forall i :: 0 <= i < |xs| ==> r[i] == Some(xs[|xs| - 1 - i])
  {
    if xs == [] then [] else [Some(xs[|xs| - 1])] + Reversed(xs[..|xs| - 1])
  }

  /** Pushing a run of items and then popping as many returns them in
      reverse order and gives back the original stack. */
  lemma PushAllPopAll<T>(s: Stack<T>, items: seq<T>)
    requires Valid(s)
    requires s.capacity.Some? ==> Size(s) + |items| <= s.capacity.value
    ensures PushAll(s, items).Ok?
    ensures PopTimes(PushAll(s, items).value, |items|) == (s, Reversed(items))
  {
    PushAllShape(s, items);
    PopPushed(s, items);
  }

  /** Pushing extends the storage by exactly the items. */
  lemma {:induction false} PushAllShape<T>(s: Stack<T>, items: seq<T>)
    requires Valid(s)
    requires s.capacity.Some? ==> Size(s) + |items| <= s.capacity.value
    ensures PushAll(s, items).Ok? && PushAll(s, items).value == s.(storage := s.storage + items)
    decreases |items|
  {
    if items != [] {
      var s' := s.(storage := s.storage + [items[0]]);
      PushAllFirst(s, items);
      PushAllShape(s', items[1..]);
      assert s'.storage + items[1..] == s.storage + items;
    }
  }

  /** Below a finite capacity, the first push of a run succeeds and the rest
      of the run continues from its result. */
  lemma PushAllFirst<T>(s: Stack<T>, items: seq<T>)
    requires Valid(s) && items != []
    requires s.capacity.Some? ==> Size(s) < s.capacity.value
    ensures PushAll(s, items) == PushAll(s.(storage := s.storage + [items[0]]), items[1..])
  {
    assert Push(s, items[0]) == Ok(s.(storage := s.storage + [items[0]]));
  }

  /** Popping as many items as were stacked on `s` returns them, last
      first, and leaves `s`. */
  lemma {:induction false} PopPushed<T>(s: Stack<T>, xs: seq<T>)
    requires Valid(s)
    requires s.capacity.Some? ==> Size(s) + |xs| <= s.capacity.value
    ensures PopTimes(s.(storage := s.storage + xs), |xs|) == (s, Reversed(xs))
    decreases |xs|
  {
    var u := s.(storage := s.storage + xs);
    if xs == [] {
      assert u == s;
    } else {
      var init := xs[..|xs| - 1];
      assert u.storage[..|u.storage| - 1] == s.storage + init;
      assert Pop(u) == Popped(s.(storage := s.storage + init), Some(xs[|xs| - 1]));
      PopPushed(s, init);
    }
  }

  /** With a finite capacity `c`, exactly `c` pushes onto an empty stack
      succeed and the next one throws. */
  lemma CapacityBound<T>(c: nat, items: seq<T>, extra: T)
    requires |items| == c
    ensures PushAll(NewStack<T>(Some(c)), items).Ok?
    ensures Push(PushAll(NewStack<T>(Some(c)), items).value, extra) == Err(CapacityExceeded)
  {
    PushAllShape(NewStack<T>(Some(c)), items);
  }

  /** What one circle of the stack page shows: the item, its index, whether
      it carries the "top" caption, and its highlight. */
  datatype Circle<T> = Circle(letter: T, index: nat, top: bool, state: ElementState)

  /** The circles drawn for the stack: "top" on the last item only, which is
      also the only one highlighted while a change is shown. */
  function Circles<T>(s: Stack<T>, isChecked: bool): (cs: seq<Circle<T>>)
    ensures |cs| == Size(s)
    ensures forall i :: 0 <= i < |cs| ==> cs[i].letter == s.storage[i] && cs[i].index == i
    ensures forall i :: 0 <= i < |cs| ==> (cs[i].top <==> i == Size(s) - 1)
    ensures forall i :: 0 <= i < |cs| ==> (cs[i].state == Changing <==> cs[i].top && isChecked)
    ensures forall i :: 0 <= i < |cs| ==> cs[i].state != Modified
  {
    seq(|s.storage|, i requires 0 <= i < |s.storage| =>
      var top := |s.storage| - 1 == i;
      Circle(s.storage[i], i, top, if top && isChecked then Changing else Default))
  }

  /** The captioned circle is the one holding the item `peek` returns. */
  lemma TopIsPeek<T>(s: Stack<T>, isChecked: bool)
    requires Size(s) > 0
    ensures var cs := Circles(s, isChecked);
      exists i :: 0 <= i < |cs| && cs[i].top && Some(cs[i].letter) == Peek(s)
  {
    var cs := Circles(s, isChecked);
    assert cs[|cs| - 1].top;
  }
}
