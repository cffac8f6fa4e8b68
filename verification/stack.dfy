/** A bounded LIFO stack over an array (src/stack.ts). The array is a
    sequence whose last element is the top of the stack. */
module Stacks {
  import opened Wrappers
  import opened Bounded
  import opened Sequences

  datatype Stack<T> = Stack(items: seq<T>, capacity: Capacity) {

    /** The number of items held (`size()`). */
    function Size(): nat {
      |items|
    }

    /** The private `isEmpty()` test that guards `pop` and `peek`. */
    predicate IsEmpty() {
      |items| == 0
    }

    /** The private `atCapacity()` test that guards `push`. */
    predicate AtCapacity() {
      Bounded.AtCapacity(|items|, capacity)
    }

    /** Every stack reachable from the constructor satisfies this. */
    predicate Valid() {
      Within(|items|, capacity)
    }
  }

  /** `new Stack(capacity)`: empty, with the capacity kept as given
      (`None` is the default, unbounded). */
  function New<T>(capacity: Capacity): (s: Stack<T>)
    ensures s.Size() == 0 && s.IsEmpty()
    ensures s.capacity == capacity
    ensures s.Valid()
  {
    Stack([], capacity)
  }

  /** `push(item)`: overflow when full, otherwise the item becomes the new top. */
  function Push<T>(s: Stack<T>, item: T): (r: Step<Stack<T>, ()>)
    ensures r.result.Err? <==> s.AtCapacity()
    ensures r.result.Err? ==> r.result.error == Overflow && r.state == s
    ensures r.result.Ok? ==>
      && r.state.capacity == s.capacity
      && r.state.Size() == s.Size() + 1
      && r.state.items[..s.Size()] == s.items
      && Peek(r.state) == Ok(item)
    ensures s.Valid() ==> r.state.Valid()
  {
    if s.AtCapacity() then Step(s, Err(Overflow))
    else Step(Stack(s.items + [item], s.capacity), Ok(()))
  }

  /** `pop()`: underflow when empty, otherwise removes and returns the top. */
  function Pop<T>(s: Stack<T>): (r: Step<Stack<T>, T>)
    ensures r.result.Err? <==> s.IsEmpty()
    ensures r.result.Err? ==> r.result.error == Underflow && r.state == s
    ensures r.result.Ok? ==>
      && r.state.capacity == s.capacity
      && r.state.Size() + 1 == s.Size()
      && r.state.items + [r.result.value] == s.items
    ensures s.Valid() ==> r.state.Valid()
  {
    if s.IsEmpty() then Step(s, Err(Underflow))
    else Step(Stack(s.items[..|s.items| - 1], s.capacity), Ok(s.items[|s.items| - 1]))
  }

  /** `peek()`: underflow when empty, otherwise the top, which is also what
      `pop` would return. Being a function it cannot change the stack. */
  function Peek<T>(s: Stack<T>): (r: Result<T>)
    ensures r.Err? <==> s.IsEmpty()
    ensures r.Err? ==> r.error == Underflow
    ensures r.Ok? ==> r == Pop(s).result && r.value in s.items
  {
    if s.IsEmpty() then Err(Underflow) else Ok(s.items[s.Size() - 1])
  }

  /** A run of `push` calls in order, stopping at the first one that throws
      (what `[…].forEach((x) => sut.push(x))` does). */
  function PushAll<T>(s: Stack<T>, xs: seq<T>): Step<Stack<T>, ()>
    decreases |xs|
  {
    if xs == [] then Step(s, Ok(()))
    else
      var st := Push(s, xs[0]);
      if st.result.Err? then Step(st.state, Err(st.result.error))
      else PushAll(st.state, xs[1..])
  }

  /** `n` calls of `pop` in order, collecting what they return, stopping at
      the first one that throws. */
  function PopN<T>(s: Stack<T>, n: nat): Step<Stack<T>, seq<T>>
    decreases n
  {
    if n == 0 then Step(s, Ok([]))
    else
      var st := Pop(s);
      if st.result.Err? then Step(st.state, Err(st.result.error))
      else
        var rest := PopN(st.state, n - 1);
        if rest.result.Err? then Step(rest.state, Err(rest.result.error))
        else Step(rest.state, Ok([st.result.value] + rest.result.value))
  }

  /** Push then pop restores the prior stack and returns the pushed item. */
  lemma PushThenPop<T>(s: Stack<T>, item: T)
    requires !s.AtCapacity()
    ensures Pop(Push(s, item).state) == Step(s, Ok(item))
  {
    assert (s.items + [item])[..|s.items|] == s.items;
  }

  /** Pushing succeeds item by item while there is room: the items are
      appended in order, and the capacity is untouched. */
  lemma {:induction false} PushAllAppends<T>(s: Stack<T>, xs: seq<T>)
    requires HasRoom(s.Size(), |xs|, s.capacity)
    ensures PushAll(s, xs) == Step(Stack(s.items + xs, s.capacity), Ok(()))
    decreases |xs|
  {
    if xs != [] {
      var s1 := Stack(s.items + [xs[0]], s.capacity);
      assert Push(s, xs[0]) == Step(s1, Ok(()));
      PushAllAppends(s1, xs[1..]);
      assert s1.items + xs[1..] == s.items + xs;
    } else {
      assert s.items + xs == s.items;
    }
  }

  /** Popping `n` times returns the top `n` items, top first, and leaves
      the rest. */
  lemma PopNTakesTop<T>(s: Stack<T>, n: nat)
    requires n <= s.Size()
    ensures PopN(s, n) ==
      Step(Stack(s.items[..s.Size() - n], s.capacity), Ok(Reverse(s.items[s.Size() - n..])))
  {
    var k := s.Size();
    assert s.items[..k - n] + s.items[k - n..] == s.items;
    PopsReverse(s.items[..k - n], s.items[k - n..], s.capacity);
  }

  /** The same with the stack given as the items below and the `top` run. */
  lemma {:induction false} PopsReverse<T>(below: seq<T>, top: seq<T>, capacity: Capacity)
    ensures PopN(Stack(below + top, capacity), |top|) == Step(Stack(below, capacity), Ok(Reverse(top)))
    decreases |top|
  {
    if top == [] {
      assert below + top == below;
    } else {
      var last := top[|top| - 1];
      var init := top[..|top| - 1];
      assert top == init + [last];
      assert below + top == (below + init) + [last];
      assert Pop(Stack(below + top, capacity)) == Step(Stack(below + init, capacity), Ok(last));
      PopsReverse(below, init, capacity);
      ReverseSnoc(init, last);
    }
  }

  /** LIFO: pushing a run of items and then popping as many returns them in
      reverse push order and gives back the original stack. */
  lemma LastInFirstOut<T>(s: Stack<T>, xs: seq<T>)
    requires HasRoom(s.Size(), |xs|, s.capacity)
    ensures PushAll(s, xs).result.Ok?
    ensures PopN(PushAll(s, xs).state, |xs|) == Step(s, Ok(Reverse(xs)))
  {
    PushAllAppends(s, xs);
    var t := Stack(s.items + xs, s.capacity);
    PopNTakesTop(t, |xs|);
    assert t.items[..t.Size() - |xs|] == s.items;
    assert t.items[t.Size() - |xs|..] == xs;
  }

  /** After exactly `c` successful pushes onto a stack of capacity `c` the
      next push overflows; after popping all of them the next pop and peek
      underflow. */
  lemma FillThenDrain<T>(c: nat, xs: seq<T>, extra: T)
    requires |xs| == c
    ensures PushAll(New<T>(Some(c)), xs).result.Ok?
    ensures Push(PushAll(New<T>(Some(c)), xs).state, extra) ==
      Step(PushAll(New<T>(Some(c)), xs).state, Err(Overflow))
    ensures PopN(PushAll(New<T>(Some(c)), xs).state, c).state == New(Some(c))
    ensures Pop(PopN(PushAll(New<T>(Some(c)), xs).state, c).state).result == Err(Underflow)
    ensures Peek(PopN(PushAll(New<T>(Some(c)), xs).state, c).state) == Err(Underflow)
  {
    var empty := New<T>(Some(c));
    PushAllAppends(empty, xs);
    assert [] + xs == xs;
    var full := PushAll(empty, xs).state;
    assert full == Stack(xs, Some(c));
    LastInFirstOut(empty, xs);
    assert PopN(full, c).state == empty;
  }
}
