/** A bounded FIFO queue over an array (src/queue.ts). The array is a
    sequence whose first element is the front of the queue. */
module Queues {
  import opened Wrappers
  import opened Bounded

  datatype Queue<T> = Queue(items: seq<T>, capacity: Capacity) {

    /** The number of items held (`size()`). */
    function Size(): nat {
      |items|
    }

    /** Every queue reachable from the constructor satisfies this. */
    predicate Valid() {
      Within(|items|, capacity)
    }
  }

  /** `new Queue(capacity)`: empty, with the capacity kept as given
      (`None` is the default, unbounded). */
  function New<T>(capacity: Capacity): (q: Queue<T>)
    ensures q.Size() == 0
    ensures q.capacity == capacity
    ensures q.Valid()
  {
    Queue([], capacity)
  }

  /** `enqueue(item)`: overflow when `size() === capacity`, otherwise the
      item joins at the tail. */
  function Enqueue<T>(q: Queue<T>, item: T): (r: Step<Queue<T>, ()>)
    ensures r.result.Err? <==> AtCapacity(q.Size(), q.capacity)
    ensures r.result.Err? ==> r.result.error == Overflow && r.state == q
    ensures r.result.Ok? ==>
      && r.state.capacity == q.capacity
      && r.state.Size() == q.Size() + 1
      && r.state.items[..q.Size()] == q.items
      && r.state.items[q.Size()] == item
      && (q.Size() == 0 ==> Peek(r.state) == Ok(item))
      && (q.Size() > 0 ==> Peek(r.state) == Peek(q))
    ensures q.Valid() ==> r.state.Valid()
  {
    if AtCapacity(q.Size(), q.capacity) then Step(q, Err(Overflow))
    else Step(Queue(q.items + [item], q.capacity), Ok(()))
  }

  /** `dequeue()`: underflow when empty, otherwise removes and returns the
      front item. */
  function Dequeue<T>(q: Queue<T>): (r: Step<Queue<T>, T>)
    ensures r.result.Err? <==> q.Size() == 0
    ensures r.result.Err? ==> r.result.error == Underflow && r.state == q
    ensures r.result.Ok? ==>
      && r.state.capacity == q.capacity
      && r.state.Size() + 1 == q.Size()
      && [r.result.value] + r.state.items == q.items
    ensures q.Valid() ==> r.state.Valid()
  {
    if q.Size() == 0 then Step(q, Err(Underflow))
    else Step(Queue(q.items[1..], q.capacity), Ok(q.items[0]))
  }

  /** `peek()`: underflow when empty, otherwise the front item, which is
      also what `dequeue` would return. Being a function it cannot change
      the queue. */
  function Peek<T>(q: Queue<T>): (r: Result<T>)
    ensures r.Err? <==> q.Size() == 0
    ensures r.Err? ==> r.error == Underflow
    ensures r.Ok? ==> r == Dequeue(q).result && r.value in q.items
  {
    if q.Size() == 0 then Err(Underflow) else Ok(q.items[0])
  }

  /** A run of `enqueue` calls in order, stopping at the first one that throws. */
  function EnqueueAll<T>(q: Queue<T>, xs: seq<T>): Step<Queue<T>, ()>
    decreases |xs|
  {
    if xs == [] then Step(q, Ok(()))
    else
      var st := Enqueue(q, xs[0]);
      if st.result.Err? then Step(st.state, Err(st.result.error))
      else EnqueueAll(st.state, xs[1..])
  }

  /** `n` calls of `dequeue` in order, collecting what they return, stopping
      at the first one that throws. */
  function DequeueN<T>(q: Queue<T>, n: nat): Step<Queue<T>, seq<T>>
    decreases n
  {
    if n == 0 then Step(q, Ok([]))
    else
      var st := Dequeue(q);
      if st.result.Err? then Step(st.state, Err(st.result.error))
      else
        var rest := DequeueN(st.state, n - 1);
        if rest.result.Err? then Step(rest.state, Err(rest.result.error))
        else Step(rest.state, Ok([st.result.value] + rest.result.value))
  }

  /** Enqueueing succeeds item by item while there is room: the items are
      appended at the tail in order, and the capacity is untouched. */
  lemma {:induction false} EnqueueAllAppends<T>(q: Queue<T>, xs: seq<T>)
    requires HasRoom(q.Size(), |xs|, q.capacity)
    ensures EnqueueAll(q, xs) == Step(Queue(q.items + xs, q.capacity), Ok(()))
    decreases |xs|
  {
    if xs != [] {
      var q1 := Queue(q.items + [xs[0]], q.capacity);
      assert Enqueue(q, xs[0]) == Step(q1, Ok(()));
      EnqueueAllAppends(q1, xs[1..]);
      assert q1.items + xs[1..] == q.items + xs;
    } else {
      assert q.items + xs == q.items;
    }
  }

  /** Dequeueing `n` times returns the first `n` items, front first, and
      leaves the rest. */
  lemma {:induction false} DequeueNTakesFront<T>(q: Queue<T>, n: nat)
    requires n <= q.Size()
    ensures DequeueN(q, n) == Step(Queue(q.items[n..], q.capacity), Ok(q.items[..n]))
    decreases n
  {
    if n == 0 {
      assert q.items[0..] == q.items;
    } else {
      var st := Dequeue(q);
      assert st == Step(Queue(q.items[1..], q.capacity), Ok(q.items[0]));
      DequeueNTakesFront(st.state, n - 1);
      assert q.items[1..][n - 1..] == q.items[n..];
      assert [q.items[0]] + q.items[1..][..n - 1] == q.items[..n];
    }
  }

  /** FIFO: whatever a queue holds and is then enqueued comes out of
      `dequeue` in the same order, leaving the queue empty. */
  lemma FirstInFirstOut<T>(q: Queue<T>, xs: seq<T>)
    requires HasRoom(q.Size(), |xs|, q.capacity)
    ensures EnqueueAll(q, xs).result.Ok?
    ensures DequeueN(EnqueueAll(q, xs).state, q.Size() + |xs|) ==
      Step(New(q.capacity), Ok(q.items + xs))
  {
    EnqueueAllAppends(q, xs);
    var t := Queue(q.items + xs, q.capacity);
    DequeueNTakesFront(t, t.Size());
    assert t.items[t.Size()..] == [];
    assert t.items[..t.Size()] == t.items;
  }

  /** After exactly `c` successful enqueues into a queue of capacity `c` the
      next enqueue overflows; after dequeueing all of them the next dequeue
      and peek underflow. */
  lemma FillThenDrain<T>(c: nat, xs: seq<T>, extra: T)
    requires |xs| == c
    ensures EnqueueAll(New<T>(Some(c)), xs).result.Ok?
    ensures Enqueue(EnqueueAll(New<T>(Some(c)), xs).state, extra) ==
      Step(EnqueueAll(New<T>(Some(c)), xs).state, Err(Overflow))
    ensures DequeueN(EnqueueAll(New<T>(Some(c)), xs).state, c) == Step(New(Some(c)), Ok(xs))
    ensures Dequeue(DequeueN(EnqueueAll(New<T>(Some(c)), xs).state, c).state).result == Err(Underflow)
    ensures Peek(DequeueN(EnqueueAll(New<T>(Some(c)), xs).state, c).state) == Err(Underflow)
  {
    var empty := New<T>(Some(c));
    EnqueueAllAppends(empty, xs);
    assert [] + xs == xs;
    var full := EnqueueAll(empty, xs).state;
    assert full == Queue(xs, Some(c));
    FirstInFirstOut(empty, xs);
    assert DequeueN(full, c) == Step(empty, Ok(xs));
  }
}
