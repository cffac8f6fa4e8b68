/** The capacity shared by the stack and the queue. JavaScript's default
    capacity `Infinity` is modelled as `None`. */
module Bounded {
  import opened Wrappers

  type Capacity = Option<nat>

  /** The capacity test both containers perform before inserting: the size
      is compared with `===`, so it fires only when the size equals the bound. */
  predicate AtCapacity(size: nat, capacity: Capacity) {
    capacity == Some(size)
  }

  /** The container invariant: the size never exceeds a finite capacity. */
  predicate Within(size: nat, capacity: Capacity) {
    capacity.None? || size <= capacity.value
  }

  /** Room for `n` more elements. */
  predicate HasRoom(size: nat, n: nat, capacity: Capacity) {
    capacity.None? || size + n <= capacity.value
  }
}
