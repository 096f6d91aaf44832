/** Small result types shared by the table models. */
module Wrappers {

  /** Rust's `Option`: a table, node or record that may be absent. */
  datatype Option<+T> = None | Some(value: T)

  /** One call of a Rust iterator's `next`: the iterator is exhausted (`None`), it yields an item,
      or the call panics (an index out of range, an `unwrap` of `None`, an integer underflow
      with overflow checks on, a failed `assert!`). */
  datatype Step<+T> = Done | Yield(item: T) | Panic

  /** A computation that produces a value or panics. */
  datatype Outcome<+T> = Value(value: T) | Panics
}
