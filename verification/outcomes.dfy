/** Result types shared by the table model. */
module Outcomes {

  /** A value that may be absent: what `ht_search` reports with a string or `NULL`. */
  datatype Option<+T> = None | Some(value: T)

  /** The result of an operation whose probe loop may never exit. `Diverges` stands for
      a C loop that runs forever because no slot on the probe path can stop it. */
  datatype Outcome<+T> = Done(value: T) | Diverges
}
