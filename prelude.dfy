/** The few standard-library shapes the crate's signatures use:
    `Option`, `Result` and the three-way `Ordering` of `partial_cmp`. */
module Prelude {

  datatype Option<+T> = None | Some(value: T)

  datatype Result<+T, +E> = Ok(value: T) | Err(error: E)

  /** Outcome of a three-way comparison, as in `std::cmp::Ordering`. */
  datatype Ordering = Less | Equal | Greater
}
