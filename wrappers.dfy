/** The optional value shared by the models: `None` stands for the Rust code's
    "no result" (a failed parse, a panic that aborts the run). */
module Wrappers {
  datatype Option<+T> = None | Some(value: T)
}
