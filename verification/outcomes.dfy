/** Failure-carrying wrappers shared by every module of the model.
    `None` stands for a pandas/NumPy "missing" value (NaN, a failed
    dictionary `.get`), `Err` for a Python exception the scripts would raise. */
module Outcomes {

  datatype Option<+T> = None | Some(value: T)

  datatype Result<+T, +E> = Ok(value: T) | Err(error: E)
}
