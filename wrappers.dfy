/** Failure-carrying results shared by every module of the model.
    The source reports failures by throwing; each throw becomes an `Err`/`Fail`
    value whose `Error` names the exception class that was thrown. */
module Wrappers {

  datatype Option<T> = None | Some(value: T)

  /** The exception classes the modelled code throws. */
  datatype Error =
    | InvalidInput(msg: string)   // netket::InvalidInputError
    | OutOfRange(msg: string)     // std::out_of_range from std::map::at / json::at
    | TypeError(msg: string)      // nlohmann::json type_error from json::get

  datatype Result<T> = Ok(value: T) | Err(error: Error)

  datatype Outcome = Pass | Fail(error: Error)
}
