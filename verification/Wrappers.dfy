/** Option and Result values shared by every module of the model. */
module Wrappers {

  datatype Option<+T> = None | Some(value: T)

  /** The error classes of `src/error.rs` that the modelled code can return, and the
      places where the Rust code would panic instead of returning. */
  datatype Error =
    | Serialization          // truncated or malformed TL
    | UnexpectedResponse     // foreign constructor
    | Protocol               // protocol-level rejection
    | Crypto                 // a primitive refused its input
    | DhVerification         // Diffie-Hellman parameters out of range
    | NoAuthKey              // a handshake step ran too early
    | Network                // I/O failure
    | Transport              // timeouts and transport refusals
    | Rpc                    // `rpc_error` from the server
    | BadMessage(code: int)  // `bad_msg_notification`
    | Other
    | Panic                  // the Rust code panics here

  datatype Result<+T> = Ok(value: T) | Err(error: Error) {
    predicate IsFailure() { Err? }

    function PropagateFailure<U>(): Result<U>
      requires Err?
    {
      Err(error)
    }

    function Extract(): T
      requires Ok?
    {
      value
    }
  }
}
