/** The few JavaScript runtime notions the simulation code relies on:
    object identity, `undefined`/`null`, and the exceptions it can throw. */
module Js {

  /** Identity of a JavaScript object (a component, a container, a timer, a shape). */
  type ObjRef = nat

  /** An absent (`undefined` or `null`) or present value. */
  datatype Option<+T> = None | Some(value: T)

  /** The exception classes raised by the modelled code. */
  datatype JsError = TypeError(message: string) | ReferenceError(identifier: string)

  /** How a call whose return value is not used completes. */
  datatype Outcome = Done | Threw(error: JsError)

  /** How a call that produces a value completes. */
  datatype Result<+T> = Ok(value: T) | Raised(error: JsError)
}
