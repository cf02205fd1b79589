/**
 * The shape of a handler's outcome: the status code the handler sends and
 * either the payload it reports or the message of its error response.
 */
module Http {

  datatype Reply<T> = Done(code: nat, value: T) | Refused(code: nat, message: string)

  /** An early-exit error: the status code and the message of the JSON body. */
  datatype Refusal = Refusal(code: nat, message: string)

  function Refuse<T>(e: Refusal): Reply<T> {
    Refused(e.code, e.message)
  }
}
