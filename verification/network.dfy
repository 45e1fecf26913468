/** Values shared by the commands: ICMP reply statuses, echo replies, the
    outcome of awaiting an asynchronous call, and the errors a command
    rethrows. */
module Network {

  /** The values of System.Net.NetworkInformation.IPStatus the commands
      tell apart. `OtherStatus` stands for every other value of that
      enumeration, by its numeric code; it never carries the code of
      Success, TtlExpired or TimedOut. */
  datatype IPStatus =
    | Success
    | TtlExpired
    | TimedOut
    | OtherStatus(code: int)

  /** An echo reply: the address of the node that answered (in its textual
      form), the round-trip time in milliseconds, and the status. */
  datatype PingReply = PingReply(address: string, roundtripTime: int, status: IPStatus)

  /** What awaiting an asynchronous call yields: its value, or the message
      of the exception it threw. */
  datatype Awaited<+T> = Returned(value: T) | Threw(message: string)

  /** The cause of a failed command. A command catches every exception and
      rethrows it as a command error with the same message, so the cause is
      kept as it was raised. */
  datatype Error =
    | Raised(message: string)   // an exception from a network call
    | NegativeArrayLength       // `new long[n]` with n < 0 (an overflow exception)
    | EmptySequence             // Min, Max or Average over no elements

  datatype Option<+T> = None | Some(value: T)

  /** A command's outcome: a value, or the error it surfaces. */
  datatype Result<+T> = Ok(value: T) | Failure(error: Error)
}
