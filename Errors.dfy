/**
 * The failures the client reports. Each exception class of the client is a
 * variant; the message strings of the exceptions are reduced to the cause
 * they name.
 */
module Errors {

  /** Why a payload was refused (the two message constants of InvalidPayloadCsmcrcException). */
  datatype PayloadProblem = NotAscii | TooLong

  /** Why the client could not connect: init called while logged in, or a socket failure. */
  datatype ConnectProblem = AlreadyConnected | SocketError

  datatype Error =
    | InvalidPayload(payload: PayloadProblem)
    | InvalidPacket
    | UnableToConnect(connect: ConnectProblem)
    | NotConnected

  datatype Result<+T> = Success(value: T) | Failure(error: Error)
}
