/** Bytes and status codes (opdi_constants.h). */
module Constants {

  type byte = x: int | 0 <= x < 256

  datatype Status =
    | OK
    | DISCONNECTED
    | TIMEOUT
    | CANCELLED
    | ERROR_MALFORMED_MESSAGE
    | ERROR_CONVERSION
    | ERROR_MSGBUF_OVERFLOW
    | ERROR_DEST_OVERFLOW
    | ERROR_STRINGS_OVERFLOW
    | ERROR_PARTS_OVERFLOW
    | PROTOCOL_ERROR
    | PROTOCOL_NOT_SUPPORTED
    | ENCRYPTION_NOT_SUPPORTED
    | ENCRYPTION_REQUIRED
    | ENCRYPTION_ERROR
    | AUTH_NOT_SUPPORTED
    | AUTHENTICATION_EXPECTED
    | AUTHENTICATION_FAILED
    | DEVICE_ERROR
    | WRONG_PORT_TYPE
    | TOO_MANY_BINDINGS
    | NO_BINDING
    | CHANNEL_INVALID
    | NETWORK_ERROR
    | TERMINATOR_IN_PAYLOAD
    | MESSAGE_UNKNOWN

  const NUL: byte := 0
  const BLANK: byte := 32
  const SEPARATOR: byte := 58
  const TERMINATOR: byte := 10

  datatype Option<T> = None | Some(value: T)
}
