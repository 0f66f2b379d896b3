/**
  The messages exchanged between the chat server and its clients.

  Inbound frames are JSON objects on the wire; the model keeps only the keys the
  server reads, each optional as `dict.get` makes it. Outbound messages are the
  three shapes the server produces.
 */
module Wire {

  datatype Option<T> = None | Some(value: T) {
    /** The value, or `default` when the key was absent. */
    function GetOr(default: T): T {
      match this
      case Some(v) => v
      case None => default
    }
  }

  /** The keys of an inbound JSON object that the server looks at. */
  datatype Inbound = Inbound(
    kind: Option<string>,      // "type"
    username: Option<string>,
    password: Option<string>,
    message: Option<string>)

  /**
    One inbound text frame. `Malformed` stands for anything the handler raises on
    before dispatch: text that is not JSON, or JSON that is not an object.
   */
  datatype Frame = Malformed | Object(fields: Inbound)

  /** Messages the server sends: `{type: system|chat|heartbeat_ack, ...}`. */
  datatype Outbound =
    | System(message: string)
    | Chat(from: string, message: string)
    | HeartbeatAck(message: string)

  /** Identity of one accepted connection (the websocket object). */
  type ConnId = nat

  /** One `send` on a connection. */
  datatype Send = Send(to: ConnId, payload: Outbound)

  const AUTH_FAILED := "Authentication failed."
  const TOO_FAST := "You are sending messages too quickly. Please wait."
  const PONG := "pong"

  function JoinNotice(username: string): string {
    username + " joined the chat."
  }

  function LeaveNotice(username: string): string {
    username + " left the chat."
  }
}
