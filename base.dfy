/** Shared vocabulary: optional values, results, identifiers and the persisted
    message record that the server stores and relays. */
module Base {

  datatype Option<T> = None | Some(value: T)

  datatype Result<T, E> = Ok(value: T) | Err(error: E)

  /** User ids are the string form of the database ids; socket ids are the
      transport's connection ids. */
  type UserId = string
  type SocketId = string

  /** The database id of a message, abstracted to a number the store hands out. */
  type MessageId = nat

  /** A stored message: its id, both parties, its text and the time the server
      stored it (the socket path never uses a client-supplied time). */
  datatype Message = Message(id: MessageId, senderId: UserId, receiverId: UserId, text: string, timestamp: int)

  /** No two stored messages share an id. */
  predicate UniqueMessageIds(ms: seq<Message>) {
    forall i, j :: 0 <= i < j < |ms| ==> ms[i].id != ms[j].id
  }

  /** The message went from `a` to `b` or from `b` to `a`. */
  predicate Between(m: Message, a: UserId, b: UserId) {
    (m.senderId == a && m.receiverId == b) || (m.senderId == b && m.receiverId == a)
  }
}
