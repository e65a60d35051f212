/** Stored chat messages and their emoji reactions (src/models/chatScript.ts:12-25). */
module Messages {
  import opened Participants

  /** The free-form message body, kept opaque (its JSON text). */
  type Payload = string

  /** A posting time, kept opaque (milliseconds since the epoch). */
  type Timestamp = int

  /** One emoji reaction and the participant who left it. */
  datatype Reaction = Reaction(emoji: string, user: User)

  /** A persisted chat message; only the fields the hub reads are kept. */
  datatype Message = Message(msgId: string, sender: User, msg: Payload, reactions: seq<Reaction>, posted: Timestamp)

  /** Why a message event was refused: the credential did not verify, no
      stored message has the requested id, or saving the updated message
      failed the schema's validation. */
  datatype ChatError = InvalidToken | MessageNotFound | SaveRejected
}
