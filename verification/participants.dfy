/** Identities of the chat hub: who is connected, and what a decoded join
    credential says about them (src/server.ts:26-31, 43-53). */
module Participants {
  import opened Wrappers

  /** A socket.io connection id. */
  type SocketId = string

  /** A chat room's document id. */
  type RoomId = string

  /** A connected participant. `role` is the claim exactly as decoded, so it
      may be empty (a missing or falsy role); `userId` is empty when the
      credential carried no `user_ref`. */
  datatype User = User(userId: string, name: string, role: string, photo: Option<string>)

  /** The claim set of a verified credential. */
  datatype Claims = Claims(room: RoomId, userRef: string, name: string, role: string, photo: Option<string>)

  /** What decoding a join credential produced: either the signature check
      threw, or it yielded claims whose token id is or is not on record. */
  datatype Credential =
    | Malformed
    | Verified(claims: Claims, onRecord: bool)

  /** The participant record built from the claims; its role is the raw
      claim, not the defaulted one used for the capacity check. */
  function UserOf(c: Claims): User {
    User(c.userRef, c.name, c.role, c.photo)
  }
}
