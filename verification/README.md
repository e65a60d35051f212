# Chat hub core: admission, presence, history and reactions

This project models the sequential core of a socket.io chat hub. Clients join a
room with a signed credential. The hub checks per-role occupancy against the
room's stored `capacity` and `in_session` counters. It keeps an in-memory
registry of connected participants per room and a bounded per-room history of
recent messages. It also reconciles emoji reactions on stored messages.

The model is written as pure functions over immutable values:

- `OrderedMap`: a JavaScript `Map<string, V>` as an insertion-ordered sequence
  of entries. It is used for each room's socket-to-participant registry and for
  the `connectedUsers` object, whose `Object.keys` order decides which room a
  disconnect searches first.
- `Participants`, `Messages`: the participant record, the decoded join claims,
  the stored message and its reactions.
- `Occupancy`: the four role counters, how a role string picks the counter that
  is checked and the counter that moves, admission, release and the bot-join
  condition.
- `Rooms`: one room's registry, the agreement between counters and registry,
  and the departure step as written and as corrected.
- `History`: the bounded history buffer (append with a single shift; replace
  the first entry with a message id).
- `Reactions`: the reaction update as written (`ReactLiteral`), with line 35
  comparing instead of assigning (`ReactFixed`), and as a one-reaction-per-user
  toggle (`ReactByUser`), which the emoji-rewriting branch at line 41 and the
  system's intended one-reaction-per-user rule presuppose. The handler's
  comments describe yet another layout, a per-emoji list of users toggled per
  (emoji, user) pair, which is not modelled.
- `ChatHub`: the `user_joining`, `disconnect`, `reconnect` and `message`
  handlers as transitions of a hub state (stored room documents, `connectedUsers`,
  `chatHistory`).
- `Scenarios`: concrete end-to-end runs.

The hub transitions follow the code as written, including its quirks:

- A missing role joins as `viewer`.
- A role outside viewer/agent/user/bot skips the capacity check but is counted
  as a viewer.
- Disconnect decrements the counter of the room's first registered participant
  and announces that participant. It does not floor the counter at zero.
- A reaction is found by emoji, and line 35 of the controller assigns instead of
  comparing.
- A socket that joins the same room again replaces its registry entry but is
  counted again.
- A reaction whose emoji is empty fails the message schema's validation, so the
  save throws and the event changes nothing.

The corrected members under "## Findings" stand beside the as-written ones. The
hub does not use them, so the hub's contracts describe what the code does.

Where the system's intended behaviour and the code disagree, the model follows
the code:

- The intended release floors a counter at zero. The code subtracts one
  unconditionally.
- The intended bot-join notification fires when bots are first needed. The code
  publishes on every admission of any role while the room takes bots and has
  none in session (`ChatHub.BotPublishIsLevelTriggered`).
- Reactions are intended to be matched by user. The code matches by emoji.
- A departure is intended to release the departing participant's role. The code
  releases the first registered participant's role.
- A missing room document on disconnect is intended to fail. The code still
  removes the registry entry and announces the user, and only skips the
  counter.

Conventions: a role claim of `""` stands for a missing or falsy role, and a user
id of `""` for a falsy id. Counters are unbounded integers. Timestamps and
message bodies are opaque.

## Model

| member | source | states |
|---|---|---|
| `OrderedMap.IndexOf` | src/server.ts:252-254 | the lookup behind `Map.has`/`get` finds the first entry with the key, and none when no entry has it |
| `OrderedMap.Set` | src/server.ts:110-115 | `Map.set` makes the key map to the value, leaves every other key's value alone, keeps an existing key's position, appends a new key last, and keeps keys unique |
| `OrderedMap.Delete` | src/server.ts:260 | `Map.delete` removes exactly one entry when the key is present; afterwards the key is absent, every other key keeps its value and uniqueness holds |
| `OrderedMap.ValuesSet` | src/server.ts:139 | the presence list (map values) gains a new participant at the end, or has an existing socket's participant replaced in place |
| `OrderedMap.ValuesDelete` | src/server.ts:257-260 | deleting a socket drops its participant from the value list and keeps the others in order |
| `Occupancy.EffectiveRole` | src/server.ts:46 | a missing role is handled as `viewer`; a present role is kept |
| `Occupancy.CheckedSlot` | src/server.ts:72-96 | exactly the four role names viewer/agent/user/bot have a capacity check, each against its own counter |
| `Occupancy.CountedSlot` | src/server.ts:117-133 | the counter that moves is the role's own for the four known roles and the viewers counter for any other role |
| `Occupancy.CountedSlotIgnoresDefault` | src/server.ts:117-133 | defaulting a missing role never changes which counter moves, and unknown roles count as viewers |
| `Occupancy.Admit` | src/server.ts:117-133 | an admission raises exactly the role's counter by one and leaves capacity and the other three counters unchanged |
| `Occupancy.Release` | src/server.ts:265-281 | a departure lowers exactly one counter by one, with no floor at zero, leaving the rest unchanged |
| `Occupancy.ReleaseUndoesAdmit` | src/server.ts:265-281 | releasing under the role just admitted restores the record, and the other way round |
| `Occupancy.HasRoomFor` | src/server.ts:72-96 | a viewer, agent, user or bot is admitted exactly while its own counter is below its capacity; any other role passes unchecked |
| `Occupancy.ShouldPublishBot` | src/server.ts:98 | the bot-join event is due exactly when the room takes bots and none is in session, and then the room has a free bot seat |
| `Occupancy.AdmitKnownRoleWithinCapacity` | src/server.ts:72-96 | for a known role, passing the capacity check keeps every counter between zero and its capacity |
| `Occupancy.UnknownRoleOverfillsViewers` | src/server.ts:72-96 | an unknown role passes the check in a full room and pushes the viewers counter past capacity |
| `Occupancy.HasRoomForCounted` | src/server.ts:72-96 | the corrected check passes exactly when the admission leaves the counter that moves within its capacity; it agrees with `HasRoomFor` on the four known roles and checks the viewers counter for any other role |
| `Occupancy.AdmitCountedWithinCapacity` | src/server.ts:117-133 | checking the counter that will move keeps every counter within capacity for every role and agrees with the original check on known roles |
| `Rooms.EnterKeepsConsistent` | src/server.ts:110-133 | registering a new socket and bumping its role's counter keeps every counter equal to the number of registered participants it counts |
| `Rooms.EnterFixed` | src/server.ts:110-133 | the corrected join seats one more participant for a new socket and no more for a socket already registered, keeping the capacities |
| `Rooms.EnterFixedKeepsConsistent` | src/server.ts:110-133 | the corrected join keeps counters and registry in agreement whether or not the socket was already registered |
| `Rooms.Depart` | src/server.ts:256-284 | disconnect removes exactly the departing socket, lowers the counter of the first registered participant's role, announces that participant, and skips the counter when the room document is missing |
| `Rooms.DepartFixed` | src/server.ts:256-287 | the corrected departure lowers the departing participant's own counter and announces that participant |
| `Rooms.DepartFixedKeepsConsistent` | src/server.ts:256-284 | the corrected departure keeps counters and registry in agreement |
| `Rooms.DepartAsWrittenBreaksConsistency` | src/server.ts:257-287 | with a viewer registered before an agent, the agent's departure lowers the viewers counter and announces the viewer; the viewer's later departure drives viewers to -1 |
| `Reactions.First` | src/controllers/chatController.ts:30 | `findIndex` returns the first reaction matching the key, or none when no reaction matches |
| `Reactions.ReactLiteral` | src/controllers/chatController.ts:29-49 | an absent emoji is appended with the user; a present emoji under a non-empty user id has its first reaction removed whoever owns it; under an empty id that reaction's user id becomes empty and the user's reaction is appended |
| `Reactions.ReactLiteralLength` | src/controllers/chatController.ts:32-49 | the reaction list shrinks by one exactly when the emoji is present and the user id is non-empty, and otherwise grows by one |
| `Reactions.ReactLiteralKeepsEmojis` | src/controllers/chatController.ts:35-42 | no emoji is ever rewritten: the emoji list loses the first occurrence of the emoji or gains it at the end |
| `Reactions.ReactLiteralKeepsOtherEmojis` | src/controllers/chatController.ts:30-49 | reactions with any other emoji are kept unchanged and in order |
| `Reactions.ReactLiteralTwiceRestores` | src/controllers/chatController.ts:30-49 | reacting twice with an unused emoji under a non-empty id restores the original list |
| `Reactions.ReactLiteralStorable` | src/controllers/chatController.ts:30-52 | from reactions that passed validation, the updated list fails the schema's required-emoji check exactly when the emoji is empty |
| `Reactions.UpdateMessageReactions` | src/controllers/chatController.ts:22-54 | a missing message fails with MessageNotFound; an updated list with an empty emoji makes the save fail (SaveRejected); otherwise only the message's reaction list changes |
| `Reactions.ReactLiteralRemovesOthersReaction` | src/controllers/chatController.ts:35-38 | a second user reacting with the first user's emoji deletes the first user's reaction |
| `Reactions.ReactFixed` | src/controllers/chatController.ts:30-49 | with line 35 comparing: the first reaction with the emoji is removed exactly when the reacting user left it, otherwise the user's reaction is appended |
| `Reactions.ReactFixedKeepsOthersReactions` | src/controllers/chatController.ts:35-45 | with line 35 comparing, every other user's reactions stay unchanged and in order |
| `Reactions.ReactLiteralAgreesWithFixed` | src/controllers/chatController.ts:35-38 | as written and corrected agree whenever the emoji is absent, whatever the user id, and when its first reaction is the reacting user's under a non-empty id |
| `Reactions.ReactFixedTwiceDuplicates` | src/controllers/chatController.ts:30-45 | matching by emoji is no per-user toggle: behind another user's reaction, reacting twice leaves two of the user's reactions |
| `Reactions.ReactByUser` | src/controllers/chatController.ts:33-45 | the per-user toggle appends when the user has no reaction, removes the user's reaction on the same emoji, and switches its emoji otherwise |
| `Reactions.ReactByUserKeepsOnePerUser` | src/controllers/chatController.ts:33-45 | the per-user toggle keeps at most one reaction per user |
| `Reactions.ReactByUserKeepsOthersReactions` | src/controllers/chatController.ts:33-45 | the per-user toggle leaves other users' reactions unchanged and in order |
| `Reactions.ReactByUserToggles` | src/controllers/chatController.ts:33-45 | under the per-user toggle the same emoji twice restores the list, and emoji A then B leaves exactly one reaction, carrying B |
| `History.ChatEntry` | src/server.ts:164-169 | a chat message's entry carries its id, sender, body and time, and no reaction list |
| `History.EntryOf` | src/server.ts:182 | a reaction update's entry is the chat entry of the same message, now carrying its reaction list |
| `History.Append` | src/server.ts:205-211 | the entry goes to the tail and at most the single oldest entry is shifted off; a buffer within its limit stays within it |
| `History.ReplayKeepsNewest` | src/server.ts:204-211 | a buffer starting within its limit always holds exactly the newest `limit` entries seen, in arrival order |
| `History.FindEntry` | src/server.ts:179 | finds the first history entry with the message id, or none |
| `History.Replace` | src/server.ts:179-183 | only the first entry with the id is overwritten, the length and all other entries are unchanged, and no match means no change |
| `History.ReplaceIdempotent` | src/server.ts:179-183 | a replacement that keeps the id leaves the entry in place, so repeating it changes nothing more |
| `ChatHub.Join` | src/server.ts:40-148 | rejections (bad credential, missing room, full role) change nothing and publish nothing; an admission raises exactly one counter, publishes iff the room takes bots and has none, registers socket to user, returns the history snapshot and the presence list, and leaves other rooms alone |
| `ChatHub.JoinPresenceOrder` | src/server.ts:110-139 | the presence list is the registry in registration order: a new socket comes last, and a re-joining socket keeps its place |
| `ChatHub.JoinKeepsValid` | src/server.ts:110-115 | joins keep room ids and per-room socket ids unique |
| `ChatHub.JoinKeepsConsistent` | src/server.ts:110-135 | admitting a socket not yet in the room keeps every stored counter equal to its registry count |
| `ChatHub.BotPublishIsLevelTriggered` | src/server.ts:98-105 | the bot-join publish fires iff bots are allowed and none is in session, whatever the role; a bot admission from a non-negative bots counter silences it, and other admissions leave it armed |
| `Occupancy.NegativeBotsMissPublish` | src/server.ts:98-133 | once the bots counter has been driven to -1, a bot's admission publishes no bot-join event and leaves the condition true, so the next admission of any role fires it while a bot is present |
| `ChatHub.FindRoomFor` | src/server.ts:252-254 | the room searched first in key order that holds the socket, or none when no room holds it |
| `ChatHub.Disconnect` | src/server.ts:249-291 | an unregistered socket changes nothing; otherwise the found room loses that socket's entry, the first registered participant's counter drops by one and that participant is announced, and nothing else changes |
| `ChatHub.DisconnectKeepsValid` | src/server.ts:252-260 | disconnects keep room ids and socket ids unique |
| `ChatHub.Reconnect` | src/server.ts:229-246 | a reconnect finds the first room still holding the socket, with the socket's participant, the room's history and presence list, and nothing for an unknown socket |
| `ChatHub.ReconnectAfterDisconnectFindsNothing` | src/server.ts:229-260 | after a socket in one room disconnects, a reconnect under its id finds nothing |
| `ChatHub.DisconnectLeavesLaterRoom` | src/server.ts:229-260 | a socket registered in two rooms is removed from the first only; the later room keeps its entry and a reconnect still finds a room |
| `ChatHub.SendChat` | src/server.ts:193-222 | a chat message appends its entry to the sender's room history under the limit and touches nothing else; a bad token changes nothing |
| `ChatHub.SendChatKeepsBound` | src/server.ts:205-211 | when every room's history is within the limit, it still is after a chat message |
| `ChatHub.SendReaction` | src/server.ts:171-192 | a bad token, a missing message or a rejected save changes nothing; otherwise the reconciled message overwrites the first history entry with its id in the sender's room, and other rooms are untouched |
| `ChatHub.EmptyEmojiChangesNothing` | src/server.ts:171-183 | from stored reactions that passed validation, a reaction event with an empty emoji fails with SaveRejected and leaves the hub as it was |
| `ChatHub.SendReactionKeepsLengths` | src/server.ts:179-183 | a reaction event never changes the length of any room's history |
| `Scenarios.OneSeatRoom` | src/server.ts:64-287 | in a one-viewer room A is admitted, B is refused with the hub untouched, A's disconnect frees the seat, and C is admitted alone |
| `Scenarios.JoinTwiceLeaksSeat` | src/server.ts:110-133 | in a two-seat room one socket joining twice as a viewer is registered once and counted twice; after its disconnect the registry is empty and one viewer seat stays taken |
| `Scenarios.ReactionToggleInHistory` | src/server.ts:171-186 | a reaction appended by V and then toggled off by V shows in, then leaves, the message's history entry |

## Left out

- socket.io transport: rooms, delivery and broadcast fan-out. Emitted payloads are returned instead of sent: `whoami` on join is `JoinOutcome.Admitted.user`; `show_latest_chat` and `show_connected_users` on join are its `snapshot` and `present`; `whoami`, `show_latest_chat`, `show_connected_users` and `user_rejoined` on reconnect are `Rejoined.user`, `snapshot` and `present`; `user_left` is `DisconnectStep.left` (`Departure.left` in `Rooms`); the reaction `message` broadcast is the `Success` value of `ReactionStep.outcome`; the `error` emits are the rejecting `JoinOutcome`s and `ChatError`s.
- The `show_topics`, `room_info` and `user_joined` emits on join, and the chat-message broadcast of a non-reaction message, are not modelled: they carry data from the chatbot document or echo the input.
- `jwt.verify` and the token-record lookup are inputs: a `Credential` for joins and an `Option<Claims>` for messages.
- Mongoose reads and writes: room documents are a map in the hub state, and the looked-up message is an argument. A failing `save`, which leaves the registry changed but the counter unsaved, is not modelled.
- The chatbot lookup and the processor name in the bot-join payload: only the publish decision is modelled.
- RabbitMQ publish and consume (`processMessage`, `src/subscribe.ts`): broker I/O with no logic of its own.
- Interleavings across `await` points: concurrency, outside a sequential model.
- `new Date()` timestamps and message bodies are opaque values.
- Parsing `CHAT_HISTORY`: the limit is a `nat` argument, so a NaN limit that never evicts is not modelled.
- JavaScript number width and `Number(...)` coercion: counters are unbounded integers.
- `undefined` and `""` are not told apart: both stand for a falsy role or user id.
- Console logging.
- ChatHub.JoinKeepsConsistent: holds only for a socket not yet in the room. A socket that joins the same room again is registered once but counted twice (see "## Findings" and `Scenarios.JoinTwiceLeaksSeat`).
- ChatHub.ReconnectAfterDisconnectFindsNothing: holds only for a socket registered in one room. A socket that joined two rooms is removed from the first room found, and the later room keeps its entry and its counter (`ChatHub.DisconnectLeavesLaterRoom`).
- Reactions.UpdateMessageReactions: the schema check is modelled only for the reaction emoji, which is the one `required` field of a reaction. Mongoose's choice of which subdocuments to revalidate is not modelled: every reaction in the updated list is checked.

## Findings

| source | as written | input that shows it | evidently intended | confidence | as-written member | corrected member |
|---|---|---|---|---|---|---|
| src/controllers/chatController.ts:35 | `=` assigns the reacting user's id to the matched reaction and tests that value, so any non-empty id removes the reaction | reactions `[{"+1", Ann}]`, Bo reacts `"+1"`: Ann's reaction is deleted | compare with `==`, so that only the reacting user's own reaction is removed | high, not executed | `Reactions.ReactLiteral` (`Reactions.ReactLiteralRemovesOthersReaction`) | `Reactions.ReactFixed` (`Reactions.ReactFixedKeepsOthersReactions`) |
| src/controllers/chatController.ts:30 | the reaction is looked up by emoji, which makes the emoji-switching branch at line 41 unreachable | with line 35 corrected, reactions `[{"+1", Ann}]`, Bo reacts `"+1"` twice: Bo ends with two reactions | look the reaction up by the reacting user, as the emoji-rewriting branch at line 41 and the intended one-reaction-per-user rule presuppose (the comments at lines 29 and 33 instead describe a per-emoji list of users) | medium, not executed | `Reactions.ReactFixed` (`Reactions.ReactFixedTwiceDuplicates`) | `Reactions.ReactByUser` (`Reactions.ReactByUserKeepsOnePerUser`) |
| src/server.ts:265 | the counter of `users[0]`, the room's first registered participant, is decremented, and `users[0]` is announced as having left | viewer on socket s1, then agent on s2; s2 disconnects: viewers drops and agents stays; then s1 leaves: viewers is -1. The same run with a bot first drives bots to -1, after which the next bot gets no bot-join event (`Occupancy.NegativeBotsMissPublish`) | decrement and announce the departing socket's participant | high, not executed | `Rooms.Depart` (`Rooms.DepartAsWrittenBreaksConsistency`) | `Rooms.DepartFixed` (`Rooms.DepartFixedKeepsConsistent`) |
| src/server.ts:115-133 | a join on a socket already in the room replaces its registry entry but raises the counter again | two viewer seats; socket s joins twice as a viewer, then disconnects: the registry is empty and viewers is 1 | a repeated join gives back the replaced participant's seat before taking the new one | medium, not executed | `ChatHub.Join` (`Scenarios.JoinTwiceLeaksSeat`) | `Rooms.EnterFixed` (`Rooms.EnterFixedKeepsConsistent`) |
| src/server.ts:72-96 | roles outside viewer/agent/user/bot skip every capacity check but are counted as viewers | viewers 1 of 1, a `"moderator"` joins: admitted, viewers becomes 2 | check the counter the role will be counted under | medium, not executed | `Occupancy.HasRoomFor` (`Occupancy.UnknownRoleOverfillsViewers`) | `Occupancy.HasRoomForCounted` (`Occupancy.AdmitCountedWithinCapacity`) |
