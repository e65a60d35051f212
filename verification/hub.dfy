/** The chat hub's event handlers as pure transitions over its state
    (src/server.ts:35-36, 40-148, 150-227, 229-291). */
module ChatHub {
  import opened Wrappers
  import opened Participants
  import opened Messages
  import opened Occupancy
  import opened Rooms
  import opened History
  import opened Reactions
  import OrderedMap

  /** What the hub reads and writes: the stored room documents by id, the
      in-memory `connectedUsers` object (room id to registry, keys in the
      order rooms were first joined) and the in-memory `chatHistory`. */
  datatype HubState = HubState(
    records: map<RoomId, RoomRecord>,
    connected: seq<(RoomId, Registry)>,
    history: map<RoomId, seq<HistoryEntry>>)

  /** The registry of `room`; a room nobody has joined has none. */
  function MembersOf(connected: seq<(RoomId, Registry)>, room: RoomId): Registry {
    OrderedMap.Get(connected, room).GetOr([])
  }

  /** `chatHistory[room] || []`. */
  function HistoryOf(h: HubState, room: RoomId): seq<HistoryEntry> {
    if room in h.history then h.history[room] else []
  }

  /** The stored document of `room`, if there is one. */
  function RecordOf(h: HubState, room: RoomId): Option<RoomRecord> {
    if room in h.records then Some(h.records[room]) else None
  }

  /** Room ids are unique, and so are the socket ids within each room. */
  ghost predicate Valid(h: HubState) {
    && OrderedMap.UniqueKeys(h.connected)
    && forall i :: 0 <= i < |h.connected| ==> OrderedMap.UniqueKeys(h.connected[i].1)
  }

  /** Every stored room's counters agree with its registry. */
  ghost predicate RecordsMatchRegistries(h: HubState) {
    forall room :: room in h.records ==> Consistent(h.records[room], MembersOf(h.connected, room))
  }

  // ---------------------------------------------------------------------
  // Join

  /** What the joining connection is told. `BadCredential` is the "Invalid
      or expired token" error, with the socket disconnected only when the
      token record is missing. */
  datatype JoinOutcome =
    | BadCredential(disconnect: bool)
    | RoomNotFound
    | RoomFull
    | Admitted(user: User, snapshot: seq<HistoryEntry>, present: seq<User>)

  /** The hub after a join, the outcome, and whether the bot-join event was
      published. */
  datatype JoinStep = JoinStep(hub: HubState, outcome: JoinOutcome, publishBot: bool)

  /** The `user_joining` handler. */
  function Join(h: HubState, socket: SocketId, cred: Credential): (r: JoinStep)
    ensures r.outcome.BadCredential? <==> cred.Malformed? || !cred.onRecord
    ensures r.outcome.BadCredential? ==> r.outcome.disconnect == cred.Verified?
    ensures r.outcome == RoomNotFound <==> cred.Verified? && cred.onRecord && cred.claims.room !in h.records
    ensures r.outcome == RoomFull <==>
      && cred.Verified? && cred.onRecord && cred.claims.room in h.records
      && !HasRoomFor(h.records[cred.claims.room], EffectiveRole(cred.claims.role))
    ensures !r.outcome.Admitted? ==> r.hub == h && !r.publishBot
    ensures r.outcome.Admitted? ==>
      cred.Verified? && cred.claims.room in h.records && cred.claims.room in r.hub.records
    ensures r.outcome.Admitted? ==>
      var c := cred.claims;
      var before := h.records[c.room];
      var after := r.hub.records[c.room];
      var slot := CountedSlot(EffectiveRole(c.role));
      && r.outcome.user == UserOf(c)
      && r.publishBot == ShouldPublishBot(before)
      && r.hub.records.Keys == h.records.Keys
      && after.capacity == before.capacity
      && after.inSession.Get(slot) == before.inSession.Get(slot) + 1
      && (forall s :: s != slot ==> after.inSession.Get(s) == before.inSession.Get(s))
      && (forall room :: room in h.records && room != c.room ==> r.hub.records[room] == h.records[room])
      && OrderedMap.Get(MembersOf(r.hub.connected, c.room), socket) == Some(UserOf(c))
      && (forall k :: k != socket ==>
            OrderedMap.Get(MembersOf(r.hub.connected, c.room), k) == OrderedMap.Get(MembersOf(h.connected, c.room), k))
      && (forall room :: room != c.room ==> OrderedMap.Get(r.hub.connected, room) == OrderedMap.Get(h.connected, room))
      && r.outcome.present == OrderedMap.Values(MembersOf(r.hub.connected, c.room))
      && r.outcome.snapshot == HistoryOf(h, c.room)
      && r.hub.history == h.history
  {
    match cred
    case Malformed => JoinStep(h, BadCredential(false), false)
    case Verified(c, onRecord) =>
      if !onRecord then JoinStep(h, BadCredential(true), false)
      else if c.room !in h.records then JoinStep(h, RoomNotFound, false)
      else
        var rec := h.records[c.room];
        var role := EffectiveRole(c.role);
        if !HasRoomFor(rec, role) then JoinStep(h, RoomFull, false)
        else
          var user := UserOf(c);
          var members := OrderedMap.Set(MembersOf(h.connected, c.room), socket, user);
          var connected := OrderedMap.Set(h.connected, c.room, members);
          var h' := HubState(h.records[c.room := Admit(rec, role)], connected, h.history);
          JoinStep(h', Admitted(user, HistoryOf(h, c.room), OrderedMap.Values(members)), ShouldPublishBot(rec))
  }

  /** The presence list sent to a joiner is the room's participants in
      registration order: a new socket comes last, and a socket that joins
      again keeps its place with the new identity. */
  lemma JoinPresenceOrder(h: HubState, socket: SocketId, cred: Credential)
    requires Join(h, socket, cred).outcome.Admitted?
    ensures var members := MembersOf(h.connected, cred.claims.room);
      var present := Join(h, socket, cred).outcome.present;
      if OrderedMap.HasKey(members, socket)
      then present == OrderedMap.Values(members)[OrderedMap.IndexOf(members, socket).value := UserOf(cred.claims)]
      else present == OrderedMap.Values(members) + [UserOf(cred.claims)]
  {
    OrderedMap.ValuesSet(MembersOf(h.connected, cred.claims.room), socket, UserOf(cred.claims));
  }

  /** Joins keep room ids and socket ids unique. */
  lemma JoinKeepsValid(h: HubState, socket: SocketId, cred: Credential)
    requires Valid(h)
    ensures Valid(Join(h, socket, cred).hub)
  {
    var r := Join(h, socket, cred);
    if r.outcome.Admitted? {
      var room := cred.claims.room;
      var members := OrderedMap.Set(MembersOf(h.connected, room), socket, UserOf(cred.claims));
      MembersOfIsEntry(h.connected, room);
      forall i | 0 <= i < |r.hub.connected| ensures OrderedMap.UniqueKeys(r.hub.connected[i].1) {
        if r.hub.connected[i].0 == room {
          OrderedMap.IndexOfIs(r.hub.connected, room, Some(i));
        } else {
          EntryIsMembersOf(r.hub.connected, i);
          EntryIsMembersOf(h.connected, OrderedMap.IndexOf(h.connected, r.hub.connected[i].0).value);
        }
      }
    }
  }

  /** In a valid hub each entry of `connected` is what `MembersOf` returns
      for its room. */
  lemma EntryIsMembersOf(connected: seq<(RoomId, Registry)>, i: nat)
    requires OrderedMap.UniqueKeys(connected)
    requires i < |connected|
    ensures MembersOf(connected, connected[i].0) == connected[i].1
    ensures OrderedMap.IndexOf(connected, connected[i].0) == Some(i)
  {
    OrderedMap.IndexOfIs(connected, connected[i].0, Some(i));
  }

  /** `MembersOf` returns an entry of `connected`, or the empty registry. */
  lemma MembersOfIsEntry(connected: seq<(RoomId, Registry)>, room: RoomId)
    ensures OrderedMap.HasKey(connected, room) ==>
      MembersOf(connected, room) == connected[OrderedMap.IndexOf(connected, room).value].1
    ensures !OrderedMap.HasKey(connected, room) ==> MembersOf(connected, room) == []
  {
  }

  /** An admission of a socket not yet in the room keeps every stored
      counter equal to the number of registered participants it counts. A
      socket that joins the same room again is not covered: it is counted
      a second time (`Scenarios.JoinTwiceLeaksSeat`). */
  lemma JoinKeepsConsistent(h: HubState, socket: SocketId, cred: Credential)
    requires RecordsMatchRegistries(h)
    requires Join(h, socket, cred).outcome.Admitted? ==> !OrderedMap.HasKey(MembersOf(h.connected, cred.claims.room), socket)
    ensures RecordsMatchRegistries(Join(h, socket, cred).hub)
  {
    var r := Join(h, socket, cred);
    if r.outcome.Admitted? {
      var c := cred.claims;
      var members := MembersOf(h.connected, c.room);
      EnterKeepsConsistent(h.records[c.room], members, socket, UserOf(c));
      assert MembersOf(r.hub.connected, c.room) == OrderedMap.Set(members, socket, UserOf(c));
      forall room | room in r.hub.records
        ensures Consistent(r.hub.records[room], MembersOf(r.hub.connected, room))
      {
        if room != c.room {
          assert MembersOf(r.hub.connected, room) == MembersOf(h.connected, room);
        }
      }
    }
  }

  /** The bot-join event is published on any admission while the room takes
      bots and has none in session, whatever the joining role; a bot's own
      admission from a non-negative count silences it, and any other role's
      admission leaves it armed. */
  lemma BotPublishIsLevelTriggered(h: HubState, socket: SocketId, cred: Credential)
    requires Join(h, socket, cred).outcome.Admitted?
    ensures var r := Join(h, socket, cred);
      var before := h.records[cred.claims.room];
      var after := r.hub.records[cred.claims.room];
      && (r.publishBot <==> before.capacity.bots > 0 && before.inSession.bots == 0)
      && (CountedSlot(EffectiveRole(cred.claims.role)) != Bots ==> ShouldPublishBot(after) == ShouldPublishBot(before))
      && (CountedSlot(EffectiveRole(cred.claims.role)) == Bots && before.inSession.bots >= 0 ==> !ShouldPublishBot(after))
  {
  }

  // ---------------------------------------------------------------------
  // Disconnect and reconnect

  /** `Object.keys(connectedUsers).find(room => connectedUsers[room].has(id))`:
      the position of the first room whose registry holds the socket. */
  function FindRoomFor(connected: seq<(RoomId, Registry)>, socket: SocketId): (r: Option<nat>)
    ensures r.Some? ==> r.value < |connected| && OrderedMap.HasKey(connected[r.value].1, socket)
    ensures r.Some? ==> forall j :: 0 <= j < r.value ==> !OrderedMap.HasKey(connected[j].1, socket)
    ensures r.None? ==> forall j :: 0 <= j < |connected| ==> !OrderedMap.HasKey(connected[j].1, socket)
    decreases |connected|
  {
    if |connected| == 0 then None
    else if OrderedMap.HasKey(connected[0].1, socket) then Some(0)
    else
      match FindRoomFor(connected[1..], socket)
      case None => None
      case Some(i) => Some(i + 1)
  }

  /** The hub after a disconnect, and the participant announced as having
      left, if any. */
  datatype DisconnectStep = DisconnectStep(hub: HubState, left: Option<User>)

  /** The `disconnect` handler as written: the first room holding the socket
      loses that socket's entry (the room's key stays, even when empty); the
      counter of the room's FIRST registered participant goes down by one
      with no floor, and that participant is announced. */
  function Disconnect(h: HubState, socket: SocketId): (r: DisconnectStep)
    ensures FindRoomFor(h.connected, socket).None? ==> r.hub == h && r.left.None?
    ensures FindRoomFor(h.connected, socket).Some? ==>
      var i := FindRoomFor(h.connected, socket).value;
      var room := h.connected[i].0;
      var reg := h.connected[i].1;
      && r.left == Some(reg[0].1)
      && |r.hub.connected| == |h.connected|
      && r.hub.connected[i] == (room, Depart(RecordOf(h, room), reg, socket).registry)
      && (forall j :: 0 <= j < |h.connected| && j != i ==> r.hub.connected[j] == h.connected[j])
      && r.hub.records.Keys == h.records.Keys
      && (room in h.records ==> r.hub.records[room] == Release(h.records[room], reg[0].1.role))
      && (forall other :: other in h.records && other != room ==> r.hub.records[other] == h.records[other])
      && r.hub.history == h.history
  {
    match FindRoomFor(h.connected, socket)
    case None => DisconnectStep(h, None)
    case Some(i) =>
      var (room, reg) := h.connected[i];
      var d := Depart(RecordOf(h, room), reg, socket);
      var records := if d.record.Some? then h.records[room := d.record.value] else h.records;
      DisconnectStep(HubState(records, h.connected[i := (room, d.registry)], h.history), Some(d.left))
  }

  /** Disconnects keep room ids and socket ids unique. */
  lemma DisconnectKeepsValid(h: HubState, socket: SocketId)
    requires Valid(h)
    ensures Valid(Disconnect(h, socket).hub)
  {
  }

  /** What a reconnecting socket is sent again. */
  datatype Rejoined = Rejoined(room: RoomId, user: User, snapshot: seq<HistoryEntry>, present: seq<User>)

  /** The `reconnect` handler's lookup: the first room still holding the
      socket, the socket's participant there, the room's history and its
      presence list. */
  function Reconnect(h: HubState, socket: SocketId): (r: Option<Rejoined>)
    ensures r.None? <==> FindRoomFor(h.connected, socket).None?
    ensures r.Some? ==>
      var i := FindRoomFor(h.connected, socket).value;
      && r.value.room == h.connected[i].0
      && OrderedMap.Get(h.connected[i].1, socket) == Some(r.value.user)
      && r.value.present == OrderedMap.Values(h.connected[i].1)
      && r.value.snapshot == HistoryOf(h, r.value.room)
  {
    match FindRoomFor(h.connected, socket)
    case None => None
    case Some(i) =>
      var (room, reg) := h.connected[i];
      Some(Rejoined(room, OrderedMap.Get(reg, socket).value, HistoryOf(h, room), OrderedMap.Values(reg)))
  }

  /** A socket registered in one room only is forgotten by its disconnect:
      a later reconnect under the same id finds nothing. */
  lemma ReconnectAfterDisconnectFindsNothing(h: HubState, socket: SocketId)
    requires Valid(h)
    requires forall i, j ::
      (0 <= i < j < |h.connected| && OrderedMap.HasKey(h.connected[i].1, socket)) ==> !OrderedMap.HasKey(h.connected[j].1, socket)
    ensures Reconnect(Disconnect(h, socket).hub, socket).None?
  {
    var h' := Disconnect(h, socket).hub;
    match FindRoomFor(h.connected, socket)
    case None =>
    case Some(i) =>
      forall j | 0 <= j < |h'.connected| ensures !OrderedMap.HasKey(h'.connected[j].1, socket) {
        if j > i {
          assert !OrderedMap.HasKey(h.connected[j].1, socket);
        }
      }
  }

  /** Only the first room holding a socket is cleaned up: a socket also
      registered in a later room stays there, keeps that room's counter,
      and a reconnect under the same id still finds a room. */
  lemma DisconnectLeavesLaterRoom(h: HubState, socket: SocketId, i: nat, j: nat)
    requires i < j < |h.connected|
    requires OrderedMap.HasKey(h.connected[i].1, socket)
    requires OrderedMap.HasKey(h.connected[j].1, socket)
    ensures Disconnect(h, socket).hub.connected[j] == h.connected[j]
    ensures Reconnect(Disconnect(h, socket).hub, socket).Some?
  {
    var k := FindRoomFor(h.connected, socket).value;
    assert k <= i;
    var h' := Disconnect(h, socket).hub;
    assert h'.connected[j] == h.connected[j];
  }

  // ---------------------------------------------------------------------
  // Messages

  /** A chat message: the sender's room history gets the entry appended
      (created empty first if the room has none) and shifted once past
      `limit`; everything else stays. An unverifiable token changes
      nothing. */
  function SendChat(h: HubState, claims: Option<Claims>, msgId: string, msg: Payload, posted: Timestamp, limit: nat): (r: Result<HubState, ChatError>)
    ensures claims.None? <==> r == Failure(InvalidToken)
    ensures claims.Some? ==>
      var room := claims.value.room;
      && r.Success?
      && r.value.history.Keys == h.history.Keys + {room}
      && r.value.history[room] == Append(HistoryOf(h, room), ChatEntry(msgId, UserOf(claims.value), msg, posted), limit)
      && (forall other :: other in h.history && other != room ==> r.value.history[other] == h.history[other])
      && r.value.records == h.records
      && r.value.connected == h.connected
  {
    match claims
    case None => Failure(InvalidToken)
    case Some(c) =>
      var entry := ChatEntry(msgId, UserOf(c), msg, posted);
      Success(h.(history := h.history[c.room := Append(HistoryOf(h, c.room), entry, limit)]))
  }

  /** A room whose history starts within `limit` never holds more than
      `limit` entries after a chat message. */
  lemma SendChatKeepsBound(h: HubState, claims: Option<Claims>, msgId: string, msg: Payload, posted: Timestamp, limit: nat)
    requires forall room :: room in h.history ==> |h.history[room]| <= limit
    ensures var r := SendChat(h, claims, msgId, msg, posted, limit);
      r.Success? ==> forall room :: room in r.value.history ==> |r.value.history[room]| <= limit
  {
    if claims.Some? {
      var c := claims.value;
      var h' := SendChat(h, claims, msgId, msg, posted, limit).value;
      assert |HistoryOf(h, c.room)| <= limit;
      forall room | room in h'.history ensures |h'.history[room]| <= limit {
        if room != c.room {
          assert h'.history[room] == h.history[room];
        }
      }
    }
  }

  /** The hub after a reaction event, and its outcome: on success, the
      updated message whose id, reactions and time the room is sent. */
  datatype ReactionStep = ReactionStep(hub: HubState, outcome: Result<Message, ChatError>)

  /** A reaction event: the looked-up message's reactions are reconciled,
      and the first history entry with the same id in the sender's room is
      overwritten with the updated message. A bad token, a missing message
      or a save the schema rejects fails and changes nothing; a room with no
      history, or no entry with that id, leaves the history as it is. */
  function SendReaction(h: HubState, claims: Option<Claims>, msgId: string, emoji: string, found: Option<Message>): (r: ReactionStep)
    ensures claims.None? ==> r.outcome == Failure(InvalidToken) && r.hub == h
    ensures claims.Some? ==> r.outcome == UpdateMessageReactions(found, emoji, UserOf(claims.value))
    ensures claims.Some? && found.None? ==> r.outcome == Failure(MessageNotFound) && r.hub == h
    ensures r.outcome.Failure? ==> r.hub == h
    ensures r.outcome.Success? ==>
      var room := claims.value.room;
      && claims.Some? && found.Some?
      && r.hub.records == h.records && r.hub.connected == h.connected
      && r.hub.history.Keys == h.history.Keys
      && (room in h.history ==> r.hub.history[room] == Replace(h.history[room], msgId, EntryOf(r.outcome.value)))
      && (forall other :: other in h.history && other != room ==> r.hub.history[other] == h.history[other])
  {
    match claims
    case None => ReactionStep(h, Failure(InvalidToken))
    case Some(c) =>
      match UpdateMessageReactions(found, emoji, UserOf(c))
      case Failure(e) => ReactionStep(h, Failure(e))
      case Success(m) =>
        if c.room in h.history then
          ReactionStep(h.(history := h.history[c.room := Replace(h.history[c.room], msgId, EntryOf(m))]), Success(m))
        else
          ReactionStep(h, Success(m))
  }

  /** From stored reactions that passed validation, a reaction event with an
      empty emoji is rejected on save and leaves the hub as it was. */
  lemma EmptyEmojiChangesNothing(h: HubState, claims: Claims, msgId: string, m: Message)
    requires Storable(m.reactions)
    ensures SendReaction(h, Some(claims), msgId, "", Some(m)) == ReactionStep(h, Failure(SaveRejected))
  {
  }

  /** A reaction event never grows or shrinks any room's history. */
  lemma SendReactionKeepsLengths(h: HubState, claims: Option<Claims>, msgId: string, emoji: string, found: Option<Message>)
    ensures var r := SendReaction(h, claims, msgId, emoji, found);
      forall room :: room in h.history ==> room in r.hub.history && |r.hub.history[room]| == |h.history[room]|
  {
    var r := SendReaction(h, claims, msgId, emoji, found);
    if r.outcome.Success? {
      var c := claims.value;
      forall room | room in h.history ensures |r.hub.history[room]| == |h.history[room]| {
        if room == c.room {
          assert r.hub.history[room] == Replace(h.history[room], msgId, EntryOf(r.outcome.value));
        }
      }
    }
  }
}
