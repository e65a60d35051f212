/** Per-role occupancy of a chat room: the `capacity` and `in_session`
    counters of the stored room document, and how a role string selects a
    counter (src/server.ts:46, 72-133, 265-281). */
module Occupancy {
  import opened Wrappers

  /** The four counters a room document keeps. */
  datatype Slot = Viewers | Agents | Users | Bots

  /** One value per counter. The stored numbers are plain integers here. */
  datatype Counters = Counters(viewers: int, agents: int, users: int, bots: int) {

    function Get(s: Slot): int {
      match s
      case Viewers => viewers
      case Agents => agents
      case Users => users
      case Bots => bots
    }

    /** Add `d` to one counter and leave the other three alone. */
    function Add(s: Slot, d: int): (c: Counters)
      ensures c.Get(s) == Get(s) + d
      ensures forall t :: t != s ==> c.Get(t) == Get(t)
    {
      match s
      case Viewers => this.(viewers := viewers + d)
      case Agents => this.(agents := agents + d)
      case Users => this.(users := users + d)
      case Bots => this.(bots := bots + d)
    }
  }

  /** The occupancy part of a stored chat room document. */
  datatype RoomRecord = RoomRecord(capacity: Counters, inSession: Counters)

  /** The role a join is handled under: a missing (falsy) role claim means
      `viewer`. */
  function EffectiveRole(claimed: string): (role: string)
    ensures role != ""
    ensures claimed != "" ==> role == claimed
    ensures claimed == "" ==> role == "viewer"
  {
    if claimed == "" then "viewer" else claimed
  }

  /** The counter whose capacity the join handler checks; the four `if`
      blocks know only these four role names. */
  function CheckedSlot(role: string): (s: Option<Slot>)
    ensures s == Some(Viewers) <==> role == "viewer"
    ensures s == Some(Agents) <==> role == "agent"
    ensures s == Some(Users) <==> role == "user"
    ensures s == Some(Bots) <==> role == "bot"
  {
    if role == "viewer" then Some(Viewers)
    else if role == "agent" then Some(Agents)
    else if role == "user" then Some(Users)
    else if role == "bot" then Some(Bots)
    else None
  }

  /** The counter the join and disconnect `switch`es adjust; their
      `default` arm is the viewers counter. */
  function CountedSlot(role: string): (s: Slot)
    ensures CheckedSlot(role).Some? ==> s == CheckedSlot(role).value
    ensures CheckedSlot(role).None? ==> s == Viewers
  {
    if role == "bot" then Bots
    else if role == "agent" then Agents
    else if role == "user" then Users
    else Viewers
  }

  /** A missing role and an unknown role are both counted as viewers, so
      defaulting the role never changes which counter moves. */
  lemma CountedSlotIgnoresDefault(claimed: string)
    ensures CountedSlot(EffectiveRole(claimed)) == CountedSlot(claimed)
    ensures CheckedSlot(claimed).None? ==> CountedSlot(claimed) == Viewers
  {
  }

  /** The capacity test of the join handler: a known role is admitted while
      its counter is below its capacity; any other role is not checked. */
  function HasRoomFor(rec: RoomRecord, role: string): (b: bool)
    ensures role == "viewer" ==> (b <==> rec.inSession.viewers < rec.capacity.viewers)
    ensures role == "agent" ==> (b <==> rec.inSession.agents < rec.capacity.agents)
    ensures role == "user" ==> (b <==> rec.inSession.users < rec.capacity.users)
    ensures role == "bot" ==> (b <==> rec.inSession.bots < rec.capacity.bots)
    ensures role != "viewer" && role != "agent" && role != "user" && role != "bot" ==> b
  {
    match CheckedSlot(role)
    case None => true
    case Some(s) => rec.inSession.Get(s) < rec.capacity.Get(s)
  }

  /** The bot-join publish condition, read before the counter moves: the
      room takes bots and none is in session. It does not look at the
      joining role. */
  function ShouldPublishBot(rec: RoomRecord): (b: bool)
    ensures b <==> rec.capacity.Get(Bots) > 0 && rec.inSession.Get(Bots) == 0
    ensures b ==> HasRoomFor(rec, "bot")
  {
    rec.capacity.bots > 0 && rec.inSession.bots == 0
  }

  /** An admission: the counter of `role` goes up by one. */
  function Admit(rec: RoomRecord, role: string): (r: RoomRecord)
    ensures r.capacity == rec.capacity
    ensures r.inSession.Get(CountedSlot(role)) == rec.inSession.Get(CountedSlot(role)) + 1
    ensures forall s :: s != CountedSlot(role) ==> r.inSession.Get(s) == rec.inSession.Get(s)
  {
    rec.(inSession := rec.inSession.Add(CountedSlot(role), 1))
  }

  /** A departure: the counter of `role` goes down by one, with no floor at
      zero. */
  function Release(rec: RoomRecord, role: string): (r: RoomRecord)
    ensures r.capacity == rec.capacity
    ensures r.inSession.Get(CountedSlot(role)) == rec.inSession.Get(CountedSlot(role)) - 1
    ensures forall s :: s != CountedSlot(role) ==> r.inSession.Get(s) == rec.inSession.Get(s)
  {
    rec.(inSession := rec.inSession.Add(CountedSlot(role), -1))
  }

  /** Admission and departure under the same role cancel out. */
  lemma ReleaseUndoesAdmit(rec: RoomRecord, role: string)
    ensures Release(Admit(rec, role), role) == rec
    ensures Admit(Release(rec, role), role) == rec
  {
    var a := Release(Admit(rec, role), role).inSession;
    var b := Admit(Release(rec, role), role).inSession;
    assert forall t :: a.Get(t) == rec.inSession.Get(t) && b.Get(t) == rec.inSession.Get(t);
  }

  /** With the bots counter at -1, which departures as written can reach, a
      bot's admission publishes nothing and leaves the publish condition
      true with one bot present, so the next admission of any role fires it. */
  lemma NegativeBotsMissPublish()
    ensures var rec := RoomRecord(Counters(1, 1, 1, 1), Counters(0, 0, 0, -1));
      var after := Admit(rec, "bot");
      && !ShouldPublishBot(rec)
      && HasRoomFor(rec, "bot")
      && after.inSession.bots == 0
      && ShouldPublishBot(after)
  {
  }

  /** Every counter is between zero and its capacity. */
  ghost predicate WithinCapacity(rec: RoomRecord) {
    forall s :: 0 <= rec.inSession.Get(s) <= rec.capacity.Get(s)
  }

  /** A join that passes the capacity test under one of the four known roles
      keeps every counter within its capacity. */
  lemma AdmitKnownRoleWithinCapacity(rec: RoomRecord, role: string)
    requires WithinCapacity(rec)
    requires CheckedSlot(role).Some?
    requires HasRoomFor(rec, role)
    ensures WithinCapacity(Admit(rec, role))
  {
  }

  /** An unknown role passes the capacity test even in a full room and is
      then counted as a viewer, pushing the viewers counter past capacity. */
  lemma UnknownRoleOverfillsViewers()
    ensures var rec := RoomRecord(Counters(1, 1, 1, 1), Counters(1, 0, 0, 0));
      && WithinCapacity(rec)
      && HasRoomFor(rec, "moderator")
      && Admit(rec, "moderator").inSession.viewers > rec.capacity.viewers
  {
    var rec := RoomRecord(Counters(1, 1, 1, 1), Counters(1, 0, 0, 0));
    assert CheckedSlot("moderator") == None;
  }

  /** The capacity test checked against the counter that will actually be
      incremented: it passes exactly when the admission leaves that counter
      within its capacity. It agrees with `HasRoomFor` on the four known
      roles and tests the viewers counter for every other role. */
  function HasRoomForCounted(rec: RoomRecord, role: string): (b: bool)
    ensures b <==> Admit(rec, role).inSession.Get(CountedSlot(role)) <= rec.capacity.Get(CountedSlot(role))
    ensures CheckedSlot(role).Some? ==> (b <==> HasRoomFor(rec, role))
    ensures CheckedSlot(role).None? ==> (b <==> rec.inSession.viewers < rec.capacity.viewers)
  {
    rec.inSession.Get(CountedSlot(role)) < rec.capacity.Get(CountedSlot(role))
  }

  /** With the test on the incremented counter, every admission keeps every
      counter within its capacity, whatever the role; on known roles the two
      tests agree. */
  lemma AdmitCountedWithinCapacity(rec: RoomRecord, role: string)
    requires WithinCapacity(rec)
    requires HasRoomForCounted(rec, role)
    ensures WithinCapacity(Admit(rec, role))
    ensures CheckedSlot(role).Some? ==> HasRoomFor(rec, role)
  {
  }
}
