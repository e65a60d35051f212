/** One room's live participants and how joins and departures move its
    occupancy counters (src/server.ts:110-133, 252-287). */
module Rooms {
  import opened Wrappers
  import opened Participants
  import opened Occupancy
  import OrderedMap

  /** The room's `connectedUsers` map: socket id to participant, in the
      order the sockets were first registered. */
  type Registry = seq<(SocketId, User)>

  /** How many of `us` are counted under `s`. */
  function CountRole(us: seq<User>, s: Slot): nat
  {
    if |us| == 0 then 0
    else (if CountedSlot(us[0].role) == s then 1 else 0) + CountRole(us[1..], s)
  }

  lemma {:induction false} CountRoleConcat(a: seq<User>, b: seq<User>, s: Slot)
    ensures CountRole(a + b, s) == CountRole(a, s) + CountRole(b, s)
  {
    if |a| == 0 {
      assert a + b == b;
    } else {
      assert (a + b)[1..] == a[1..] + b;
      CountRoleConcat(a[1..], b, s);
    }
  }

  lemma CountRoleOne(u: User)
    ensures forall s :: CountRole([u], s) == if CountedSlot(u.role) == s then 1 else 0
  {
    assert [u][1..] == [];
  }

  /** The in-memory registry and the stored counters agree: each counter
      equals the number of registered participants counted under it. */
  ghost predicate Consistent(rec: RoomRecord, reg: Registry) {
    forall s :: rec.inSession.Get(s) == CountRole(OrderedMap.Values(reg), s)
  }

  /** Registering a new socket and bumping the counter of its (defaulted)
      role keeps the registry and the counters in agreement. */
  lemma {:induction false} EnterKeepsConsistent(rec: RoomRecord, reg: Registry, socket: SocketId, user: User)
    requires Consistent(rec, reg)
    requires !OrderedMap.HasKey(reg, socket)
    ensures Consistent(Admit(rec, EffectiveRole(user.role)), OrderedMap.Set(reg, socket, user))
  {
    OrderedMap.ValuesSet(reg, socket, user);
    CountedSlotIgnoresDefault(user.role);
    forall s ensures CountRole(OrderedMap.Values(reg) + [user], s) == CountRole(OrderedMap.Values(reg), s) + (if CountedSlot(user.role) == s then 1 else 0) {
      CountRoleConcat(OrderedMap.Values(reg), [user], s);
    }
  }

  /** How many participants the counters hold in all. */
  function Seated(c: Counters): int {
    c.viewers + c.agents + c.users + c.bots
  }

  /** A join as evidently intended: a socket that is already registered
      gives back the seat of the participant it replaces before the new
      participant's seat is taken, so a repeated join seats nobody new. */
  function EnterFixed(rec: RoomRecord, reg: Registry, socket: SocketId, user: User): (r: RoomRecord)
    ensures r.capacity == rec.capacity
    ensures !OrderedMap.HasKey(reg, socket) ==> Seated(r.inSession) == Seated(rec.inSession) + 1
    ensures OrderedMap.HasKey(reg, socket) ==> Seated(r.inSession) == Seated(rec.inSession)
  {
    var admitted := EffectiveRole(user.role);
    match OrderedMap.Get(reg, socket)
    case None => Admit(rec, admitted)
    case Some(replaced) => Admit(Release(rec, replaced.role), admitted)
  }

  /** Counting around one participant in the middle of a list. */
  lemma CountRoleAround(pre: seq<User>, x: User, post: seq<User>, s: Slot)
    ensures CountRole(pre + [x] + post, s) == CountRole(pre, s) + (if CountedSlot(x.role) == s then 1 else 0) + CountRole(post, s)
  {
    CountRoleConcat(pre + [x], post, s);
    CountRoleConcat(pre, [x], s);
    CountRoleOne(x);
  }

  /** The corrected join keeps the registry and the counters in agreement
      whether or not the socket was already registered. */
  lemma {:induction false} EnterFixedKeepsConsistent(rec: RoomRecord, reg: Registry, socket: SocketId, user: User)
    requires Consistent(rec, reg)
    ensures Consistent(EnterFixed(rec, reg, socket, user), OrderedMap.Set(reg, socket, user))
  {
    if !OrderedMap.HasKey(reg, socket) {
      EnterKeepsConsistent(rec, reg, socket, user);
    } else {
      var i := OrderedMap.IndexOf(reg, socket).value;
      var vs := OrderedMap.Values(reg);
      var ws := OrderedMap.Values(OrderedMap.Set(reg, socket, user));
      var replaced := OrderedMap.Get(reg, socket).value;
      OrderedMap.ValuesSet(reg, socket, user);
      CountedSlotIgnoresDefault(user.role);
      assert vs[i] == replaced;
      assert vs == vs[..i] + [replaced] + vs[i + 1..];
      assert ws == vs[..i] + [user] + vs[i + 1..];
      var r := EnterFixed(rec, reg, socket, user);
      assert r == Admit(Release(rec, replaced.role), EffectiveRole(user.role));
      forall s ensures r.inSession.Get(s) == CountRole(ws, s) {
        CountRoleAround(vs[..i], replaced, vs[i + 1..], s);
        CountRoleAround(vs[..i], user, vs[i + 1..], s);
      }
    }
  }

  /** What a disconnect leaves behind in the room it was found in. */
  datatype Departure = Departure(record: Option<RoomRecord>, registry: Registry, left: User)

  /** Disconnect as written: the values are captured before the socket's
      entry is deleted, and both the counter that goes down and the user
      announced as having left come from the FIRST registered participant,
      whoever is departing. A missing room document skips the counter. */
  function Depart(rec: Option<RoomRecord>, reg: Registry, socket: SocketId): (r: Departure)
    requires OrderedMap.HasKey(reg, socket)
    ensures r.left == reg[0].1
    ensures OrderedMap.UniqueKeys(reg) ==> OrderedMap.UniqueKeys(r.registry) && !OrderedMap.HasKey(r.registry, socket)
    ensures |r.registry| == |reg| - 1
    ensures forall k :: k != socket && OrderedMap.UniqueKeys(reg) ==> OrderedMap.Get(r.registry, k) == OrderedMap.Get(reg, k)
    ensures r.record.Some? <==> rec.Some?
    ensures rec.Some? ==> r.record.value.capacity == rec.value.capacity
    ensures rec.Some? ==> r.record.value.inSession.Get(CountedSlot(reg[0].1.role)) == rec.value.inSession.Get(CountedSlot(reg[0].1.role)) - 1
    ensures rec.Some? ==> forall s :: s != CountedSlot(reg[0].1.role) ==> r.record.value.inSession.Get(s) == rec.value.inSession.Get(s)
  {
    var users := OrderedMap.Values(reg);
    var first := users[0];
    var reg' := OrderedMap.Delete(reg, socket);
    match rec
    case Some(room) => Departure(Some(Release(room, first.role)), reg', first)
    case None => Departure(None, reg', first)
  }

  /** Disconnect as evidently intended: the departing participant's own
      role goes down and that participant is announced. */
  function DepartFixed(rec: Option<RoomRecord>, reg: Registry, socket: SocketId): (r: Departure)
    requires OrderedMap.HasKey(reg, socket)
    ensures OrderedMap.Get(reg, socket) == Some(r.left)
    ensures OrderedMap.UniqueKeys(reg) ==> OrderedMap.UniqueKeys(r.registry) && !OrderedMap.HasKey(r.registry, socket)
    ensures |r.registry| == |reg| - 1
    ensures forall k :: k != socket && OrderedMap.UniqueKeys(reg) ==> OrderedMap.Get(r.registry, k) == OrderedMap.Get(reg, k)
    ensures r.record.Some? <==> rec.Some?
    ensures rec.Some? ==> r.record.value.capacity == rec.value.capacity
    ensures rec.Some? ==> r.record.value.inSession.Get(CountedSlot(r.left.role)) == rec.value.inSession.Get(CountedSlot(r.left.role)) - 1
    ensures rec.Some? ==> forall s :: s != CountedSlot(r.left.role) ==> r.record.value.inSession.Get(s) == rec.value.inSession.Get(s)
  {
    var leaving := OrderedMap.Get(reg, socket).value;
    var reg' := OrderedMap.Delete(reg, socket);
    match rec
    case Some(room) => Departure(Some(Release(room, leaving.role)), reg', leaving)
    case None => Departure(None, reg', leaving)
  }

  /** The corrected disconnect keeps the registry and the counters in
      agreement. */
  lemma {:induction false} DepartFixedKeepsConsistent(rec: RoomRecord, reg: Registry, socket: SocketId)
    requires Consistent(rec, reg)
    requires OrderedMap.UniqueKeys(reg)
    requires OrderedMap.HasKey(reg, socket)
    ensures var d := DepartFixed(Some(rec), reg, socket);
      d.record.Some? && Consistent(d.record.value, d.registry)
  {
    var d := DepartFixed(Some(rec), reg, socket);
    var i := OrderedMap.IndexOf(reg, socket).value;
    var vs := OrderedMap.Values(reg);
    OrderedMap.ValuesDelete(reg, socket);
    assert vs == vs[..i] + [vs[i]] + vs[i + 1..];
    assert d.left == vs[i];
    forall s ensures d.record.value.inSession.Get(s) == CountRole(OrderedMap.Values(d.registry), s) {
      CountRoleConcat(vs[..i] + [vs[i]], vs[i + 1..], s);
      CountRoleConcat(vs[..i], [vs[i]], s);
      CountRoleConcat(vs[..i], vs[i + 1..], s);
    }
  }

  /** As written, a room with a viewer registered before an agent is
      consistent, yet after the agent disconnects the viewers counter drops,
      the viewer is announced as having left, and once the viewer leaves too
      the viewers counter is negative while the agents counter never moved. */
  lemma DepartAsWrittenBreaksConsistency()
    ensures var viewer := User("u1", "Ann", "viewer", None);
      var agent := User("u2", "Bo", "agent", None);
      var reg: Registry := [("s1", viewer), ("s2", agent)];
      var rec := RoomRecord(Counters(5, 5, 5, 5), Counters(1, 1, 0, 0));
      var d := Depart(Some(rec), reg, "s2");
      var d2 := Depart(d.record, d.registry, "s1");
      && Consistent(rec, reg)
      && d.left == viewer
      && d.record.Some? && !Consistent(d.record.value, d.registry)
      && d2.record.Some? && d2.record.value.inSession.viewers == -1
      && d2.record.value.inSession.agents == 1
      && d2.registry == []
  {
    var viewer := User("u1", "Ann", "viewer", None);
    var agent := User("u2", "Bo", "agent", None);
    var reg: Registry := [("s1", viewer), ("s2", agent)];
    var rec := RoomRecord(Counters(5, 5, 5, 5), Counters(1, 1, 0, 0));
    assert OrderedMap.IndexOf(reg, "s2") == Some(1);
    assert OrderedMap.Values(reg) == [viewer] + [agent];
    CountRoleOne(viewer);
    CountRoleOne(agent);
    forall s ensures CountRole([viewer] + [agent], s) == CountRole([viewer], s) + CountRole([agent], s) {
      CountRoleConcat([viewer], [agent], s);
    }
    var d := Depart(Some(rec), reg, "s2");
    assert d.registry == [("s1", viewer)];
    assert OrderedMap.Values(d.registry) == [viewer];
    assert d.record.value.inSession.viewers == 0;
    assert OrderedMap.IndexOf(d.registry, "s1") == Some(0);
    var d2 := Depart(d.record, d.registry, "s1");
    assert d2.registry == [];
  }
}
