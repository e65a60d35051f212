/** End-to-end runs of the hub's handlers on concrete rooms. */
module Scenarios {
  import opened Wrappers
  import opened Participants
  import opened Messages
  import opened Occupancy
  import opened Rooms
  import opened History
  import opened Reactions
  import opened ChatHub
  import OrderedMap

  function Seat(occupied: int): RoomRecord {
    RoomRecord(Counters(1, 0, 0, 0), Counters(occupied, 0, 0, 0))
  }

  function Viewer(name: string): Credential {
    Verified(Claims("r1", "u" + name, name, "viewer", None), true)
  }

  /** The hub with A seated. */
  function WithA(): HubState {
    HubState(map["r1" := Seat(1)], [("r1", [("sa", UserOf(Viewer("A").claims))])], map[])
  }

  /** The hub after A left: the room's registry is empty but still there. */
  function AfterA(): HubState {
    HubState(map["r1" := Seat(0)], [("r1", [])], map[])
  }

  lemma SeatA()
    ensures Join(HubState(map["r1" := Seat(0)], [], map[]), "sa", Viewer("A")) ==
      JoinStep(WithA(), Admitted(UserOf(Viewer("A").claims), [], [UserOf(Viewer("A").claims)]), false)
  {
    var h := HubState(map["r1" := Seat(0)], [], map[]);
    assert MembersOf(h.connected, "r1") == [];
    assert Admit(Seat(0), "viewer") == Seat(1);
  }

  lemma RefuseB()
    ensures Join(WithA(), "sb", Viewer("B")) == JoinStep(WithA(), RoomFull, false)
  {
  }

  lemma UnseatA()
    ensures Disconnect(WithA(), "sa") == DisconnectStep(AfterA(), Some(UserOf(Viewer("A").claims)))
  {
    var reg := [("sa", UserOf(Viewer("A").claims))];
    assert OrderedMap.HasKey(reg, "sa");
    assert FindRoomFor(WithA().connected, "sa") == Some(0);
    assert Release(Seat(1), "viewer") == Seat(0);
  }

  lemma SeatC()
    ensures var j := Join(AfterA(), "sc", Viewer("C"));
      j.outcome == Admitted(UserOf(Viewer("C").claims), [], [UserOf(Viewer("C").claims)])
  {
    assert OrderedMap.IndexOf(AfterA().connected, "r1") == Some(0);
    assert MembersOf(AfterA().connected, "r1") == [];
  }

  /** A room with one viewer seat: A is admitted, B is refused as full and
      the hub is untouched, A disconnects and the seat is free again, and C
      is admitted as the only participant present. */
  lemma {:induction false} OneSeatRoom()
    ensures var h0 := HubState(map["r1" := Seat(0)], [], map[]);
      var j1 := Join(h0, "sa", Viewer("A"));
      var j2 := Join(j1.hub, "sb", Viewer("B"));
      var d := Disconnect(j2.hub, "sa");
      var j3 := Join(d.hub, "sc", Viewer("C"));
      && j1.outcome.Admitted?
      && j2.outcome == RoomFull && j2.hub == j1.hub
      && d.left == Some(UserOf(Viewer("A").claims))
      && d.hub.records["r1"] == Seat(0)
      && j3.outcome.Admitted?
      && j3.outcome.present == [UserOf(Viewer("C").claims)]
  {
    SeatA();
    RefuseB();
    UnseatA();
    SeatC();
  }

  /** A message by U; V reacts with an emoji twice. The history entry ends
      with an empty reaction list, and in between it shows V's reaction. */
  lemma ReactionToggleInHistory()
    ensures var u := User("u", "U", "user", None);
      var v := User("v", "V", "user", None);
      var claims := Some(Claims("r1", "v", "V", "user", None));
      var m1 := Message("m1", u, "hello", [], 7);
      var h0 := HubState(map[], [], map["r1" := [ChatEntry("m1", u, "hello", 7)]]);
      var s1 := SendReaction(h0, claims, "m1", "+1", Some(m1));
      var s2 := SendReaction(s1.hub, claims, "m1", "+1", Some(s1.outcome.value));
      && s1.outcome.Success?
      && s1.hub.history["r1"] == [HistoryEntry("m1", u, "hello", 7, Some([Reaction("+1", v)]))]
      && s2.outcome.Success?
      && s2.hub.history["r1"] == [HistoryEntry("m1", u, "hello", 7, Some([]))]
  {
    var u := User("u", "U", "user", None);
    var v := User("v", "V", "user", None);
    var claims := Some(Claims("r1", "v", "V", "user", None));
    var m1 := Message("m1", u, "hello", [], 7);
    var h0 := HubState(map[], [], map["r1" := [ChatEntry("m1", u, "hello", 7)]]);
    assert UserOf(claims.value) == v;
    var s1 := SendReaction(h0, claims, "m1", "+1", Some(m1));
    assert s1.outcome.value.reactions == [Reaction("+1", v)];
    assert FindEntry(h0.history["r1"], "m1") == Some(0);
    var s2 := SendReaction(s1.hub, claims, "m1", "+1", Some(s1.outcome.value));
    assert First([Reaction("+1", v)], ByEmoji("+1")) == Some(0);
    assert s2.outcome.value.reactions == [];
    assert FindEntry(s1.hub.history["r1"], "m1") == Some(0);
  }

  /** A room with two viewer seats and `occupied` viewers counted. */
  function TwoSeats(occupied: int): RoomRecord {
    RoomRecord(Counters(2, 0, 0, 0), Counters(occupied, 0, 0, 0))
  }

  function Ann(): User {
    UserOf(Viewer("A").claims)
  }

  /** The hub with socket "sa" registered once and counted `occupied` times. */
  function AnnCounted(occupied: int): HubState {
    HubState(map["r1" := TwoSeats(occupied)], [("r1", [("sa", Ann())])], map[])
  }

  lemma FirstJoin()
    ensures Join(HubState(map["r1" := TwoSeats(0)], [], map[]), "sa", Viewer("A")) ==
      JoinStep(AnnCounted(1), Admitted(Ann(), [], [Ann()]), false)
  {
    var h := HubState(map["r1" := TwoSeats(0)], [], map[]);
    assert MembersOf(h.connected, "r1") == [];
    assert Admit(TwoSeats(0), "viewer") == TwoSeats(1);
  }

  lemma SecondJoin()
    ensures Join(AnnCounted(1), "sa", Viewer("A")) ==
      JoinStep(AnnCounted(2), Admitted(Ann(), [], [Ann()]), false)
  {
    var reg := [("sa", Ann())];
    assert OrderedMap.IndexOf(AnnCounted(1).connected, "r1") == Some(0);
    assert MembersOf(AnnCounted(1).connected, "r1") == reg;
    assert OrderedMap.IndexOf(reg, "sa") == Some(0);
    assert OrderedMap.Set(reg, "sa", Ann()) == reg;
    assert OrderedMap.Set(AnnCounted(1).connected, "r1", reg) == AnnCounted(1).connected;
    assert Admit(TwoSeats(1), "viewer") == TwoSeats(2);
  }

  lemma LeaveOnce()
    ensures Disconnect(AnnCounted(2), "sa") ==
      DisconnectStep(HubState(map["r1" := TwoSeats(1)], [("r1", [])], map[]), Some(Ann()))
  {
    var reg := [("sa", Ann())];
    assert OrderedMap.HasKey(reg, "sa");
    assert FindRoomFor(AnnCounted(2).connected, "sa") == Some(0);
    assert Release(TwoSeats(2), "viewer") == TwoSeats(1);
  }

  /** As written, a socket that joins the same room twice is registered
      once but counted twice: in a room with two viewer seats, socket "sa"
      joins twice as a viewer and then disconnects, leaving an empty
      registry and one viewer seat taken for good. */
  lemma {:induction false} JoinTwiceLeaksSeat()
    ensures var h0 := HubState(map["r1" := TwoSeats(0)], [], map[]);
      var j1 := Join(h0, "sa", Viewer("A"));
      var j2 := Join(j1.hub, "sa", Viewer("A"));
      var d := Disconnect(j2.hub, "sa");
      && RecordsMatchRegistries(h0)
      && j1.outcome.Admitted? && j2.outcome.Admitted?
      && MembersOf(j2.hub.connected, "r1") == [("sa", Ann())]
      && j2.hub.records["r1"].inSession.viewers == 2
      && MembersOf(d.hub.connected, "r1") == []
      && d.hub.records["r1"].inSession.viewers == 1
      && !RecordsMatchRegistries(d.hub)
  {
    FirstJoin();
    SecondJoin();
    LeaveOnce();
    var h0 := HubState(map["r1" := TwoSeats(0)], [], map[]);
    assert MembersOf(h0.connected, "r1") == [];
    assert OrderedMap.IndexOf(AnnCounted(2).connected, "r1") == Some(0);
    var h3 := HubState(map["r1" := TwoSeats(1)], [("r1", [])], map[]);
    assert OrderedMap.IndexOf(h3.connected, "r1") == Some(0);
    assert MembersOf(h3.connected, "r1") == [];
    assert !Consistent(h3.records["r1"], MembersOf(h3.connected, "r1"));
  }
}
