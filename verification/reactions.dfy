/** Reaction reconciliation on a stored message
    (src/controllers/chatController.ts:22-54): the code as written, the code
    with its comparison corrected, and a one-reaction-per-user toggle, which
    its unreachable emoji-rewriting branch presupposes. */
module Reactions {
  import opened Wrappers
  import opened Participants
  import opened Messages

  /** How reactions are looked up: by emoji, or by the reacting user's id. */
  datatype Key = ByEmoji(emoji: string) | ByOwner(userId: string)

  predicate Matches(x: Reaction, k: Key) {
    match k
    case ByEmoji(e) => x.emoji == e
    case ByOwner(id) => x.user.userId == id
  }

  /** `findIndex`: the position of the first reaction matching `k`. */
  function First(rs: seq<Reaction>, k: Key): (r: Option<nat>)
    ensures r.Some? ==> r.value < |rs| && Matches(rs[r.value], k)
    ensures r.Some? ==> forall j :: 0 <= j < r.value ==> !Matches(rs[j], k)
    ensures r.None? ==> forall j :: 0 <= j < |rs| ==> !Matches(rs[j], k)
    decreases |rs|
  {
    if |rs| == 0 then None
    else if Matches(rs[0], k) then Some(0)
    else
      match First(rs[1..], k)
      case None => None
      case Some(i) => Some(i + 1)
  }

  /** The first-occurrence characterisation determines `First`. */
  lemma FirstIs(rs: seq<Reaction>, k: Key, r: Option<nat>)
    requires r.Some? ==> r.value < |rs| && Matches(rs[r.value], k)
    requires r.Some? ==> forall j :: 0 <= j < r.value ==> !Matches(rs[j], k)
    requires r.None? ==> forall j :: 0 <= j < |rs| ==> !Matches(rs[j], k)
    ensures First(rs, k) == r
  {
  }

  /** `splice(i, 1)`. */
  function RemoveAt(rs: seq<Reaction>, i: nat): seq<Reaction>
    requires i < |rs|
  {
    rs[..i] + rs[i + 1..]
  }

  /** The reactions that do not match `k`, in their order. */
  function Except(rs: seq<Reaction>, k: Key): seq<Reaction>
  {
    if |rs| == 0 then []
    else (if Matches(rs[0], k) then [] else [rs[0]]) + Except(rs[1..], k)
  }

  /** The emojis of a reaction list, in order. */
  function Emojis(rs: seq<Reaction>): seq<string>
  {
    seq(|rs|, i requires 0 <= i < |rs| => rs[i].emoji)
  }

  lemma {:induction false} ExceptConcat(a: seq<Reaction>, b: seq<Reaction>, k: Key)
    ensures Except(a + b, k) == Except(a, k) + Except(b, k)
  {
    if |a| == 0 {
      assert a + b == b;
    } else {
      assert (a + b)[1..] == a[1..] + b;
      ExceptConcat(a[1..], b, k);
    }
  }

  /** Removing, replacing or appending reactions that match `k` leaves the
      non-matching ones untouched and in order. */
  lemma ExceptIgnoresMatching(rs: seq<Reaction>, i: nat, x: Reaction, k: Key)
    requires i < |rs| && Matches(rs[i], k) && Matches(x, k)
    ensures Except(RemoveAt(rs, i), k) == Except(rs, k)
    ensures Except(rs[i := x], k) == Except(rs, k)
    ensures Except(rs + [x], k) == Except(rs, k)
  {
    assert Except([x], k) == [] && Except([rs[i]], k) == [];
    assert rs == rs[..i] + [rs[i]] + rs[i + 1..];
    assert rs[i := x] == rs[..i] + [x] + rs[i + 1..];
    ExceptConcat(rs[..i] + [rs[i]], rs[i + 1..], k);
    ExceptConcat(rs[..i], [rs[i]], k);
    ExceptConcat(rs[..i] + [x], rs[i + 1..], k);
    ExceptConcat(rs[..i], [x], k);
    ExceptConcat(rs[..i], rs[i + 1..], k);
    ExceptConcat(rs, [x], k);
  }

  // ---------------------------------------------------------------------
  // As written

  /** The reaction update as written. The reaction is found by emoji. The
      `if` at line 35 ASSIGNS the reacting user's id to the matched
      reaction's user and tests the assigned value: a non-empty id removes
      the matched reaction, whoever left it; an empty id leaves the matched
      reaction in place with an empty user id and appends a new one. The
      branch that would rewrite the emoji cannot be taken, because the
      matched reaction carries that emoji. */
  function ReactLiteral(rs: seq<Reaction>, emoji: string, user: User): (r: seq<Reaction>)
    ensures First(rs, ByEmoji(emoji)).None? ==> r == rs + [Reaction(emoji, user)]
    ensures First(rs, ByEmoji(emoji)).Some? && user.userId != "" ==>
      r == RemoveAt(rs, First(rs, ByEmoji(emoji)).value)
    ensures First(rs, ByEmoji(emoji)).Some? && user.userId == "" ==>
      var i := First(rs, ByEmoji(emoji)).value;
      && |r| == |rs| + 1
      && r[|rs|] == Reaction(emoji, user)
      && r[i] == Reaction(emoji, rs[i].user.(userId := ""))
      && forall j :: 0 <= j < |rs| && j != i ==> r[j] == rs[j]
  {
    match First(rs, ByEmoji(emoji))
    case None => rs + [Reaction(emoji, user)]
    case Some(i) =>
      var matched := rs[i].(user := rs[i].user.(userId := user.userId));
      var updated := rs[i := matched];
      if matched.user.userId != "" then
        if matched.emoji == emoji then RemoveAt(updated, i)
        else assert false; updated
      else
        updated + [Reaction(emoji, user)]
  }

  /** The list grows by one reaction, or shrinks by one exactly when the
      emoji is present and the reacting user id is non-empty. */
  lemma ReactLiteralLength(rs: seq<Reaction>, emoji: string, user: User)
    ensures var removes := First(rs, ByEmoji(emoji)).Some? && user.userId != "";
      |ReactLiteral(rs, emoji, user)| == if removes then |rs| - 1 else |rs| + 1
  {
  }

  /** No emoji is ever rewritten: the emojis of the result are the old ones
      with the first occurrence of `emoji` dropped, or with `emoji` appended. */
  lemma ReactLiteralKeepsEmojis(rs: seq<Reaction>, emoji: string, user: User)
    ensures var r := ReactLiteral(rs, emoji, user);
      match First(rs, ByEmoji(emoji))
      case Some(i) =>
        if user.userId != "" then Emojis(r) == Emojis(rs)[..i] + Emojis(rs)[i + 1..]
        else Emojis(r) == Emojis(rs) + [emoji]
      case None => Emojis(r) == Emojis(rs) + [emoji]
  {
    var r := ReactLiteral(rs, emoji, user);
    match First(rs, ByEmoji(emoji))
    case Some(i) =>
      if user.userId != "" {
        assert Emojis(r) == Emojis(rs)[..i] + Emojis(rs)[i + 1..];
      } else {
        assert Emojis(r) == Emojis(rs) + [emoji];
      }
    case None =>
      assert Emojis(r) == Emojis(rs) + [emoji];
  }

  /** Reactions carrying any other emoji survive unchanged and in order. */
  lemma ReactLiteralKeepsOtherEmojis(rs: seq<Reaction>, emoji: string, user: User)
    ensures Except(ReactLiteral(rs, emoji, user), ByEmoji(emoji)) == Except(rs, ByEmoji(emoji))
  {
    var k := ByEmoji(emoji);
    match First(rs, k)
    case None =>
      ExceptConcat(rs, [Reaction(emoji, user)], k);
    case Some(i) =>
      var x := Reaction(emoji, rs[i].user.(userId := ""));
      ExceptIgnoresMatching(rs, i, x, k);
      ExceptIgnoresMatching(rs[i := x], i, Reaction(emoji, user), k);
      if user.userId == "" {
        assert ReactLiteral(rs, emoji, user) == rs[i := x] + [Reaction(emoji, user)];
      }
  }

  /** Reacting twice with an emoji nobody has used yet, under a non-empty
      user id, gives back the original list. */
  lemma ReactLiteralTwiceRestores(rs: seq<Reaction>, emoji: string, user: User)
    requires First(rs, ByEmoji(emoji)).None?
    requires user.userId != ""
    ensures ReactLiteral(ReactLiteral(rs, emoji, user), emoji, user) == rs
  {
    var once := rs + [Reaction(emoji, user)];
    FirstIs(once, ByEmoji(emoji), Some(|rs|));
    assert RemoveAt(once, |rs|) == rs;
  }

  /** The schema's validation on save (src/models/chatScript.ts:40-52):
      every reaction needs an emoji, and a `required` string refuses the
      empty string as it refuses a missing one. */
  predicate Storable(rs: seq<Reaction>) {
    forall i :: 0 <= i < |rs| ==> rs[i].emoji != ""
  }

  /** Starting from a list that passed validation, the update as written
      fails validation exactly when the emoji is empty: an empty emoji is
      never found, so it is appended. */
  lemma ReactLiteralStorable(rs: seq<Reaction>, emoji: string, user: User)
    ensures Storable(rs) ==> (Storable(ReactLiteral(rs, emoji, user)) <==> emoji != "")
  {
    var r := ReactLiteral(rs, emoji, user);
    if !Storable(rs) {
      return;
    }
    match First(rs, ByEmoji(emoji))
    case None =>
      assert r[|rs|].emoji == emoji;
    case Some(i) =>
      assert rs[i].emoji == emoji;
      if user.userId != "" {
        forall j | 0 <= j < |r| ensures r[j].emoji != "" {
          if j < i {
            assert r[j] == rs[j];
          } else {
            assert r[j] == rs[j + 1];
          }
        }
      }
  }

  /** The reaction update of a looked-up message: a missing message fails
      with MessageNotFound; an updated reaction list that fails the schema's
      validation makes the save throw; otherwise nothing about the message
      changes but its reaction list. */
  function UpdateMessageReactions(found: Option<Message>, emoji: string, user: User): (r: Result<Message, ChatError>)
    ensures found.None? <==> r == Failure(MessageNotFound)
    ensures found.Some? ==> (r.Success? <==> Storable(ReactLiteral(found.value.reactions, emoji, user)))
    ensures found.Some? && r.Failure? ==> r.error == SaveRejected
    ensures found.Some? && Storable(found.value.reactions) ==> (r.Success? <==> emoji != "")
    ensures r.Success? ==> found.Some? && var m := found.value;
      && r.value.msgId == m.msgId && r.value.sender == m.sender
      && r.value.msg == m.msg && r.value.posted == m.posted
      && r.value.reactions == ReactLiteral(m.reactions, emoji, user)
  {
    match found
    case None => Failure(MessageNotFound)
    case Some(m) =>
      var rs := ReactLiteral(m.reactions, emoji, user);
      ReactLiteralStorable(m.reactions, emoji, user);
      if Storable(rs) then Success(m.(reactions := rs))
      else Failure(SaveRejected)
  }

  /** As written, another user's reaction is removed: Bo reacting with the
      emoji Ann already used deletes Ann's reaction and leaves none of Bo's. */
  lemma ReactLiteralRemovesOthersReaction()
    ensures var ann := User("u1", "Ann", "user", None);
      var bo := User("u2", "Bo", "user", None);
      var rs := [Reaction("+1", ann)];
      var r := ReactLiteral(rs, "+1", bo);
      && r == []
      && Except(r, ByOwner(bo.userId)) != Except(rs, ByOwner(bo.userId))
  {
    var ann := User("u1", "Ann", "user", None);
    var rs := [Reaction("+1", ann)];
    assert First(rs, ByEmoji("+1")) == Some(0);
    assert Except(rs, ByOwner("u2")) == [Reaction("+1", ann)] by {
      assert rs[1..] == [];
    }
  }

  // ---------------------------------------------------------------------
  // Line 35 comparing instead of assigning

  /** The update with line 35 comparing the ids: the first reaction with
      this emoji is removed when the reacting user left it; otherwise a new
      reaction is appended. */
  function ReactFixed(rs: seq<Reaction>, emoji: string, user: User): (r: seq<Reaction>)
    ensures var f := First(rs, ByEmoji(emoji));
      if f.Some? && rs[f.value].user.userId == user.userId then r == RemoveAt(rs, f.value)
      else r == rs + [Reaction(emoji, user)]
  {
    match First(rs, ByEmoji(emoji))
    case None => rs + [Reaction(emoji, user)]
    case Some(i) =>
      if rs[i].user.userId == user.userId then
        if rs[i].emoji == emoji then RemoveAt(rs, i)
        else assert false; rs
      else
        rs + [Reaction(emoji, user)]
  }

  /** With the comparison corrected, every reaction left by anyone else is
      kept, unchanged and in order. */
  lemma ReactFixedKeepsOthersReactions(rs: seq<Reaction>, emoji: string, user: User)
    ensures Except(ReactFixed(rs, emoji, user), ByOwner(user.userId)) == Except(rs, ByOwner(user.userId))
  {
    var k := ByOwner(user.userId);
    match First(rs, ByEmoji(emoji))
    case None =>
      ExceptIgnoresMatching(rs + [Reaction(emoji, user)], |rs|, Reaction(emoji, user), k);
      ExceptConcat(rs, [Reaction(emoji, user)], k);
    case Some(i) =>
      if rs[i].user.userId == user.userId {
        ExceptIgnoresMatching(rs, i, rs[i], k);
      } else {
        ExceptConcat(rs, [Reaction(emoji, user)], k);
      }
  }

  /** The literal and the corrected update agree whenever the emoji is
      absent, whatever the user id, and when its first reaction was left by
      the reacting user under a non-empty id. */
  lemma ReactLiteralAgreesWithFixed(rs: seq<Reaction>, emoji: string, user: User)
    requires First(rs, ByEmoji(emoji)).Some? ==>
      user.userId != "" && rs[First(rs, ByEmoji(emoji)).value].user.userId == user.userId
    ensures ReactLiteral(rs, emoji, user) == ReactFixed(rs, emoji, user)
  {
  }

  /** Even corrected, matching by emoji is not a per-user toggle: when Ann's
      reaction comes first, Bo reacting twice with the same emoji leaves two
      reactions of Bo's instead of none. */
  lemma ReactFixedTwiceDuplicates()
    ensures var ann := User("u1", "Ann", "user", None);
      var bo := User("u2", "Bo", "user", None);
      var rs := [Reaction("+1", ann)];
      var r := ReactFixed(ReactFixed(rs, "+1", bo), "+1", bo);
      && r == [Reaction("+1", ann), Reaction("+1", bo), Reaction("+1", bo)]
      && !AtMostOnePerUser(r)
  {
    var ann := User("u1", "Ann", "user", None);
    var bo := User("u2", "Bo", "user", None);
    var rs := [Reaction("+1", ann)];
    assert First(rs, ByEmoji("+1")) == Some(0);
    var once := rs + [Reaction("+1", bo)];
    assert First(once, ByEmoji("+1")) == Some(0);
    var r := ReactFixed(once, "+1", bo);
    assert r == once + [Reaction("+1", bo)];
    assert r[1].user.userId == r[2].user.userId;
  }

  // ---------------------------------------------------------------------
  // Matching by user: one active reaction per user

  /** No user holds two reactions on the message. */
  ghost predicate AtMostOnePerUser(rs: seq<Reaction>) {
    forall i, j :: 0 <= i < j < |rs| ==> rs[i].user.userId != rs[j].user.userId
  }

  /** The one-reaction-per-user toggle the emoji-replacing branch at line 41
      presupposes (the comments describe a per-emoji list of users instead):
      find the reacting user's reaction; none means append, the
      same emoji means remove, another emoji means switch to this one. */
  function ReactByUser(rs: seq<Reaction>, emoji: string, user: User): (r: seq<Reaction>)
    ensures First(rs, ByOwner(user.userId)).None? ==> r == rs + [Reaction(emoji, user)]
    ensures First(rs, ByOwner(user.userId)).Some? ==>
      var i := First(rs, ByOwner(user.userId)).value;
      if rs[i].emoji == emoji then r == RemoveAt(rs, i)
      else (|r| == |rs| && r[i].emoji == emoji && r[i].user == rs[i].user
        && forall j :: 0 <= j < |rs| && j != i ==> r[j] == rs[j])
  {
    match First(rs, ByOwner(user.userId))
    case None => rs + [Reaction(emoji, user)]
    case Some(i) =>
      if rs[i].emoji == emoji then RemoveAt(rs, i)
      else rs[i := rs[i].(emoji := emoji)]
  }

  /** The per-user toggle keeps every user at one reaction at most. */
  lemma ReactByUserKeepsOnePerUser(rs: seq<Reaction>, emoji: string, user: User)
    requires AtMostOnePerUser(rs)
    ensures AtMostOnePerUser(ReactByUser(rs, emoji, user))
  {
    var r := ReactByUser(rs, emoji, user);
    match First(rs, ByOwner(user.userId))
    case None =>
      assert forall j :: 0 <= j < |rs| ==> r[j] == rs[j];
    case Some(i) =>
      if rs[i].emoji == emoji {
        assert forall j :: 0 <= j < |r| ==> r[j] == rs[if j < i then j else j + 1];
      } else {
        assert forall j :: 0 <= j < |r| ==> r[j].user == rs[j].user;
      }
  }

  /** The per-user toggle leaves every other user's reactions unchanged and
      in order. */
  lemma ReactByUserKeepsOthersReactions(rs: seq<Reaction>, emoji: string, user: User)
    ensures Except(ReactByUser(rs, emoji, user), ByOwner(user.userId)) == Except(rs, ByOwner(user.userId))
  {
    var k := ByOwner(user.userId);
    match First(rs, k)
    case None =>
      ExceptIgnoresMatching(rs + [Reaction(emoji, user)], |rs|, Reaction(emoji, user), k);
      ExceptConcat(rs, [Reaction(emoji, user)], k);
    case Some(i) =>
      if rs[i].emoji == emoji {
        ExceptIgnoresMatching(rs, i, rs[i], k);
      } else {
        ExceptIgnoresMatching(rs, i, rs[i].(emoji := emoji), k);
      }
  }

  /** Reacting twice with the same emoji leaves no reaction of the user's;
      reacting with one emoji and then another leaves exactly one, carrying
      the second emoji. */
  lemma ReactByUserToggles(rs: seq<Reaction>, a: string, b: string, user: User)
    requires First(rs, ByOwner(user.userId)).None?
    ensures ReactByUser(ReactByUser(rs, a, user), a, user) == rs
    ensures a != b ==> ReactByUser(ReactByUser(rs, a, user), b, user) == rs + [Reaction(b, user)]
  {
    var once := rs + [Reaction(a, user)];
    FirstIs(once, ByOwner(user.userId), Some(|rs|));
    assert RemoveAt(once, |rs|) == rs;
  }
}
