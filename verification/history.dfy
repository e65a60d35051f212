/** The per-room bounded history of recent messages (src/server.ts:164-169,
    179-183, 204-211). */
module History {
  import opened Wrappers
  import opened Participants
  import opened Messages

  /** One history entry. `reaction` is absent on an entry pushed by a chat
      message and holds the reaction list on an entry rewritten by a
      reaction update. */
  datatype HistoryEntry = HistoryEntry(msgId: string, sender: User, msg: Payload, posted: Timestamp, reaction: Option<seq<Reaction>>)

  /** The entry a chat message pushes: the message's id, sender, body and
      time, and no reaction list. */
  function ChatEntry(msgId: string, sender: User, msg: Payload, posted: Timestamp): (e: HistoryEntry)
    ensures e.msgId == msgId && e.sender == sender && e.msg == msg && e.posted == posted
    ensures e.reaction.None?
  {
    HistoryEntry(msgId, sender, msg, posted, None)
  }

  /** The entry a reaction update writes, projected from the stored message:
      the chat entry of the same message, now carrying its reactions. */
  function EntryOf(m: Message): (e: HistoryEntry)
    ensures e.(reaction := None) == ChatEntry(m.msgId, m.sender, m.msg, m.posted)
    ensures e.reaction == Some(m.reactions)
  {
    HistoryEntry(m.msgId, m.sender, m.msg, m.posted, Some(m.reactions))
  }

  /** Push `e` and, if the buffer is now longer than `limit`, shift the
      oldest entry off: once, not until it fits. */
  function Append(hist: seq<HistoryEntry>, e: HistoryEntry, limit: nat): (r: seq<HistoryEntry>)
    ensures |r| == if |hist| + 1 > limit then |hist| else |hist| + 1
    ensures r == (hist + [e])[|hist| + 1 - |r|..]
    ensures |r| > 0 ==> r[|r| - 1] == e
    ensures |hist| <= limit ==> |r| <= limit
  {
    var pushed := hist + [e];
    if |pushed| > limit then pushed[1..] else pushed
  }

  /** The newest `n` elements of `s`. */
  function Newest(s: seq<HistoryEntry>, n: nat): (r: seq<HistoryEntry>)
    ensures |r| == if |s| <= n then |s| else n
  {
    if |s| <= n then s else s[|s| - n..]
  }

  /** Chat messages pushed one after another. */
  function Replay(hist: seq<HistoryEntry>, es: seq<HistoryEntry>, limit: nat): seq<HistoryEntry>
    decreases |es|
  {
    if |es| == 0 then hist else Replay(Append(hist, es[0], limit), es[1..], limit)
  }

  lemma NewestAbsorbs(x: seq<HistoryEntry>, y: seq<HistoryEntry>, n: nat)
    ensures Newest(Newest(x, n) + y, n) == Newest(x + y, n)
  {
    if |x| > n {
      var a := Newest(x, n) + y;
      var b := x + y;
      if |a| <= n {
        assert |y| == 0;
        assert b == x;
        assert a == x[|x| - n..];
      } else {
        var l := Newest(a, n);
        var m := Newest(b, n);
        assert |l| == |m|;
        forall j | 0 <= j < |l| ensures l[j] == m[j] {
          assert l[j] == a[|a| - n + j];
          assert m[j] == b[|b| - n + j];
        }
      }
    }
  }

  /** From within the limit, one push-and-shift keeps the newest entries. */
  lemma AppendIsNewest(hist: seq<HistoryEntry>, e: HistoryEntry, limit: nat)
    requires |hist| <= limit
    ensures Append(hist, e, limit) == Newest(hist + [e], limit)
  {
  }

  /** A buffer that starts within its limit always holds exactly the newest
      `limit` of the entries it has seen, in arrival order. */
  lemma {:induction false} ReplayKeepsNewest(hist: seq<HistoryEntry>, es: seq<HistoryEntry>, limit: nat)
    requires |hist| <= limit
    ensures Replay(hist, es, limit) == Newest(hist + es, limit)
    decreases |es|
  {
    if |es| == 0 {
      assert hist + es == hist;
    } else {
      var h1 := Append(hist, es[0], limit);
      AppendIsNewest(hist, es[0], limit);
      ReplayKeepsNewest(h1, es[1..], limit);
      NewestAbsorbs(hist + [es[0]], es[1..], limit);
      assert hist + [es[0]] + es[1..] == hist + es;
    }
  }

  /** The position of the first entry with id `msgId`. */
  function FindEntry(hist: seq<HistoryEntry>, msgId: string): (r: Option<nat>)
    ensures r.Some? ==> r.value < |hist| && hist[r.value].msgId == msgId
    ensures r.Some? ==> forall j :: 0 <= j < r.value ==> hist[j].msgId != msgId
    ensures r.None? ==> forall j :: 0 <= j < |hist| ==> hist[j].msgId != msgId
    decreases |hist|
  {
    if |hist| == 0 then None
    else if hist[0].msgId == msgId then Some(0)
    else
      match FindEntry(hist[1..], msgId)
      case None => None
      case Some(i) => Some(i + 1)
  }

  /** Overwrite the first entry whose id is `msgId` with `e`; no entry with
      that id means no change. */
  function Replace(hist: seq<HistoryEntry>, msgId: string, e: HistoryEntry): (r: seq<HistoryEntry>)
    ensures |r| == |hist|
    ensures FindEntry(hist, msgId).None? ==> r == hist
    ensures FindEntry(hist, msgId).Some? ==>
      var i := FindEntry(hist, msgId).value;
      r[i] == e && forall j :: 0 <= j < |hist| && j != i ==> r[j] == hist[j]
  {
    match FindEntry(hist, msgId)
    case None => hist
    case Some(i) => hist[i := e]
  }

  /** Replacing with an entry that keeps the id leaves it where it was, so a
      second identical replacement changes nothing more. */
  lemma ReplaceIdempotent(hist: seq<HistoryEntry>, msgId: string, e: HistoryEntry)
    requires e.msgId == msgId
    ensures FindEntry(Replace(hist, msgId, e), msgId) == FindEntry(hist, msgId)
    ensures Replace(Replace(hist, msgId, e), msgId, e) == Replace(hist, msgId, e)
  {
    var r := Replace(hist, msgId, e);
    match FindEntry(hist, msgId)
    case None =>
    case Some(i) =>
      var f := FindEntry(r, msgId);
      assert f.Some? && f.value <= i;
      assert f == Some(i);
  }
}
