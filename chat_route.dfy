/** The direct-chat handlers of routes/chats/chat_route.py that touch the
    message tiers: the websocket append loop, mark-as-seen, the two unsend
    operations and the fetch of an older bucket. Each handler is one atomic
    step on a `Conversation` of kind Chat. */
module ChatRoute {
  import opened Common
  import opened Messages
  import opened Storage
  import BatchSaveMessages

  // ---------------------------------------------------------------------
  // Appending (websocket_chat_endpoint)
  // ---------------------------------------------------------------------

  /** The fields of one client frame that the handler copies. */
  datatype ChatFrame = ChatFrame(
    id: Id,
    replyToId: Option<Id>,
    replyToContent: Option<string>,
    content: string,
    action: string,
    createdAt: Timestamp)

  /** The dict the handler builds: falsy reply fields become None, the
      message starts unseen with no seen timestamp. */
  function NewChatMessage(f: ChatFrame, sender: Id, sequence: int): Message
  {
    Message(f.id, sender, NoneIfFalsy(f.replyToId), NoneIfFalsy(f.replyToContent), f.content,
            sequence, Some(false), None, Some(f.action), f.createdAt)
  }

  /** One message of the receive loop: number it after the tail and push it. */
  method AppendChatMessage(c: Conversation, sender: Id, f: ChatFrame) returns (m: Message)
    requires c.Valid() && c.kind == Chat
    modifies c`hot
    ensures c.Valid()
    ensures m.sequence == NextSequence(old(c.hot))
    ensures m.id == f.id && m.senderId == sender && m.content == f.content
    ensures m.seen == Some(false) && m.seenTimestamp.None?
    ensures m == NewChatMessage(f, sender, m.sequence)
    ensures c.hot == old(c.hot) + [m]
  {
    var sequence := NextSequence(c.hot);
    m := NewChatMessage(f, sender, sequence);
    NextSequenceIsFresh(c.hot, m);
    c.hot := c.hot + [m];
  }

  /** The receive loop over the frames a connection delivers: consecutive
      frames get consecutive sequence numbers, starting after the tail. */
  method ChatSession(c: Conversation, sender: Id, frames: seq<ChatFrame>) returns (sent: seq<Message>)
    requires c.Valid() && c.kind == Chat
    modifies c`hot
    ensures c.Valid()
    ensures |sent| == |frames|
    ensures c.hot == old(c.hot) + sent
    ensures forall i :: 0 <= i < |frames| ==>
      sent[i] == NewChatMessage(frames[i], sender, NextSequence(old(c.hot)) + i)
  {
    sent := [];
    for i := 0 to |frames|
      invariant c.Valid()
      invariant |sent| == i
      invariant c.hot == old(c.hot) + sent
      invariant forall j :: 0 <= j < i ==>
        sent[j] == NewChatMessage(frames[j], sender, NextSequence(old(c.hot)) + j)
      invariant NextSequence(c.hot) == NextSequence(old(c.hot)) + i
    {
      var m := AppendChatMessage(c, sender, frames[i]);
      sent := sent + [m];
    }
  }

  // ---------------------------------------------------------------------
  // Mark as seen
  // ---------------------------------------------------------------------

  /** The hot sweep's test: the stored `sender_id`, a str, differs from the
      caller's id, and `get("seen", False)` is falsy. `caller` is the value
      the handler compares with: as written, the ObjectId that validate_token
      returns; `PyStr` of the same id makes the comparison the intended one. */
  predicate HotUnseenBy(m: Message, caller: PyValue)
  {
    PyStr(m.senderId) != caller && !IsSeen(m)
  }

  /** The cold array filter: sender differs and `seen` equals false; a
      missing `seen` key does not match. */
  predicate ColdUnseenBy(m: Message, caller: PyValue)
  {
    PyStr(m.senderId) != caller && m.seen == Some(false)
  }

  function MarkSeen(m: Message, ts: Timestamp): Message
  {
    m.(seen := Some(true), seenTimestamp := Some(ts))
  }

  function HotSweep(m: Message, caller: PyValue, ts: Timestamp): Message
  {
    if HotUnseenBy(m, caller) then MarkSeen(m, ts) else m
  }

  function ColdSweep(m: Message, caller: PyValue, ts: Timestamp): Message
  {
    if ColdUnseenBy(m, caller) then MarkSeen(m, ts) else m
  }

  function ColdSweeper(caller: PyValue, ts: Timestamp): Message -> Message
  {
    m => ColdSweep(m, caller, ts)
  }

  function HotSweeper(caller: PyValue, ts: Timestamp): Message -> Message
  {
    m => HotSweep(m, caller, ts)
  }

  /** The sweep changes exactly the entries the test selects, sets their
      flag and timestamp, and keeps everything else, including every
      sequence number. */
  lemma HotSweepExact(hot: seq<Message>, caller: PyValue, ts: Timestamp)
    ensures var r := MapMessages(HotSweeper(caller, ts), hot);
      && |r| == |hot|
      && (forall i :: 0 <= i < |hot| ==> (r[i] != hot[i] <==> HotUnseenBy(hot[i], caller)))
      && (forall i :: 0 <= i < |hot| && HotUnseenBy(hot[i], caller) ==>
            r[i].seen == Some(true) && r[i].seenTimestamp == Some(ts))
      && (forall i :: 0 <= i < |hot| ==> !HotUnseenBy(r[i], caller))
      && (forall i :: 0 <= i < |hot| ==> r[i].sequence == hot[i].sequence && r[i].id == hot[i].id)
  {
    var r := MapMessages(HotSweeper(caller, ts), hot);
    forall i | 0 <= i < |hot| ensures r[i] != hot[i] <==> HotUnseenBy(hot[i], caller) {
      if HotUnseenBy(hot[i], caller) {
        assert r[i].seen != hot[i].seen;
      }
    }
  }

  /** A repeated mark-as-seen changes nothing in the hot list. */
  lemma HotSweepIdempotent(hot: seq<Message>, caller: PyValue, ts: Timestamp, ts': Timestamp)
    ensures MapMessages(HotSweeper(caller, ts'), MapMessages(HotSweeper(caller, ts), hot))
         == MapMessages(HotSweeper(caller, ts), hot)
  {
  }

  /** The sweep keeps the hot list ordered. */
  lemma HotSweepKeepsOrder(hot: seq<Message>, caller: PyValue, ts: Timestamp)
    requires Increasing(hot)
    ensures Increasing(MapMessages(HotSweeper(caller, ts), hot))
  {
  }

  /** The cold update leaves the archive's order and membership alone and
      applies the cold test to every archived message. */
  lemma ColdSweepHistory(buckets: map<nat, Bucket>, caller: PyValue, ts: Timestamp)
    ensures ColdHistory(MapBuckets(ColdSweeper(caller, ts), buckets))
         == MapMessages(ColdSweeper(caller, ts), ColdHistory(buckets))
  {
    ColdHistoryMap(ColdSweeper(caller, ts), buckets);
  }

  /** mark_as_seen: only when the flag is set, update every bucket and drop
      the flag; then always sweep the hot list index by index. */
  method MarkAsSeen(c: Conversation, caller: PyValue, ts: Timestamp)
    requires c.Valid() && c.kind == Chat
    modifies c
    ensures c.Valid()
    ensures old(c.unseen) ==> c.buckets == MapBuckets(ColdSweeper(caller, ts), old(c.buckets))
    ensures !old(c.unseen) ==> c.buckets == old(c.buckets)
    ensures !c.unseen
    ensures c.hot == MapMessages(HotSweeper(caller, ts), old(c.hot))
  {
    if c.unseen {
      c.buckets := MapBuckets(ColdSweeper(caller, ts), c.buckets);
      c.unseen := false;
    }
    ghost var cold := c.buckets;
    var snapshot := c.hot;
    for i := 0 to |snapshot|
      invariant |c.hot| == |snapshot|
      invariant forall j :: 0 <= j < i ==> c.hot[j] == HotSweep(snapshot[j], caller, ts)
      invariant forall j :: i <= j < |snapshot| ==> c.hot[j] == snapshot[j]
      invariant c.buckets == cold && !c.unseen
    {
      var m := snapshot[i];
      if PyStr(m.senderId) != caller && !IsSeen(m) {
        c.hot := c.hot[i := MarkSeen(m, ts)];
      }
    }
    assert c.hot == MapMessages(HotSweeper(caller, ts), snapshot);
    HotSweepKeepsOrder(snapshot, caller, ts);
  }

  /** As written, the caller is an ObjectId and no stored sender equals it:
      both tests reduce to the seen test alone, so every unseen message is
      marked, the caller's own included, in both tiers. */
  lemma MarkAsSeenAsWrittenMarksOwn(hot: seq<Message>, buckets: map<nat, Bucket>, user: Id, ts: Timestamp)
    ensures forall i :: 0 <= i < |hot| ==>
      MapMessages(HotSweeper(PyObjectId(user), ts), hot)[i] == if IsSeen(hot[i]) then hot[i] else MarkSeen(hot[i], ts)
    ensures forall i :: 0 <= i < |hot| && hot[i].senderId == user && !IsSeen(hot[i]) ==>
      MapMessages(HotSweeper(PyObjectId(user), ts), hot)[i] != hot[i]
    ensures forall k, i :: k in buckets && 0 <= i < |buckets[k].messages| && buckets[k].messages[i].seen == Some(false) ==>
      MapBuckets(ColdSweeper(PyObjectId(user), ts), buckets)[k].messages[i] == MarkSeen(buckets[k].messages[i], ts)
  {
  }

  /** With the ids compared as the same type, the sweep never touches the
      caller's own messages and still marks every unseen one from the other
      participant. */
  lemma MarkAsSeenSparesOwn(hot: seq<Message>, user: Id, ts: Timestamp)
    ensures forall i :: 0 <= i < |hot| && hot[i].senderId == user ==>
      MapMessages(HotSweeper(PyStr(user), ts), hot)[i] == hot[i]
    ensures forall i :: 0 <= i < |hot| && hot[i].senderId != user && !IsSeen(hot[i]) ==>
      MapMessages(HotSweeper(PyStr(user), ts), hot)[i] == MarkSeen(hot[i], ts)
  {
  }

  // ---------------------------------------------------------------------
  // Unsend a message still in the hot list
  // ---------------------------------------------------------------------

  /** A slot of the Redis list while the handler runs: a message or the
      `"__deleted__"` placeholder. */
  datatype Entry = Msg(m: Message) | Deleted

  /** The message to remove: this id, sent by the caller. */
  predicate Owned(m: Message, mid: Id, user: Id)
  {
    m.id == mid && m.senderId == user
  }

  predicate RepliesTo(m: Message, mid: Id)
  {
    m.replyToId == Some(mid)
  }

  function ClearReply(m: Message): Message
  {
    m.(replyToId := None, replyToContent := None)
  }

  /** What the update loop writes at one index (the elif: an owned message is
      tombstoned even when it also replies to the target). */
  function Tombstone(m: Message, mid: Id, user: Id): Entry
  {
    if Owned(m, mid, user) then Deleted
    else if RepliesTo(m, mid) then Msg(ClearReply(m))
    else Msg(m)
  }

  /** `lrem(key, 0, "__deleted__")`: every placeholder goes, order stays. */
  function Compact(es: seq<Entry>): seq<Message>
  {
    if es == [] then []
    else (if es[0].Deleted? then [] else [es[0].m]) + Compact(es[1..])
  }

  function Tombstoned(hot: seq<Message>, mid: Id, user: Id): (es: seq<Entry>)
    ensures |es| == |hot|
    ensures forall i :: 0 <= i < |hot| ==> es[i] == Tombstone(hot[i], mid, user)
  {
    seq(|hot|, i requires 0 <= i < |hot| => Tombstone(hot[i], mid, user))
  }

  /** The hot list after unsend_recent_message. */
  function AfterUnsendRecent(hot: seq<Message>, mid: Id, user: Id): seq<Message>
  {
    Compact(Tombstoned(hot, mid, user))
  }

  /** Some entry is owned or replies to the target: the update list is not empty. */
  predicate Touches(hot: seq<Message>, mid: Id, user: Id)
  {
    exists i :: 0 <= i < |hot| && (Owned(hot[i], mid, user) || RepliesTo(hot[i], mid))
  }

  /** A one-pass reference for the same result: drop owned entries, clear
      replies in the others. */
  function UnsendReference(hot: seq<Message>, mid: Id, user: Id): seq<Message>
  {
    if hot == [] then []
    else
      (if Owned(hot[0], mid, user) then []
       else if RepliesTo(hot[0], mid) then [ClearReply(hot[0])]
       else [hot[0]])
      + UnsendReference(hot[1..], mid, user)
  }

  /** Tombstone-then-compact computes the one-pass result. */
  lemma {:induction false} AfterUnsendIsReference(hot: seq<Message>, mid: Id, user: Id)
    ensures AfterUnsendRecent(hot, mid, user) == UnsendReference(hot, mid, user)
  {
    if hot != [] {
      assert Tombstoned(hot, mid, user)[1..] == Tombstoned(hot[1..], mid, user);
      AfterUnsendIsReference(hot[1..], mid, user);
    }
  }

  function CountOwned(hot: seq<Message>, mid: Id, user: Id): nat
  {
    if hot == [] then 0
    else (if Owned(hot[0], mid, user) then 1 else 0) + CountOwned(hot[1..], mid, user)
  }

  /** The reference result keeps no owned entry and no reply to the target,
      shrinks by the number of owned entries, keeps every sequence it had,
      and its entries are the old ones with at most the reply cleared. */
  lemma {:induction false} UnsendReferenceFacts(hot: seq<Message>, mid: Id, user: Id)
    ensures var r := UnsendReference(hot, mid, user);
      && |r| == |hot| - CountOwned(hot, mid, user)
      && (forall i :: 0 <= i < |r| ==> !Owned(r[i], mid, user) && !RepliesTo(r[i], mid))
      && (forall i :: 0 <= i < |r| ==> exists j :: 0 <= j < |hot| && (r[i] == hot[j] || r[i] == ClearReply(hot[j])))
  {
    if hot != [] {
      UnsendReferenceFacts(hot[1..], mid, user);
      var r := UnsendReference(hot, mid, user);
      var head := if Owned(hot[0], mid, user) then []
                  else if RepliesTo(hot[0], mid) then [ClearReply(hot[0])]
                  else [hot[0]];
      var tail := UnsendReference(hot[1..], mid, user);
      assert r == head + tail;
      forall i | 0 <= i < |r|
        ensures exists j :: 0 <= j < |hot| && (r[i] == hot[j] || r[i] == ClearReply(hot[j]))
      {
        if i < |head| {
          assert r[i] == hot[0] || r[i] == ClearReply(hot[0]);
        } else {
          assert r[i] == tail[i - |head|];
          var j :| 0 <= j < |hot[1..]| && (tail[i - |head|] == hot[1..][j] || tail[i - |head|] == ClearReply(hot[1..][j]));
          assert hot[1..][j] == hot[j + 1];
        }
      }
    }
  }

  /** The reference result keeps the list ordered by sequence. */
  lemma {:induction false} UnsendReferenceKeepsOrder(hot: seq<Message>, mid: Id, user: Id)
    requires Increasing(hot)
    ensures Increasing(UnsendReference(hot, mid, user))
    ensures forall i :: 0 <= i < |UnsendReference(hot, mid, user)| ==>
      hot[0].sequence <= UnsendReference(hot, mid, user)[i].sequence
  {
    if hot != [] {
      IncreasingSlice(hot, 1, |hot|);
      assert hot[1..] == hot[1..|hot|];
      UnsendReferenceKeepsOrder(hot[1..], mid, user);
      var tail := UnsendReference(hot[1..], mid, user);
      assert forall i :: 0 <= i < |tail| ==> hot[0].sequence < tail[i].sequence by {
        if |hot| > 1 {
          assert hot[0].sequence < hot[1].sequence;
        } else {
          assert tail == [];
        }
      }
    }
  }

  /** Nothing owned and nothing replying: the list comes back unchanged. */
  lemma {:induction false} UnsendUntouched(hot: seq<Message>, mid: Id, user: Id)
    requires !Touches(hot, mid, user)
    ensures UnsendReference(hot, mid, user) == hot
  {
    if hot != [] {
      assert !Touches(hot[1..], mid, user) by {
        forall i | 0 <= i < |hot[1..]|
          ensures !(Owned(hot[1..][i], mid, user) || RepliesTo(hot[1..][i], mid))
        {
          assert hot[1..][i] == hot[i + 1];
        }
      }
      UnsendUntouched(hot[1..], mid, user);
      assert !(Owned(hot[0], mid, user) || RepliesTo(hot[0], mid));
    }
  }

  /** The projection written to both inboxes after a successful unsend. */
  datatype LastMessage = LastMessage(content: string, sentBy: Id, createdAt: Option<Timestamp>)

  /** The new tail's content, sender and creation time, or the empty
      projection when no message is left. */
  function LastMessageOf(hot: seq<Message>): (r: LastMessage)
    ensures hot == [] ==> r == LastMessage("", "", None)
    ensures hot != [] ==> r == LastMessage(hot[|hot| - 1].content, hot[|hot| - 1].senderId,
                                            Some(hot[|hot| - 1].createdAt))
  {
    if hot == [] then LastMessage("", "", None)
    else
      var last := hot[|hot| - 1];
      LastMessage(last.content, last.senderId, Some(last.createdAt))
  }

  datatype UnsendOutcome = Unsent(last: LastMessage) | NotFound

  /** The first loop of unsend_recent_message: one update per index that is
      owned or replies to the target, in index order, carrying what that
      index becomes; untouched indices get none. */
  method CollectUpdates(messages: seq<Message>, mid: Id, user: Id) returns (updates: seq<(nat, Entry)>)
    ensures forall u :: u in updates ==>
      && u.0 < |messages|
      && (Owned(messages[u.0], mid, user) || RepliesTo(messages[u.0], mid))
      && u.1 == Tombstone(messages[u.0], mid, user)
    ensures forall a, b :: 0 <= a < b < |updates| ==> updates[a].0 < updates[b].0
    ensures forall j :: 0 <= j < |messages| && (Owned(messages[j], mid, user) || RepliesTo(messages[j], mid)) ==>
      (j, Tombstone(messages[j], mid, user)) in updates
    ensures updates != [] <==> Touches(messages, mid, user)
  {
    updates := [];
    for i := 0 to |messages|
      invariant forall u :: u in updates ==>
        && u.0 < i
        && (Owned(messages[u.0], mid, user) || RepliesTo(messages[u.0], mid))
        && u.1 == Tombstone(messages[u.0], mid, user)
      invariant forall a, b :: 0 <= a < b < |updates| ==> updates[a].0 < updates[b].0
      invariant forall j :: 0 <= j < i && (Owned(messages[j], mid, user) || RepliesTo(messages[j], mid)) ==>
        (j, Tombstone(messages[j], mid, user)) in updates
      invariant updates != [] <==>
        exists j :: 0 <= j < i && (Owned(messages[j], mid, user) || RepliesTo(messages[j], mid))
    {
      var m := messages[i];
      assert forall a :: 0 <= a < |updates| ==> updates[a] in updates;
      if m.id == mid && m.senderId == user {
        updates := updates + [(i, Deleted)];
      } else if m.replyToId == Some(mid) {
        updates := updates + [(i, Msg(m.(replyToId := None, replyToContent := None)))];
      }
    }
  }

  /** The second loop: write each update at its index (`lset`), reporting
      whether any write happened. */
  method ApplyUpdates(messages: seq<Message>, updates: seq<(nat, Entry)>, mid: Id, user: Id)
    returns (list: seq<Entry>, removed: bool)
    requires forall u :: u in updates ==> u.0 < |messages| && u.1 == Tombstone(messages[u.0], mid, user)
    requires forall j :: 0 <= j < |messages| && (Owned(messages[j], mid, user) || RepliesTo(messages[j], mid)) ==>
      (j, Tombstone(messages[j], mid, user)) in updates
    ensures list == Tombstoned(messages, mid, user)
    ensures removed <==> updates != []
  {
    list := seq(|messages|, i requires 0 <= i < |messages| => Msg(messages[i]));
    removed := false;
    for k := 0 to |updates|
      invariant |list| == |messages|
      invariant forall j :: 0 <= j < |list| ==>
        list[j] == Msg(messages[j]) || list[j] == Tombstone(messages[j], mid, user)
      invariant forall u :: u in updates[..k] ==> list[u.0] == u.1
      invariant removed <==> k > 0
    {
      var (index, entry) := updates[k];
      list := list[index := entry];
      removed := true;
    }
    assert updates[..|updates|] == updates;
    forall j | 0 <= j < |list| ensures list[j] == Tombstone(messages[j], mid, user) {
      if Owned(messages[j], mid, user) || RepliesTo(messages[j], mid) {
        assert (j, Tombstone(messages[j], mid, user)) in updates;
      }
    }
  }

  /** unsend_recent_message: collect the per-index updates, write them (a
      placeholder for each owned entry, a cleared copy for each reply), strip
      the placeholders, and answer 404 when no update was written. */
  method UnsendRecent(c: Conversation, mid: Id, user: Id) returns (outcome: UnsendOutcome)
    requires c.Valid() && c.kind == Chat
    modifies c`hot
    ensures c.Valid()
    ensures c.hot == AfterUnsendRecent(old(c.hot), mid, user)
    ensures outcome == if Touches(old(c.hot), mid, user) then Unsent(LastMessageOf(c.hot)) else NotFound
  {
    var messages := c.hot;
    var updates := CollectUpdates(messages, mid, user);
    var list, removed := ApplyUpdates(messages, updates, mid, user);
    c.hot := Compact(list);
    AfterUnsendIsReference(messages, mid, user);
    UnsendReferenceKeepsOrder(messages, mid, user);
    if removed {
      outcome := Unsent(LastMessageOf(c.hot));
    } else {
      outcome := NotFound;
    }
  }

  /** After a successful unsend the caller's message is gone and nothing in
      the hot list points at it any more, so a repeat answers 404. */
  lemma UnsendRecentIdempotent(hot: seq<Message>, mid: Id, user: Id)
    ensures var r := AfterUnsendRecent(hot, mid, user);
      && (forall i :: 0 <= i < |r| ==> !Owned(r[i], mid, user) && !RepliesTo(r[i], mid))
      && !Touches(r, mid, user)
      && AfterUnsendRecent(r, mid, user) == r
  {
    AfterUnsendIsReference(hot, mid, user);
    UnsendReferenceFacts(hot, mid, user);
    var r := AfterUnsendRecent(hot, mid, user);
    AfterUnsendIsReference(r, mid, user);
    UnsendUntouched(r, mid, user);
  }

  /** Reply clearing does not depend on ownership: a caller who owns no entry
      with that id still gets replies to it cleared and a success answer. */
  lemma UnsendRecentClearsRepliesOfOthers(hot: seq<Message>, mid: Id, user: Id, i: nat)
    requires i < |hot| && RepliesTo(hot[i], mid) && !Owned(hot[i], mid, user)
    requires forall j :: 0 <= j < |hot| ==> !Owned(hot[j], mid, user)
    ensures Touches(hot, mid, user)
    ensures |AfterUnsendRecent(hot, mid, user)| == |hot|
    ensures AfterUnsendRecent(hot, mid, user)[i] == ClearReply(hot[i])
    ensures AfterUnsendRecent(hot, mid, user) != hot
  {
    NoOwnedCompact(hot, mid, user);
    assert AfterUnsendRecent(hot, mid, user)[i].replyToId.None?;
  }

  /** Without owned entries nothing is removed: index i keeps its place. */
  lemma {:induction false} NoOwnedCompact(hot: seq<Message>, mid: Id, user: Id)
    requires forall j :: 0 <= j < |hot| ==> !Owned(hot[j], mid, user)
    ensures |AfterUnsendRecent(hot, mid, user)| == |hot|
    ensures forall j :: 0 <= j < |hot| ==>
      AfterUnsendRecent(hot, mid, user)[j] == (if RepliesTo(hot[j], mid) then ClearReply(hot[j]) else hot[j])
  {
    if hot != [] {
      assert Tombstoned(hot, mid, user)[1..] == Tombstoned(hot[1..], mid, user);
      NoOwnedCompact(hot[1..], mid, user);
      var r := AfterUnsendRecent(hot, mid, user);
      var tail := AfterUnsendRecent(hot[1..], mid, user);
      assert r == [if RepliesTo(hot[0], mid) then ClearReply(hot[0]) else hot[0]] + tail;
      forall j | 1 <= j < |hot|
        ensures r[j] == (if RepliesTo(hot[j], mid) then ClearReply(hot[j]) else hot[j])
      {
        assert r[j] == tail[j - 1];
        assert hot[1..][j - 1] == hot[j];
      }
    }
  }

  // ---------------------------------------------------------------------
  // Unsend a message already archived
  // ---------------------------------------------------------------------

  predicate HasId(ms: seq<Message>, mid: Id)
  {
    exists i :: 0 <= i < |ms| && ms[i].id == mid
  }

  predicate HasSender(ms: seq<Message>, user: Id)
  {
    exists i :: 0 <= i < |ms| && ms[i].senderId == user
  }

  /** `$pull: {messages: {id: mid}}`: every element with that id goes,
      every other element stays. */
  function PullId(ms: seq<Message>, mid: Id): (r: seq<Message>)
    ensures forall i :: 0 <= i < |r| ==> r[i].id != mid
    ensures forall m :: m in r <==> m in ms && m.id != mid
    ensures |r| <= |ms|
    ensures !HasId(ms, mid) ==> r == ms
  {
    if ms == [] then []
    else
      assert !HasId(ms, mid) ==> !HasId(ms[1..], mid) by {
        if HasId(ms[1..], mid) {
          var i :| 0 <= i < |ms[1..]| && ms[1..][i].id == mid;
          assert ms[i + 1].id == mid;
        }
      }
      assert [ms[0]] + ms[1..] == ms;
      (if ms[0].id == mid then [] else [ms[0]]) + PullId(ms[1..], mid)
  }

  /** The pull works element by element: pulling from a concatenation is
      concatenating the pulls, so the survivors keep their order. */
  lemma {:induction false} PullIdConcat(a: seq<Message>, b: seq<Message>, mid: Id)
    ensures PullId(a + b, mid) == PullId(a, mid) + PullId(b, mid)
  {
    if a != [] {
      assert (a + b)[1..] == a[1..] + b;
      PullIdConcat(a[1..], b, mid);
    } else {
      assert a + b == b;
    }
  }

  function ReplyClearer(mid: Id): Message -> Message
  {
    m => if RepliesTo(m, mid) then ClearReply(m) else m
  }

  /** The update_one filter: the bucket exists, some element has the id and
      some element (not necessarily the same one) was sent by the caller. */
  predicate OlderMatches(buckets: map<nat, Bucket>, bucketSeq: int, mid: Id, user: Id)
  {
    && 0 <= bucketSeq
    && bucketSeq as nat in buckets
    && HasId(buckets[bucketSeq as nat].messages, mid)
    && HasSender(buckets[bucketSeq as nat].messages, user)
  }

  /** The buckets after a successful unsend_older_message: the pull in the
      addressed bucket, then replies cleared in every bucket. */
  function AfterUnsendOlder(buckets: map<nat, Bucket>, bucketSeq: int, mid: Id, user: Id): map<nat, Bucket>
    requires OlderMatches(buckets, bucketSeq, mid, user)
  {
    var k := bucketSeq as nat;
    MapBuckets(ReplyClearer(mid), buckets[k := buckets[k].(messages := PullId(buckets[k].messages, mid))])
  }

  /** How a handler body ends: with a response it returns, or with an
      HTTPException it raises. */
  datatype BodyEnd = Respond(status: int) | Raise(status: int)

  /** unsend_older_message's body: 200 after the update, or a raised 404
      when nothing was modified. */
  function UnsendOlderBody(found: bool): BodyEnd
  {
    if found then Respond(200) else Raise(404)
  }

  /** The handler as written: its `except Exception` also catches the
      HTTPException raised for a missing message and answers 500. */
  function UnsendOlderStatusAsWritten(found: bool): int
  {
    match UnsendOlderBody(found)
    case Respond(s) => s
    case Raise(_) => 500
  }

  /** As intended: an HTTPException leaves the handler with its own status. */
  function UnsendOlderStatus(found: bool): int
  {
    UnsendOlderBody(found).status
  }

  /** The filter fails exactly when the bucket number is negative or not
      stored, or the bucket holds no element with the id, or none sent by
      the caller. */
  predicate OlderMisses(buckets: map<nat, Bucket>, bucketSeq: int, mid: Id, user: Id)
  {
    || bucketSeq < 0
    || bucketSeq as nat !in buckets
    || !HasId(buckets[bucketSeq as nat].messages, mid)
    || !HasSender(buckets[bucketSeq as nat].messages, user)
  }

  /** As written, every request the filter misses is answered 500, and 404
      is never answered; the two versions differ exactly on those requests. */
  lemma UnsendOlderMissingIs500(buckets: map<nat, Bucket>, bucketSeq: int, mid: Id, user: Id)
    ensures var found := OlderMatches(buckets, bucketSeq, mid, user);
      && (UnsendOlderStatusAsWritten(found) == 500 <==> OlderMisses(buckets, bucketSeq, mid, user))
      && (UnsendOlderStatusAsWritten(found) == 200 <==> !OlderMisses(buckets, bucketSeq, mid, user))
      && UnsendOlderStatusAsWritten(found) != 404
      && (UnsendOlderStatusAsWritten(found) != UnsendOlderStatus(found) <==> OlderMisses(buckets, bucketSeq, mid, user))
  {
  }

  /** As intended, 200 exactly when the filter matches and 404 exactly when
      it misses; 500 is not reached. */
  lemma UnsendOlderStatusIff(buckets: map<nat, Bucket>, bucketSeq: int, mid: Id, user: Id)
    ensures var found := OlderMatches(buckets, bucketSeq, mid, user);
      && (UnsendOlderStatus(found) == 200 <==> !OlderMisses(buckets, bucketSeq, mid, user))
      && (UnsendOlderStatus(found) == 404 <==> OlderMisses(buckets, bucketSeq, mid, user))
      && UnsendOlderStatus(found) != 500
  {
  }

  /** unsend_older_message as written: 500 unless the filter matches;
      otherwise pull, then clear replies across the conversation's buckets.
      The hot list is not swept. */
  method UnsendOlder(c: Conversation, mid: Id, bucketSeq: int, user: Id) returns (status: int)
    requires c.Valid() && c.kind == Chat
    modifies c`buckets
    ensures c.Valid()
    ensures status == UnsendOlderStatusAsWritten(OlderMatches(old(c.buckets), bucketSeq, mid, user))
    ensures OlderMatches(old(c.buckets), bucketSeq, mid, user) ==>
      c.buckets == AfterUnsendOlder(old(c.buckets), bucketSeq, mid, user)
    ensures !OlderMatches(old(c.buckets), bucketSeq, mid, user) ==> c.buckets == old(c.buckets)
  {
    var found := OlderMatches(c.buckets, bucketSeq, mid, user);
    if found {
      var k := bucketSeq as nat;
      c.buckets := c.buckets[k := c.buckets[k].(messages := PullId(c.buckets[k].messages, mid))];
      c.buckets := MapBuckets(ReplyClearer(mid), c.buckets);
    }
    status := UnsendOlderStatusAsWritten(found);
  }

  /** After a successful call the addressed bucket holds no element with the
      id and no bucket references it, so a repeat answers 404; bucket numbers
      are unchanged. */
  lemma UnsendOlderIdempotent(buckets: map<nat, Bucket>, bucketSeq: int, mid: Id, user: Id)
    requires OlderMatches(buckets, bucketSeq, mid, user)
    ensures var r := AfterUnsendOlder(buckets, bucketSeq, mid, user);
      && r.Keys == buckets.Keys
      && !HasId(r[bucketSeq as nat].messages, mid)
      && (forall k :: k in r ==> forall i :: 0 <= i < |r[k].messages| ==> !RepliesTo(r[k].messages[i], mid))
      && !OlderMatches(r, bucketSeq, mid, user)
  {
  }

  /** The ownership test is not bound to the removed element: a caller who
      sent anything in the bucket removes another sender's message. */
  lemma UnsendOlderRemovesOthersMessage(a: Message, b: Message, mid: Id, user: Id, owner: Id, t: Timestamp)
    requires a.id == mid && a.senderId != user
    requires b.id != mid && b.senderId == user
    ensures var buckets := map[0 := Bucket(owner, 0, [a, b], t)];
      && OlderMatches(buckets, 0, mid, user)
      && AfterUnsendOlder(buckets, 0, mid, user)[0].messages == [ReplyClearer(mid)(b)]
  {
    var buckets := map[0 := Bucket(owner, 0, [a, b], t)];
    assert buckets[0].messages[0].id == mid;
    assert buckets[0].messages[1].senderId == user;
    assert PullId([a, b], mid) == [b] by {
      assert [a, b][1..] == [b];
      assert [b][1..] == [];
    }
  }

  // ---------------------------------------------------------------------
  // Fetch an older bucket
  // ---------------------------------------------------------------------

  /** The bucket `offset` places below the newest one (offset 0 is the
      newest); none when there is no bucket or that number is missing. */
  ghost function OlderBucket(buckets: map<nat, Bucket>, offset: int): Option<Bucket>
  {
    if buckets == map[] then None
    else
      var target := NextBucketSequence(buckets) - 1 - offset;
      if 0 <= target && target as nat in buckets then Some(buckets[target as nat]) else None
  }

  /** fetch_older_messages: find the newest bucket, subtract, look up. */
  method FetchOlder(c: Conversation, offset: int) returns (r: Option<Bucket>)
    requires c.Valid()
    ensures r == OlderBucket(c.buckets, offset)
    ensures r.Some? ==> r.value in c.buckets.Values
    ensures r.Some? ==> r.value.sequence as int == NextBucketSequence(c.buckets) - 1 - offset
  {
    if c.buckets == map[] {
      return None;
    }
    var latest := BatchSaveMessages.GetLastMessageBucketSequence(c.buckets);
    var target := latest - 1 - offset;
    if 0 <= target && target as nat in c.buckets {
      r := Some(c.buckets[target as nat]);
    } else {
      r := None;
    }
  }

  /** Right after a drain, offset 0 fetches the bucket just written (the
      moved messages in order) and offset 1 what offset 0 fetched before. */
  lemma FetchAfterDrain(t: Tiers, owner: Id, kind: Kind, now: Timestamp)
    requires |t.hot| > BatchSaveMessages.Threshold(kind)
    ensures var d := BatchSaveMessages.Drain(t, owner, kind, now);
      && OlderBucket(d.buckets, 0).Some?
      && OlderBucket(d.buckets, 0).value.messages == t.hot[..|t.hot| - BatchSaveMessages.Retained(kind)]
      && OlderBucket(d.buckets, 1) == OlderBucket(t.buckets, 0)
  {
    var d := BatchSaveMessages.Drain(t, owner, kind, now);
    var k := NextBucketSequence(t.buckets);
    var b := Bucket(owner, k, t.hot[..|t.hot| - BatchSaveMessages.Retained(kind)], now);
    AddBucketHistory(t.buckets, b);
    assert d.buckets == t.buckets[k := b];
  }
}
