/** The archiver (background_tasks/batch_save_messages.py): on every tick it
    moves the older part of each over-long hot list into a new cold bucket. */
module BatchSaveMessages {
  import opened Common
  import opened Messages
  import opened Storage

  /** A chat list is drained when longer than 250 and keeps its last 50. */
  const ChatThreshold: nat := 250
  const ChatRetained: nat := 50
  /** A group list is drained when longer than 300 and keeps its last 100. */
  const GroupThreshold: nat := 300
  const GroupRetained: nat := 100

  function Threshold(kind: Kind): nat
  {
    if kind == Chat then ChatThreshold else GroupThreshold
  }

  function Retained(kind: Kind): (d: nat)
    ensures d < Threshold(kind)
  {
    if kind == Chat then ChatRetained else GroupRetained
  }

  /** `any(msg for msg in messages_to_save if not msg.get("seen", False))`:
      the generator yields the (always non-empty, so truthy) unseen dicts. */
  predicate HasUnseen(ms: seq<Message>)
  {
    exists i :: 0 <= i < |ms| && !IsSeen(ms[i])
  }

  /** get_last_message_bucket_sequence: the number of the highest bucket plus
      one, or 0 when there is none. The sorted `find_one` is a scan here. */
  method GetLastMessageBucketSequence(buckets: map<nat, Bucket>) returns (n: nat)
    ensures n == NextBucketSequence(buckets)
  {
    n := 0;
    var left := buckets.Keys;
    while left != {}
      invariant left <= buckets.Keys
      invariant forall k :: k in buckets && k !in left ==> k < n
      invariant n == 0 || (n - 1 in buckets && n - 1 !in left)
      invariant n == 0 ==> left == buckets.Keys
      decreases left
    {
      var k :| k in left;
      if n <= k {
        n := k + 1;
      }
      left := left - {k};
    }
    var m := NextBucketSequence(buckets);
    if buckets != map[] {
      assert n != 0 by {
        var k :| k in buckets;
      }
      assert m - 1 < n && n - 1 < m;
    }
  }

  /** One drain of one conversation: what the tick does to its three tiers. */
  ghost function Drain(t: Tiers, owner: Id, kind: Kind, now: Timestamp): Tiers
  {
    if |t.hot| <= Threshold(kind) then t
    else
      var cut := |t.hot| - Retained(kind);
      var moved := t.hot[..cut];
      var k := NextBucketSequence(t.buckets);
      Tiers(t.hot[cut..], t.buckets[k := Bucket(owner, k, moved, now)], t.unseen || HasUnseen(moved))
  }

  /** A list no longer than the threshold is left alone; a longer one is cut
      into the moved prefix (length minus the retained count), stored as one new
      bucket numbered one above the highest, and the retained tail (exactly the
      retained count) that becomes the new hot list. The flag is set exactly
      when some moved message is unseen, and is never cleared by a drain. */
  lemma DrainShape(t: Tiers, owner: Id, kind: Kind, now: Timestamp)
    ensures |t.hot| <= Threshold(kind) ==> Drain(t, owner, kind, now) == t
    ensures |t.hot| > Threshold(kind) ==>
      var d := Drain(t, owner, kind, now);
      var k := NextBucketSequence(t.buckets);
      && (forall j :: j in t.buckets ==> j < k)
      && d.buckets.Keys == t.buckets.Keys + {k}
      && (forall j :: j in t.buckets ==> d.buckets[j] == t.buckets[j])
      && d.buckets[k].sequence == k
      && d.buckets[k].messages + d.hot == t.hot
      && |d.buckets[k].messages| == |t.hot| - Retained(kind)
      && |d.hot| == Retained(kind)
      && (d.unseen <==> t.unseen || HasUnseen(d.buckets[k].messages))
  {
    if |t.hot| > Threshold(kind) {
      var cut := |t.hot| - Retained(kind);
      assert t.hot[..cut] + t.hot[cut..] == t.hot;
    }
  }

  /** The archive followed by the hot list lists the same messages, in the
      same order, before and after a drain: nothing is lost, duplicated or
      reordered. */
  lemma DrainPreservesHistory(t: Tiers, owner: Id, kind: Kind, now: Timestamp)
    ensures var d := Drain(t, owner, kind, now);
      ColdHistory(d.buckets) + d.hot == ColdHistory(t.buckets) + t.hot
  {
    if |t.hot| > Threshold(kind) {
      var cut := |t.hot| - Retained(kind);
      var k := NextBucketSequence(t.buckets);
      var b := Bucket(owner, k, t.hot[..cut], now);
      AddBucketHistory(t.buckets, b);
      assert t.hot[..cut] + t.hot[cut..] == t.hot;
    }
  }

  /** Group messages carry no `seen` key, so every group drain raises the
      group's flag. */
  lemma GroupDrainRaisesFlag(t: Tiers, owner: Id, now: Timestamp)
    requires |t.hot| > GroupThreshold
    requires forall i :: 0 <= i < |t.hot| ==> t.hot[i].seen.None?
    ensures Drain(t, owner, Group, now).unseen
  {
    var moved := t.hot[..|t.hot| - GroupRetained];
    assert !IsSeen(moved[0]);
  }

  /** A chat list of 251 messages and no archive yet: bucket 0 receives the
      first 201 messages and the hot list keeps the last 50. */
  lemma FirstChatDrain(t: Tiers, owner: Id, now: Timestamp)
    requires |t.hot| == 251 && t.buckets == map[]
    ensures var d := Drain(t, owner, Chat, now);
      && d.buckets.Keys == {0}
      && d.buckets[0].messages == t.hot[..201]
      && d.hot == t.hot[201..]
  {
  }

  /** A drain keeps the tail of the hot list, so the next message is
      numbered as it would have been without the drain. */
  lemma DrainKeepsNextSequence(t: Tiers, owner: Id, kind: Kind, now: Timestamp)
    ensures NextSequence(Drain(t, owner, kind, now).hot) == NextSequence(t.hot)
  {
    if |t.hot| > Threshold(kind) {
      var cut := |t.hot| - Retained(kind);
      var kept := t.hot[cut..];
      assert kept[|kept| - 1] == t.hot[|t.hot| - 1];
    }
  }

  /** The retained count is below the threshold, so a drained list is not
      drained again: a second tick straight after a drain changes nothing. */
  lemma DrainIdempotent(t: Tiers, owner: Id, kind: Kind, now: Timestamp, later: Timestamp)
    ensures var d := Drain(t, owner, kind, now);
      Drain(d, owner, kind, later) == d
  {
  }

  /** A drain keeps a conversation well formed. */
  lemma DrainKeepsValid(t: Tiers, owner: Id, kind: Kind, now: Timestamp)
    requires forall k :: k in t.buckets ==> t.buckets[k].sequence == k && t.buckets[k].ownerId == owner
    requires Increasing(t.hot)
    ensures var d := Drain(t, owner, kind, now);
      && (forall k :: k in d.buckets ==> d.buckets[k].sequence == k && d.buckets[k].ownerId == owner)
      && Increasing(d.hot)
  {
    if |t.hot| > Threshold(kind) {
      IncreasingSlice(t.hot, |t.hot| - Retained(kind), |t.hot|);
      assert t.hot[|t.hot| - Retained(kind)..] == t.hot[|t.hot| - Retained(kind)..|t.hot|];
    }
  }

  /** One conversation's share of a tick: read the list, cut it, raise the
      flag if needed, insert the bucket, then delete the list and push the
      retained messages back one by one. */
  method DrainConversation(c: Conversation, now: Timestamp) returns (drained: bool)
    requires c.Valid()
    modifies c
    ensures c.Valid()
    ensures drained <==> |old(c.hot)| > Threshold(c.kind)
    ensures c.State() == Drain(old(c.State()), c.id, c.kind, now)
    ensures c.History() == old(c.History())
  {
    ghost var before := c.State();
    DrainKeepsValid(before, c.id, c.kind, now);
    DrainPreservesHistory(before, c.id, c.kind, now);
    var messages := c.hot;
    drained := |messages| > Threshold(c.kind);
    if drained {
      var cut := |messages| - Retained(c.kind);
      var toSave := messages[..cut];
      var remaining := messages[cut..];
      if HasUnseen(toSave) {
        c.unseen := true;
      }
      var k := GetLastMessageBucketSequence(c.buckets);
      c.buckets := c.buckets[k := Bucket(c.id, k, toSave, now)];
      c.hot := [];
      for i := 0 to |remaining|
        invariant c.hot == remaining[..i]
        invariant c.unseen == (before.unseen || HasUnseen(toSave))
        invariant c.buckets == before.buckets[k := Bucket(c.id, k, toSave, now)]
      {
        c.hot := c.hot + [remaining[i]];
      }
      assert remaining[..|remaining|] == remaining;
    }
  }

  /** The drains over every list of one kind, in key order. */
  method DrainAll(cs: seq<Conversation>, now: Timestamp)
    requires forall i, j :: 0 <= i < j < |cs| ==> cs[i] != cs[j]
    requires forall i :: 0 <= i < |cs| ==> cs[i].Valid()
    modifies set i | 0 <= i < |cs| :: cs[i]
    ensures forall i :: 0 <= i < |cs| ==> cs[i].Valid()
    ensures forall i :: 0 <= i < |cs| ==>
      cs[i].State() == Drain(old(cs[i].State()), cs[i].id, cs[i].kind, now)
  {
    for n := 0 to |cs|
      invariant forall i :: 0 <= i < |cs| ==> cs[i].Valid()
      invariant forall i :: 0 <= i < n ==>
        cs[i].State() == Drain(old(cs[i].State()), cs[i].id, cs[i].kind, now)
      invariant forall i :: n <= i < |cs| ==> cs[i].State() == old(cs[i].State())
    {
      var _ := DrainConversation(cs[n], now);
    }
  }

  /** One iteration of batch_save_messages' endless loop: every chat list,
      then every group list. */
  method BatchSaveTick(chats: seq<Conversation>, groups: seq<Conversation>, now: Timestamp)
    requires forall i :: 0 <= i < |chats| ==> chats[i].kind == Chat
    requires forall i :: 0 <= i < |groups| ==> groups[i].kind == Group
    requires forall i, j :: 0 <= i < j < |chats| ==> chats[i] != chats[j]
    requires forall i, j :: 0 <= i < j < |groups| ==> groups[i] != groups[j]
    requires forall i :: 0 <= i < |chats| ==> chats[i].Valid()
    requires forall i :: 0 <= i < |groups| ==> groups[i].Valid()
    modifies set i | 0 <= i < |chats| :: chats[i]
    modifies set i | 0 <= i < |groups| :: groups[i]
    ensures forall i :: 0 <= i < |chats| ==>
      chats[i].Valid() && chats[i].State() == Drain(old(chats[i].State()), chats[i].id, Chat, now)
    ensures forall i :: 0 <= i < |groups| ==>
      groups[i].Valid() && groups[i].State() == Drain(old(groups[i].State()), groups[i].id, Group, now)
  {
    DrainAll(chats, now);
    DrainAll(groups, now);
  }
}
