/** Messages as the handlers write them into a conversation's hot list, the
    cold buckets the archiver writes, and the pure queries over both: the
    next message sequence, the next bucket sequence, and the history the two
    tiers hold together. */
module Messages {
  import opened Common

  /** A stored message. Keys that a message may lack are Options: a group
      message has no `seen`, `seen_timestamp`, `reply_to_content` or `action`
      key, and `seen == None` stands for the missing key. */
  datatype Message = Message(
    id: Id,
    senderId: Id,
    replyToId: Option<Id>,
    replyToContent: Option<string>,
    content: string,
    sequence: int,
    seen: Option<bool>,
    seenTimestamp: Option<Timestamp>,
    action: Option<string>,
    createdAt: Timestamp)

  /** An archived page of one conversation: `chat_id` or `group_id`,
      `message_bucket_sequence`, the moved messages and `created_at`. */
  datatype Bucket = Bucket(ownerId: Id, sequence: nat, messages: seq<Message>, createdAt: Timestamp)

  /** `msg.get("seen", False)` is truthy. */
  predicate IsSeen(m: Message)
  {
    m.seen == Some(true)
  }

  /** Sequence numbers strictly increase along a list. */
  ghost predicate Increasing(ms: seq<Message>)
  {
    forall i, j :: 0 <= i < j < |ms| ==> ms[i].sequence < ms[j].sequence
  }

  // ---------------------------------------------------------------------
  // Message sequencing (get_message_sequence_plus_one)
  // ---------------------------------------------------------------------

  /** The tail's sequence plus one, or 0 for an empty hot list. Only the hot
      list is consulted, never the buckets. */
  function NextSequence(hot: seq<Message>): int
  {
    if hot == [] then 0 else hot[|hot| - 1].sequence + 1
  }

  /** On an ordered list the next sequence exceeds every sequence present, so
      appending a message numbered with it keeps the list ordered. */
  lemma NextSequenceIsFresh(hot: seq<Message>, m: Message)
    requires Increasing(hot)
    requires m.sequence == NextSequence(hot)
    ensures forall i :: 0 <= i < |hot| ==> hot[i].sequence < NextSequence(hot)
    ensures Increasing(hot + [m])
    ensures NextSequence(hot + [m]) == NextSequence(hot) + 1
  {
    assert forall i :: 0 <= i < |hot| ==> hot[i].sequence <= hot[|hot| - 1].sequence by {
      forall i | 0 <= i < |hot| ensures hot[i].sequence <= hot[|hot| - 1].sequence {
        if i < |hot| - 1 {
          assert hot[i].sequence < hot[|hot| - 1].sequence;
        }
      }
    }
  }

  /** Every part of an ordered list cut out by indices is ordered. */
  lemma IncreasingSlice(ms: seq<Message>, lo: nat, hi: nat)
    requires Increasing(ms)
    requires lo <= hi <= |ms|
    ensures Increasing(ms[lo..hi])
  {
    assert forall i :: 0 <= i < hi - lo ==> ms[lo..hi][i] == ms[lo + i];
  }

  // ---------------------------------------------------------------------
  // Element-wise rewriting of message lists and bucket maps
  // ---------------------------------------------------------------------

  function MapMessages(f: Message -> Message, ms: seq<Message>): (r: seq<Message>)
    ensures |r| == |ms|
    ensures forall i :: 0 <= i < |ms| ==> r[i] == f(ms[i])
  {
    seq(|ms|, i requires 0 <= i < |ms| => f(ms[i]))
  }

  lemma MapMessagesConcat(f: Message -> Message, a: seq<Message>, b: seq<Message>)
    ensures MapMessages(f, a + b) == MapMessages(f, a) + MapMessages(f, b)
  {
  }

  /** The same rewriting applied to every message of every bucket (an
      `update_many` with an array filter): keys, numbers and order stay. */
  function MapBuckets(f: Message -> Message, buckets: map<nat, Bucket>): (r: map<nat, Bucket>)
    ensures r.Keys == buckets.Keys
    ensures forall k :: k in buckets ==>
      r[k] == buckets[k].(messages := MapMessages(f, buckets[k].messages))
  {
    map k | k in buckets :: buckets[k].(messages := MapMessages(f, buckets[k].messages))
  }

  // ---------------------------------------------------------------------
  // Bucket sequencing (get_last_message_bucket_sequence)
  // ---------------------------------------------------------------------

  /** The largest element of a non-empty set of bucket numbers. */
  ghost function MaxKey(ks: set<nat>): (m: nat)
    requires ks != {}
    ensures m in ks
    ensures forall k :: k in ks ==> k <= m
    decreases |ks|
  {
    var k :| k in ks;
    if ks == {k} then k
    else
      var rest := MaxKey(ks - {k});
      assert forall j :: j in ks ==> j == k || j in ks - {k};
      if rest < k then k else rest
  }

  /** 0 for a conversation without buckets, else the largest bucket number
      plus one. */
  ghost function NextBucketSequence(buckets: map<nat, Bucket>): (n: nat)
    ensures buckets == map[] ==> n == 0
    ensures buckets != map[] ==> n - 1 in buckets
    ensures forall k :: k in buckets ==> k < n
  {
    if buckets == map[] then 0
    else
      assert buckets.Keys != {} by {
        var k :| k in buckets;
      }
      MaxKey(buckets.Keys) + 1
  }

  /** The buckets numbered below n, oldest first, flattened. */
  ghost function ColdUpTo(buckets: map<nat, Bucket>, n: nat): seq<Message>
  {
    if n == 0 then []
    else ColdUpTo(buckets, n - 1) + (if n - 1 in buckets then buckets[n - 1].messages else [])
  }

  /** Everything archived for a conversation, in bucket order. */
  ghost function ColdHistory(buckets: map<nat, Bucket>): seq<Message>
  {
    ColdUpTo(buckets, NextBucketSequence(buckets))
  }

  lemma {:induction false} ColdUpToAgree(a: map<nat, Bucket>, b: map<nat, Bucket>, n: nat)
    requires forall k :: k < n ==> (k in a <==> k in b) && (k in a ==> a[k] == b[k])
    ensures ColdUpTo(a, n) == ColdUpTo(b, n)
  {
    if n > 0 {
      ColdUpToAgree(a, b, n - 1);
    }
  }

  /** Inserting a bucket under the next bucket number appends its messages to
      the archived history. */
  lemma AddBucketHistory(buckets: map<nat, Bucket>, b: Bucket)
    requires b.sequence == NextBucketSequence(buckets)
    ensures NextBucketSequence(buckets[b.sequence := b]) == b.sequence + 1
    ensures ColdHistory(buckets[b.sequence := b]) == ColdHistory(buckets) + b.messages
  {
    var k := b.sequence;
    var nb := buckets[k := b];
    var n := NextBucketSequence(nb);
    assert k in nb;
    assert n == k + 1;
    ColdUpToAgree(nb, buckets, k);
  }

  lemma {:induction false} ColdUpToMap(f: Message -> Message, buckets: map<nat, Bucket>, n: nat)
    ensures ColdUpTo(MapBuckets(f, buckets), n) == MapMessages(f, ColdUpTo(buckets, n))
  {
    if n > 0 {
      ColdUpToMap(f, buckets, n - 1);
      var tail := if n - 1 in buckets then buckets[n - 1].messages else [];
      MapMessagesConcat(f, ColdUpTo(buckets, n - 1), tail);
    }
  }

  /** Rewriting every bucket element-wise rewrites the archived history
      element-wise: no message moves, appears or disappears. */
  lemma ColdHistoryMap(f: Message -> Message, buckets: map<nat, Bucket>)
    ensures ColdHistory(MapBuckets(f, buckets)) == MapMessages(f, ColdHistory(buckets))
  {
    var mb := MapBuckets(f, buckets);
    assert mb.Keys == buckets.Keys;
    if buckets != map[] {
      assert NextBucketSequence(mb) - 1 in buckets;
      assert NextBucketSequence(buckets) - 1 in mb;
    }
    assert NextBucketSequence(mb) == NextBucketSequence(buckets);
    ColdUpToMap(f, buckets, NextBucketSequence(buckets));
  }
}
