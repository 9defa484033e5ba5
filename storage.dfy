/** The two storage tiers of one conversation, as the handlers and the
    archiver see them: the Redis list `{kind}:{id}:messages` (the hot list),
    the MongoDB `messages` documents of that conversation keyed by
    `message_bucket_sequence` (the buckets), and whether the key
    `{kind}:{id}:unseen_in_mongo` exists (the unseen flag). */
module Storage {
  import opened Common
  import opened Messages

  datatype Kind = Chat | Group

  /** The three things a handler or an archiver tick reads and writes. */
  datatype Tiers = Tiers(hot: seq<Message>, buckets: map<nat, Bucket>, unseen: bool)

  class Conversation {
    const id: Id
    const kind: Kind
    var hot: seq<Message>
    var buckets: map<nat, Bucket>
    var unseen: bool

    /** Every bucket is stored under its own number and belongs to this
        conversation; the hot list is ordered by sequence. */
    ghost predicate Valid()
      reads this
    {
      && (forall k :: k in buckets ==> buckets[k].sequence == k && buckets[k].ownerId == id)
      && Increasing(hot)
    }

    /** The conversation's messages oldest first: buckets by number, then the
        hot list. */
    ghost function History(): seq<Message>
      reads this
    {
      ColdHistory(buckets) + hot
    }

    function State(): Tiers
      reads this
    {
      Tiers(hot, buckets, unseen)
    }

    /** A conversation with nothing stored yet. */
    constructor (id: Id, kind: Kind)
      ensures this.id == id && this.kind == kind
      ensures hot == [] && buckets == map[] && !unseen
      ensures Valid()
    {
      this.id := id;
      this.kind := kind;
      hot := [];
      buckets := map[];
      unseen := false;
    }
  }
}
