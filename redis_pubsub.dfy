/** Channel naming for published events and the subscriber loop that turns
    pub/sub messages into registry broadcasts (helpers/utils/redis_pubsub.py). */
module RedisPubSub {
  import opened Common
  import opened ConvertToJson
  import opened JsonWire
  import ConnectionManager

  // ---------------------------------------------------------------------
  // publish_message
  // ---------------------------------------------------------------------

  /** The kind prefix: the group flag takes precedence over the call flag. */
  function ChannelPrefix(isGroup: bool, isCall: bool): string
  {
    if isGroup then "group" else if isCall then "call" else "chat"
  }

  function ChannelName(id: string, isGroup: bool, isCall: bool): string
  {
    ChannelPrefix(isGroup, isCall) + ":" + id
  }

  /** What `redis.publish` receives: the channel and the `json.dumps` text. */
  datatype Published = Published(channel: string, data: seq<Token>)

  function Publish(id: string, message: Value, isGroup: bool, isCall: bool): Published
    requires JsonSafe(message)
  {
    Published(ChannelName(id, isGroup, isCall), Encode(message))
  }

  /** With the group flag set, the call flag makes no difference; no prefix
      contains the separator. */
  lemma GroupFlagWins(id: string, isCall: bool)
    ensures ChannelName(id, true, isCall) == ChannelName(id, true, !isCall)
    ensures ChannelName(id, true, isCall) == "group:" + id
    ensures forall g, c :: ':' !in ChannelPrefix(g, c)
  {
    assert ':' !in "group" && ':' !in "call" && ':' !in "chat";
  }

  // ---------------------------------------------------------------------
  // Channel parsing (`channel.split(':')[1]`)
  // ---------------------------------------------------------------------

  /** Python's `str.split(sep)`: the fields between separators, at least one,
      empty fields included. */
  function Split(s: string, sep: char): (parts: seq<string>)
    ensures |parts| >= 1
  {
    if s == [] then [[]]
    else
      var rest := Split(s[1..], sep);
      if s[0] == sep then [[]] + rest
      else [[s[0]] + rest[0]] + rest[1..]
  }

  /** The second field, or None where indexing it raises IndexError. */
  function ChannelId(channel: string): Option<string>
  {
    var parts := Split(channel, ':');
    if |parts| < 2 then None else Some(parts[1])
  }

  lemma {:induction false} SplitNoSeparator(w: string, sep: char)
    requires sep !in w
    ensures Split(w, sep) == [w]
  {
    if w != [] {
      SplitNoSeparator(w[1..], sep);
      assert [w[0]] + w[1..] == w;
    }
  }

  lemma {:induction false} SplitAfterField(w: string, sep: char, rest: string)
    requires sep !in w
    ensures Split(w + [sep] + rest, sep) == [w] + Split(rest, sep)
  {
    var s := w + [sep] + rest;
    if w == [] {
      assert s[0] == sep && s[1..] == rest;
    } else {
      assert s[0] == w[0] && s[1..] == w[1..] + [sep] + rest;
      SplitAfterField(w[1..], sep, rest);
      assert [w[0]] + w[1..] == w;
    }
  }

  /** The first field is the text before the first separator. */
  lemma {:induction false} SplitFirstField(w: string, sep: char)
    ensures var f := Split(w, sep)[0];
      && |f| <= |w|
      && f == w[..|f|]
      && sep !in f
      && (|f| < |w| ==> w[|f|] == sep)
  {
    if w != [] && w[0] != sep {
      SplitFirstField(w[1..], sep);
      var f' := Split(w[1..], sep)[0];
      var f := Split(w, sep)[0];
      assert f == [w[0]] + f';
      assert w[..|f|] == [w[0]] + w[1..][..|f'|];
      if |f| < |w| {
        assert w[|f|] == w[1..][|f'|];
      }
    }
  }

  /** The subscriber recovers from a channel name the id up to its first
      colon, whatever the kind: it gets the id back exactly when the id holds
      no colon, and chat, group and call events for the same id go to the
      same registry key. */
  lemma ChannelIdOfName(id: string, isGroup: bool, isCall: bool)
    ensures ChannelId(ChannelName(id, isGroup, isCall)) == Some(Split(id, ':')[0])
    ensures ChannelId(ChannelName(id, isGroup, isCall)) == Some(id) <==> ':' !in id
    ensures forall g, c :: ChannelId(ChannelName(id, g, c)) == ChannelId(ChannelName(id, isGroup, isCall))
  {
    forall g, c ensures ChannelId(ChannelName(id, g, c)) == Some(Split(id, ':')[0]) {
      GroupFlagWins(id, c);
      var p := ChannelPrefix(g, c);
      assert ChannelName(id, g, c) == p + [':'] + id;
      SplitAfterField(p, ':', id);
    }
    SplitFirstField(id, ':');
    if ':' !in id {
      SplitNoSeparator(id, ':');
    }
  }

  // ---------------------------------------------------------------------
  // redis_subscriber
  // ---------------------------------------------------------------------

  /** One item of `pubsub.listen()`: its type, channel and data. */
  datatype PubSubMessage = PubSubMessage(kind: string, channel: string, data: seq<Token>)

  /** A broadcast the subscriber makes: the registry key and the dict. */
  datatype Delivery = Delivery(key: string, payload: Value)

  /** What the loop does with one item: ignore it, broadcast it, or raise
      (an IndexError on the channel, a decode error on the data), which ends
      the subscriber. */
  datatype Step = Skip | Forward(d: Delivery) | Crash

  function StepOf(msg: PubSubMessage): Step
  {
    if msg.kind != "pmessage" then Skip
    else
      var id := ChannelId(msg.channel);
      if id.None? then Crash
      else
        var parsed := Decode(msg.data);
        if parsed.None? || parsed.value.rest != [] then Crash
        else Forward(Delivery(id.value, parsed.value.value))
  }

  /** The broadcasts made over the feed from index i on, up to the first
      item that raises. */
  function ForwardedFrom(feed: seq<PubSubMessage>, i: nat): seq<Delivery>
    decreases |feed| - i
  {
    if i >= |feed| then []
    else match StepOf(feed[i])
      case Skip => ForwardedFrom(feed, i + 1)
      case Forward(d) => [d] + ForwardedFrom(feed, i + 1)
      case Crash => []
  }

  function Forwarded(feed: seq<PubSubMessage>): seq<Delivery>
  {
    ForwardedFrom(feed, 0)
  }

  /** Some item from index i on raises. */
  predicate CrashesFrom(feed: seq<PubSubMessage>, i: nat)
  {
    exists j :: i <= j < |feed| && StepOf(feed[j]) == Crash
  }

  predicate Crashes(feed: seq<PubSubMessage>)
  {
    CrashesFrom(feed, 0)
  }

  /** Prefixing an item shifts every index by one. */
  lemma {:induction false} ForwardedFromShift(msg: PubSubMessage, rest: seq<PubSubMessage>, i: nat)
    requires i <= |rest|
    ensures ForwardedFrom([msg] + rest, i + 1) == ForwardedFrom(rest, i)
    decreases |rest| - i
  {
    if i < |rest| {
      assert ([msg] + rest)[i + 1] == rest[i];
      ForwardedFromShift(msg, rest, i + 1);
    }
  }

  /** An event published for an id without a colon reaches the subscriber as
      a broadcast to that id of the very dict that was published, whichever
      kind of channel carried it. */
  lemma PublishedIsForwarded(id: string, message: Value, isGroup: bool, isCall: bool)
    requires JsonSafe(message) && ':' !in id
    ensures var p := Publish(id, message, isGroup, isCall);
      StepOf(PubSubMessage("pmessage", p.channel, p.data)) == Forward(Delivery(id, message))
  {
    ChannelIdOfName(id, isGroup, isCall);
    RoundTrip(message);
  }

  /** Items of any other type are passed over without effect. */
  lemma OtherTypesIgnored(msg: PubSubMessage, rest: seq<PubSubMessage>)
    requires msg.kind != "pmessage"
    ensures Forwarded([msg] + rest) == Forwarded(rest)
    ensures Crashes([msg] + rest) <==> Crashes(rest)
  {
    var feed := [msg] + rest;
    assert feed[0] == msg;
    ForwardedFromShift(msg, rest, 0);
    if Crashes(rest) {
      var i :| 0 <= i < |rest| && StepOf(rest[i]) == Crash;
      assert feed[i + 1] == rest[i];
    }
    if Crashes(feed) {
      var i :| 0 <= i < |feed| && StepOf(feed[i]) == Crash;
      assert rest[i - 1] == feed[i];
    }
  }

  /** What one more item of the feed contributes to the broadcasts and to
      whether the subscriber crashes. */
  lemma FeedStep(feed: seq<PubSubMessage>, i: nat)
    requires i < |feed|
    ensures StepOf(feed[i]).Skip? ==> ForwardedFrom(feed, i) == ForwardedFrom(feed, i + 1)
    ensures StepOf(feed[i]).Forward? ==> ForwardedFrom(feed, i) == [StepOf(feed[i]).d] + ForwardedFrom(feed, i + 1)
    ensures StepOf(feed[i]).Crash? ==> ForwardedFrom(feed, i) == [] && CrashesFrom(feed, i)
    ensures !StepOf(feed[i]).Crash? ==> (CrashesFrom(feed, i) <==> CrashesFrom(feed, i + 1))
  {
  }

  /** The registry after one broadcast of a delivery. */
  function AfterBroadcast(m: ConnectionManager.Registry, d: Delivery): ConnectionManager.Registry
  {
    ConnectionManager.Settled(m, PyStr(d.key), ConnectionManager.DeadIds(ConnectionManager.Lookup(m, PyStr(d.key))))
  }

  /** The registry after a sequence of broadcasts, each applied to what the
      previous ones left. */
  function AfterBroadcasts(m: ConnectionManager.Registry, ds: seq<Delivery>): ConnectionManager.Registry
  {
    if ds == [] then m
    else AfterBroadcast(AfterBroadcasts(m, ds[..|ds| - 1]), ds[|ds| - 1])
  }

  /** A forwarded item extends the broadcasts made so far by one, and the
      registry by one more broadcast. */
  lemma ForwardExtends(m: ConnectionManager.Registry, feed: seq<PubSubMessage>, i: nat, done: seq<Delivery>)
    requires i < |feed| && StepOf(feed[i]).Forward?
    requires done + ForwardedFrom(feed, i) == Forwarded(feed)
    ensures (done + [StepOf(feed[i]).d]) + ForwardedFrom(feed, i + 1) == Forwarded(feed)
    ensures AfterBroadcasts(m, done + [StepOf(feed[i]).d]) == AfterBroadcast(AfterBroadcasts(m, done), StepOf(feed[i]).d)
  {
    var d := StepOf(feed[i]).d;
    FeedStep(feed, i);
    assert (done + [d])[..|done + [d]| - 1] == done;
    assert done + ([d] + ForwardedFrom(feed, i + 1)) == (done + [d]) + ForwardedFrom(feed, i + 1);
  }

  /** The loop body for one item: filter on the type, take the id from the
      channel, decode the data and broadcast it. */
  method Handle(manager: ConnectionManager.ConnectionManager, msg: PubSubMessage) returns (step: Step)
    requires manager.Valid()
    modifies manager
    ensures manager.Valid()
    ensures step == StepOf(msg)
    ensures step.Forward? ==> manager.active == AfterBroadcast(old(manager.active), step.d)
    ensures !step.Forward? ==> manager.active == old(manager.active)
  {
    if msg.kind != "pmessage" {
      return Skip;
    }
    var parts := Split(msg.channel, ':');
    if |parts| < 2 {
      return Crash;
    }
    var parsed := Decode(msg.data);
    if parsed.None? || parsed.value.rest != [] {
      return Crash;
    }
    var _ := manager.Broadcast(PyStr(parts[1]));
    step := Forward(Delivery(parts[1], parsed.value.value));
  }

  /** redis_subscriber's listener loop over the items `pubsub.listen()`
      yields; an item that raises ends it. */
  method Subscriber(manager: ConnectionManager.ConnectionManager, feed: seq<PubSubMessage>)
    returns (forwarded: seq<Delivery>, crashed: bool)
    requires manager.Valid()
    modifies manager
    ensures manager.Valid()
    ensures forwarded == Forwarded(feed)
    ensures crashed <==> Crashes(feed)
    ensures manager.active == AfterBroadcasts(old(manager.active), forwarded)
  {
    forwarded := [];
    crashed := false;
    var i := 0;
    while i < |feed|
      invariant 0 <= i <= |feed|
      invariant manager.Valid()
      invariant forwarded + ForwardedFrom(feed, i) == Forwarded(feed)
      invariant Crashes(feed) <==> CrashesFrom(feed, i)
      invariant manager.active == AfterBroadcasts(old(manager.active), forwarded)
    {
      FeedStep(feed, i);
      var step := Handle(manager, feed[i]);
      if step.Crash? {
        crashed := true;
        assert forwarded + [] == forwarded;
        return;
      }
      if step.Forward? {
        ForwardExtends(old(manager.active), feed, i, forwarded);
        forwarded := forwarded + [step.d];
      }
      i := i + 1;
    }
  }
}
