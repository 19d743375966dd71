/** The REST relay cache: a bounded queue per registered content topic. */
module MessageCache {
  import opened Common

  const CACHE_PER_TOPIC: nat := 100

  type Cache = map<string, seq<WakuMessage>>

  function Registered(cache: Cache, topic: string): Cache {
    if topic in cache then cache else cache[topic := []]
  }

  function Recorded(cache: Cache, msg: WakuMessage): Cache {
    if msg.contentTopic !in cache then cache
    else
      var queue := cache[msg.contentTopic];
      var kept := if |queue| >= CACHE_PER_TOPIC then queue[1..] else queue;
      cache[msg.contentTopic := kept + [msg]]
  }

  function Drained(cache: Cache, topic: string): Cache {
    if topic in cache then cache[topic := []] else cache
  }

  function QueueOf(cache: Cache, topic: string): seq<WakuMessage> {
    if topic in cache then cache[topic] else []
  }

  class RelayCache {
    var inner: Cache

    constructor ()
      ensures inner == map[]
    {
      inner := map[];
    }

    method Register(topic: string)
      modifies this
      ensures inner == Registered(old(inner), topic)
    {
      if topic !in inner {
        inner := inner[topic := []];
      }
    }

    method Record(msg: WakuMessage)
      modifies this
      ensures inner == Recorded(old(inner), msg)
    {
      if msg.contentTopic in inner {
        var queue := inner[msg.contentTopic];
        if |queue| >= CACHE_PER_TOPIC {
          queue := queue[1..];
        }
        inner := inner[msg.contentTopic := queue + [msg]];
      }
    }

    method Drain(topic: string) returns (messages: seq<WakuMessage>)
      modifies this
      ensures messages == QueueOf(old(inner), topic)
      ensures inner == Drained(old(inner), topic)
    {
      messages := [];
      if topic in inner {
        messages := inner[topic];
        inner := inner[topic := []];
      }
    }
  }

  // ----- Histories

  datatype Call = Register(topic: string) | Record(msg: WakuMessage) | Drain(topic: string)

  function Next(cache: Cache, call: Call): Cache {
    match call
    case Register(topic) => Registered(cache, topic)
    case Record(msg) => Recorded(cache, msg)
    case Drain(topic) => Drained(cache, topic)
  }

  function After(calls: seq<Call>): Cache {
    if calls == [] then map[] else Next(After(calls[..|calls| - 1]), calls[|calls| - 1])
  }

  ghost predicate EverRegistered(calls: seq<Call>, topic: string) {
    Register(topic) in calls
  }

  /** Where counting starts for a topic: after its last drain or its first
      registration, whichever is later. */
  ghost predicate StartsAt(calls: seq<Call>, topic: string, start: nat) {
    && 0 < start <= |calls|
    && (calls[start - 1] == (if EverRegistered(calls[..start - 1], topic) then Drain(topic) else Register(topic)))
    && Drain(topic) !in calls[start..]
  }

  lemma StartStays(calls: seq<Call>, topic: string, start: nat)
    requires calls != [] && calls[|calls| - 1] != Drain(topic)
    requires StartsAt(calls[..|calls| - 1], topic, start)
    ensures StartsAt(calls, topic, start)
  {
    var n := |calls| - 1;
    assert calls[..n][..start - 1] == calls[..start - 1];
    assert calls[start..] == calls[..n][start..] + [calls[n]];
  }

  lemma StartIsUnique(calls: seq<Call>, topic: string, a: nat, b: nat)
    requires StartsAt(calls, topic, a) && StartsAt(calls, topic, b) && a <= b
    ensures a == b
  {
  }

  function RecordedOn(calls: seq<Call>, topic: string): seq<WakuMessage> {
    if calls == [] then []
    else
      var n := |calls| - 1;
      var earlier := RecordedOn(calls[..n], topic);
      if calls[n].Record? && calls[n].msg.contentTopic == topic then earlier + [calls[n].msg] else earlier
  }

  function Last(messages: seq<WakuMessage>, n: nat): seq<WakuMessage> {
    if |messages| <= n then messages else messages[|messages| - n..]
  }

  lemma LastOneMore(messages: seq<WakuMessage>, msg: WakuMessage)
    ensures Last(messages + [msg], CACHE_PER_TOPIC)
            == (var queue := Last(messages, CACHE_PER_TOPIC);
                if |queue| >= CACHE_PER_TOPIC then queue[1..] + [msg] else queue + [msg])
  {
  }

  lemma {:induction false} RegisteredTopics(calls: seq<Call>, topic: string)
    ensures topic in After(calls) <==> EverRegistered(calls, topic)
  {
    if calls != [] {
      var n := |calls| - 1;
      RegisteredTopics(calls[..n], topic);
      assert calls == calls[..n] + [calls[n]];
    }
  }

  lemma RecordedOneMore(calls: seq<Call>, topic: string, start: nat)
    requires start < |calls|
    ensures var n := |calls| - 1;
      var earlier := RecordedOn(calls[..n][start..], topic);
      RecordedOn(calls[start..], topic)
      == if calls[n].Record? && calls[n].msg.contentTopic == topic then earlier + [calls[n].msg] else earlier
  {
    var n := |calls| - 1;
    assert calls[start..][..n - start] == calls[..n][start..];
  }

  lemma QueueAfter(cache: Cache, call: Call, topic: string)
    ensures var queue := QueueOf(cache, topic);
      QueueOf(Next(cache, call), topic) ==
        if call == Drain(topic) then []
        else if topic in cache && call.Record? && call.msg.contentTopic == topic then
          (if |queue| >= CACHE_PER_TOPIC then queue[1..] + [call.msg] else queue + [call.msg])
        else queue
  {
  }

  lemma {:induction false} CachedExactly(calls: seq<Call>, topic: string) returns (start: nat)
    requires EverRegistered(calls, topic)
    ensures StartsAt(calls, topic, start)
    ensures QueueOf(After(calls), topic) == Last(RecordedOn(calls[start..], topic), CACHE_PER_TOPIC)
  {
    var n := |calls| - 1;
    var past, call := calls[..n], calls[n];
    assert calls == past + [call];
    RegisteredTopics(past, topic);
    QueueAfter(After(past), call, topic);
    if EverRegistered(past, topic) && call != Drain(topic) {
      start := CachedExactly(past, topic);
      StartStays(calls, topic, start);
      RecordedOneMore(calls, topic, start);
      if call.Record? && call.msg.contentTopic == topic {
        LastOneMore(RecordedOn(past[start..], topic), call.msg);
      }
    } else {
      start := n + 1;
      assert calls[start..] == [];
    }
  }

  /** After any calls, a drain returns in arrival order exactly the last 100 (or
      all, if fewer) of the messages recorded on the topic since its first
      registration or last drain, whichever is later; and nothing if it was never
      registered. */
  lemma DrainReturnsExactly(calls: seq<Call>, topic: string, start: nat)
    ensures !EverRegistered(calls, topic) ==> QueueOf(After(calls), topic) == []
    ensures EverRegistered(calls, topic) <==> exists s: nat :: StartsAt(calls, topic, s)
    ensures StartsAt(calls, topic, start) ==>
              var recorded := RecordedOn(calls[start..], topic);
              QueueOf(After(calls), topic) == if |recorded| <= 100 then recorded else recorded[|recorded| - 100..]
  {
    RegisteredTopics(calls, topic);
    forall s: nat | StartsAt(calls, topic, s) ensures EverRegistered(calls, topic) {
      assert calls[s - 1] in calls && forall c :: c in calls[..s - 1] ==> c in calls;
    }
    if EverRegistered(calls, topic) {
      var s := CachedExactly(calls, topic);
      if StartsAt(calls, topic, start) {
        if s <= start { StartIsUnique(calls, topic, s, start); } else { StartIsUnique(calls, topic, start, s); }
      }
    }
  }
}
