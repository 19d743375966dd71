/** 12/WAKU2-FILTER on the serving side: per-peer subscriptions and who is pushed to. */
module FilterRegistry {
  import opened Common

  datatype FilterSub = FilterSub(pubsubTopic: Option<string>, contentTopics: seq<string>)

  const PING := 0
  const SUBSCRIBE := 1
  const UNSUBSCRIBE := 2
  const UNSUBSCRIBE_ALL := 3

  datatype FilterRequest = FilterRequest(requestId: string, kind: int, sub: FilterSub)

  datatype FilterResponse = FilterResponse(requestId: string, statusCode: nat, statusDesc: string)

  type Registry = map<Peer, seq<FilterSub>>

  predicate Matches(sub: FilterSub, topic: string, contentTopic: string) {
    && (sub.pubsubTopic.Some? ==> sub.pubsubTopic.value == topic)
    && (sub.contentTopics == [] || contentTopic in sub.contentTopics)
  }

  function SubsOf(registry: Registry, peer: Peer): seq<FilterSub> {
    if peer in registry then registry[peer] else []
  }

  function Retain(subs: seq<FilterSub>, dropped: FilterSub): seq<FilterSub> {
    if subs == [] then []
    else if subs[0] == dropped then Retain(subs[1..], dropped)
    else [subs[0]] + Retain(subs[1..], dropped)
  }

  function Applied(registry: Registry, peer: Peer, req: FilterRequest): Registry {
    if req.kind == SUBSCRIBE then registry[peer := SubsOf(registry, peer) + [req.sub]]
    else if req.kind == UNSUBSCRIBE && peer in registry then registry[peer := Retain(registry[peer], req.sub)]
    else if req.kind == UNSUBSCRIBE_ALL then registry - {peer}
    else registry
  }

  class FilterTable {
    var filters: Registry

    constructor ()
      ensures filters == map[]
    {
      filters := map[];
    }

    method ApplyFilterRequest(peer: Peer, req: FilterRequest) returns (ack: FilterResponse)
      modifies this
      ensures filters == Applied(old(filters), peer, req)
      ensures ack == if 0 <= req.kind <= 3 then FilterResponse(req.requestId, 200, "OK")
                     else FilterResponse(req.requestId, 400, "unknown type")
    {
      if req.kind == SUBSCRIBE {
        var subs := if peer in filters then filters[peer] else [];
        filters := filters[peer := subs + [req.sub]];
      } else if req.kind == UNSUBSCRIBE {
        if peer in filters {
          var kept := RetainLoop(filters[peer], req.sub);
          filters := filters[peer := kept];
        }
      } else if req.kind == UNSUBSCRIBE_ALL {
        filters := filters - {peer};
      } else if req.kind != PING {
        return FilterResponse(req.requestId, 400, "unknown type");
      }
      return FilterResponse(req.requestId, 200, "OK");
    }
  }

  method RetainLoop(subs: seq<FilterSub>, dropped: FilterSub) returns (kept: seq<FilterSub>)
    ensures kept == Retain(subs, dropped)
  {
    kept := [];
    for i := 0 to |subs|
      invariant kept + Retain(subs[i..], dropped) == Retain(subs, dropped)
    {
      if subs[i].pubsubTopic != dropped.pubsubTopic || subs[i].contentTopics != dropped.contentTopics {
        kept := kept + [subs[i]];
      }
    }
  }

  // ----- Pushing

  ghost predicate HasMatch(subs: seq<FilterSub>, topic: string, contentTopic: string) {
    exists sub :: sub in subs && Matches(sub, topic, contentTopic)
  }

  /** The peers with a filter that matches. */
  ghost function Targets(registry: Registry, topic: string, contentTopic: string): set<Peer> {
    set peer | peer in registry && HasMatch(registry[peer], topic, contentTopic)
  }

  method AnyMatches(subs: seq<FilterSub>, topic: string, contentTopic: string) returns (found: bool)
    ensures found <==> HasMatch(subs, topic, contentTopic)
  {
    for i := 0 to |subs|
      invariant forall j :: 0 <= j < i ==> !Matches(subs[j], topic, contentTopic)
    {
      if Matches(subs[i], topic, contentTopic) {
        return true;
      }
    }
    return false;
  }

  ghost predicate NoDuplicates(peers: seq<Peer>) {
    forall i, j :: 0 <= i < j < |peers| ==> peers[i] != peers[j]
  }

  lemma {:induction false} DistinctAreAsMany(peers: seq<Peer>, all: set<Peer>)
    requires NoDuplicates(peers) && forall peer :: peer in peers <==> peer in all
    ensures |peers| == |all|
  {
    if peers == [] {
      assert all == {};
    } else {
      var n := |peers| - 1;
      assert peers == peers[..n] + [peers[n]];
      DistinctAreAsMany(peers[..n], all - {peers[n]});
      assert peers[n] in all;
    }
  }

  /** Visits the registry in some order and collects whom to push to. */
  method PushFilterMatches(registry: Registry, topic: string, contentTopic: string)
    returns (targets: seq<Peer>, pushed: nat)
    ensures NoDuplicates(targets)
    ensures forall peer :: peer in targets <==> peer in Targets(registry, topic, contentTopic)
    ensures pushed == |targets| == |Targets(registry, topic, contentTopic)|
  {
    targets := [];
    var left := registry.Keys;
    while left != {}
      invariant left <= registry.Keys && NoDuplicates(targets)
      invariant forall peer :: peer in targets <==> peer in Targets(registry, topic, contentTopic) && peer !in left
      decreases |left|
    {
      var peer :| peer in left;
      left := left - {peer};
      var found := AnyMatches(registry[peer], topic, contentTopic);
      if found {
        targets := targets + [peer];
      }
    }
    DistinctAreAsMany(targets, Targets(registry, topic, contentTopic));
    pushed := |targets|;
  }

  // ----- The registry against its history

  datatype Entry = Entry(peer: Peer, req: FilterRequest)

  function After(history: seq<Entry>): Registry {
    if history == [] then map[]
    else
      var n := |history| - 1;
      Applied(After(history[..n]), history[n].peer, history[n].req)
  }

  /** A request of type 1. */
  predicate Subscribes(e: Entry, peer: Peer, sub: FilterSub) {
    e.peer == peer && e.req.kind == 1 && e.req.sub == sub
  }

  /** A request of type 2 for that filter, or of type 3. */
  predicate Cancels(e: Entry, peer: Peer, sub: FilterSub) {
    e.peer == peer && ((e.req.kind == 2 && e.req.sub == sub) || e.req.kind == 3)
  }

  /** Entry i subscribed, and no later entry of the peer cancelled that very filter. */
  ghost predicate LiveAt(history: seq<Entry>, peer: Peer, sub: FilterSub, i: int) {
    && 0 <= i < |history|
    && Subscribes(history[i], peer, sub)
    && forall j :: i < j < |history| ==> !Cancels(history[j], peer, sub)
  }

  lemma {:induction false} RetainDrops(subs: seq<FilterSub>, dropped: FilterSub, sub: FilterSub)
    ensures sub in Retain(subs, dropped) <==> sub in subs && sub != dropped
  {
    if subs != [] {
      RetainDrops(subs[1..], dropped, sub);
      assert subs == [subs[0]] + subs[1..];
    }
  }

  lemma AppliedHolds(registry: Registry, e: Entry, peer: Peer, sub: FilterSub)
    ensures sub in SubsOf(Applied(registry, e.peer, e.req), peer)
            <==> Subscribes(e, peer, sub) || (sub in SubsOf(registry, peer) && !Cancels(e, peer, sub))
  {
    if e.peer in registry {
      RetainDrops(registry[e.peer], e.req.sub, sub);
    }
  }

  lemma {:induction false} RegistryHoldsLive(history: seq<Entry>, peer: Peer, sub: FilterSub)
    ensures sub in SubsOf(After(history), peer) <==> exists i :: LiveAt(history, peer, sub, i)
  {
    if history != [] {
      var n := |history| - 1;
      var past := history[..n];
      RegistryHoldsLive(past, peer, sub);
      AppliedHolds(After(past), history[n], peer, sub);
      if Subscribes(history[n], peer, sub) {
        assert LiveAt(history, peer, sub, n);
      } else if !Cancels(history[n], peer, sub) {
        if i :| LiveAt(past, peer, sub, i) { assert LiveAt(history, peer, sub, i); }
        if i :| LiveAt(history, peer, sub, i) { assert LiveAt(past, peer, sub, i); }
      }
    }
  }

  /** After any requests, a message goes to exactly the peers that subscribed with a
      filter for its pubsub topic, or for any, and for its content topic among others,
      or for any, and did not later cancel that very filter or everything. */
  lemma PushedExactly(history: seq<Entry>, topic: string, contentTopic: string, peer: Peer)
    ensures peer in Targets(After(history), topic, contentTopic)
            <==> exists i, sub :: LiveAt(history, peer, sub, i)
                   && (sub.pubsubTopic == None || sub.pubsubTopic == Some(topic))
                   && (sub.contentTopics == [] || contentTopic in sub.contentTopics)
  {
    var subs := SubsOf(After(history), peer);
    if peer in Targets(After(history), topic, contentTopic) {
      var sub :| sub in subs && Matches(sub, topic, contentTopic);
      RegistryHoldsLive(history, peer, sub);
    }
    if i, sub :| LiveAt(history, peer, sub, i)
                 && (sub.pubsubTopic == None || sub.pubsubTopic == Some(topic))
                 && (sub.contentTopics == [] || contentTopic in sub.contentTopics) {
      RegistryHoldsLive(history, peer, sub);
      assert sub in subs;
    }
  }
}
