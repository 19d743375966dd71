/**
  The ip-colocation guard: the per-IP connection counter kept by the connection
  events of the swarm, against the connections that are really open.
 */
module IpGuard {
  import opened Common

  type Ip = seq<Byte>

  type Counts = map<Ip, nat>

  function CountOf(counts: Counts, ip: Ip): nat {
    if ip in counts then counts[ip] else 0
  }

  /** A connection is turned away when its IP already has the limit. */
  predicate TurnsAway(limit: nat, counts: Counts, ip: Ip) {
    limit > 0 && CountOf(counts, ip) >= limit
  }

  function Opened(limit: nat, counts: Counts, ip: Ip): Counts {
    if limit == 0 || TurnsAway(limit, counts, ip) then counts
    else counts[ip := CountOf(counts, ip) + 1]
  }

  function Closed(counts: Counts, ip: Ip): Counts {
    if CountOf(counts, ip) <= 1 then counts - {ip} else counts[ip := counts[ip] - 1]
  }

  class IpCounter {
    const limit: nat
    var ipCounts: Counts

    ghost predicate Valid()
      reads this
    {
      forall ip :: ip in ipCounts ==> 0 < ipCounts[ip] <= limit
    }

    constructor (limit: nat)
      ensures Valid() && this.limit == limit && ipCounts == map[]
    {
      this.limit := limit;
      ipCounts := map[];
    }

    method ConnectionEstablished(address: Option<Ip>) returns (admitted: bool)
      requires Valid()
      modifies this
      ensures Valid()
      ensures admitted == (address.Some? ==> !TurnsAway(limit, old(ipCounts), address.value))
      ensures ipCounts == if address.Some? then Opened(limit, old(ipCounts), address.value) else old(ipCounts)
    {
      if limit > 0 && address.Some? {
        var ip := address.value;
        var count := if ip in ipCounts then ipCounts[ip] else 0;
        count := count + 1;
        if count > limit {
          count := count - 1;
          ipCounts := ipCounts[ip := count];
          return false;
        }
        ipCounts := ipCounts[ip := count];
      }
      return true;
    }

    method ConnectionClosed(address: Option<Ip>)
      requires Valid()
      modifies this
      ensures Valid()
      ensures ipCounts == if address.Some? then Closed(old(ipCounts), address.value) else old(ipCounts)
    {
      if address.Some? && address.value in ipCounts {
        var ip := address.value;
        var count := ipCounts[ip];
        count := if count > 0 then count - 1 else 0;
        ipCounts := ipCounts[ip := count];
        if count == 0 {
          ipCounts := ipCounts - {ip};
        }
      }
    }
  }

  // ----- Runs

  /** A connection from an IP opens or closes. Which of the open ones closes is the
      network's choice: one that was admitted, or one that was turned away and is
      still being torn down. */
  datatype Event = Open(ip: Ip) | CloseAdmitted(ip: Ip) | CloseTurnedAway(ip: Ip)

  /** The counter, and for one IP the open connections of either kind, how many
      closes of turned-away ones lowered the counter (`freed`), and how many closes
      of admitted ones found it at zero (`unpaid`). */
  datatype View = View(counts: Counts, admitted: nat, turnedAway: nat, freed: nat, unpaid: nat)

  predicate Possible(v: View, ev: Event, ip: Ip) {
    ev.ip == ip ==> (ev.CloseAdmitted? ==> v.admitted > 0) && (ev.CloseTurnedAway? ==> v.turnedAway > 0)
  }

  /** One event; a close of a connection that is not open does not happen. */
  function Next(limit: nat, v: View, ev: Event, ip: Ip): View {
    var counts := if ev.Open? then Opened(limit, v.counts, ev.ip) else Closed(v.counts, ev.ip);
    var counted := CountOf(v.counts, ip) > 0;
    if !Possible(v, ev, ip) then v
    else if ev.ip != ip then v.(counts := counts)
    else
      match ev
      case Open(_) =>
        if TurnsAway(limit, v.counts, ip) then v.(turnedAway := v.turnedAway + 1)
        else v.(counts := counts, admitted := v.admitted + 1)
      case CloseAdmitted(_) =>
        v.(counts := counts, admitted := v.admitted - 1, unpaid := v.unpaid + if counted then 0 else 1)
      case CloseTurnedAway(_) =>
        v.(counts := counts, turnedAway := v.turnedAway - 1, freed := v.freed + if counted then 1 else 0)
  }

  function Run(limit: nat, evs: seq<Event>, ip: Ip): View {
    if evs == [] then View(map[], 0, 0, 0, 0)
    else Next(limit, Run(limit, evs[..|evs| - 1], ip), evs[|evs| - 1], ip)
  }

  function Live(v: View): nat {
    v.admitted + v.turnedAway
  }

  ghost predicate Balanced(limit: nat, v: View, ip: Ip) {
    && (forall other :: other in v.counts ==> 0 < v.counts[other] <= limit)
    && CountOf(v.counts, ip) <= v.admitted
    && v.admitted + v.unpaid == CountOf(v.counts, ip) + v.freed
  }

  lemma BalancedStep(limit: nat, v: View, ev: Event, ip: Ip)
    requires limit > 0 && Balanced(limit, v, ip)
    ensures Balanced(limit, Next(limit, v, ev, ip), ip)
  {
  }

  /** In every run, no entry is zero or above the limit, and the counter is at most
      the admitted connections. These exceed it by exactly the closes of turned-away
      connections that lowered it, less the admitted closes that found it at zero. */
  lemma {:induction false} CounterBalance(limit: nat, evs: seq<Event>, ip: Ip)
    requires limit > 0
    ensures Balanced(limit, Run(limit, evs, ip), ip)
    ensures var v := Run(limit, evs, ip);
      CountOf(v.counts, ip) <= Min(limit, v.admitted) && v.admitted <= limit + v.freed
  {
    if evs != [] {
      var n := |evs| - 1;
      CounterBalance(limit, evs[..n], ip);
      BalancedStep(limit, Run(limit, evs[..n], ip), evs[n], ip);
    }
  }

  predicate Exact(v: View, ip: Ip) {
    CountOf(v.counts, ip) == Live(v)
  }

  /** The counter equals the number of open connections after every event. */
  ghost predicate ExactThroughout(limit: nat, evs: seq<Event>, ip: Ip) {
    Exact(Run(limit, evs, ip), ip) && (evs != [] ==> ExactThroughout(limit, evs[..|evs| - 1], ip))
  }

  ghost predicate NeverTurnsAway(limit: nat, evs: seq<Event>, ip: Ip) {
    evs == [] ||
    var n := |evs| - 1;
    && NeverTurnsAway(limit, evs[..n], ip)
    && (evs[n] == Open(ip) ==> !TurnsAway(limit, Run(limit, evs[..n], ip).counts, ip))
  }

  lemma ExactStep(limit: nat, v: View, ev: Event, ip: Ip)
    requires limit > 0 && Exact(v, ip) && v.turnedAway == 0
    ensures Exact(Next(limit, v, ev, ip), ip) <==> (ev == Open(ip) ==> !TurnsAway(limit, v.counts, ip))
    ensures Exact(Next(limit, v, ev, ip), ip) ==> Next(limit, v, ev, ip).turnedAway == 0
  {
  }

  /** The counter is exact throughout a run exactly when no connection from the IP
      is turned away. */
  lemma {:induction false} ExactUnlessTurnedAway(limit: nat, evs: seq<Event>, ip: Ip)
    requires limit > 0
    ensures ExactThroughout(limit, evs, ip) <==> NeverTurnsAway(limit, evs, ip)
    ensures ExactThroughout(limit, evs, ip) ==> Run(limit, evs, ip).turnedAway == 0
  {
    if evs != [] {
      var n := |evs| - 1;
      ExactUnlessTurnedAway(limit, evs[..n], ip);
      if ExactThroughout(limit, evs[..n], ip) {
        ExactStep(limit, Run(limit, evs[..n], ip), evs[n], ip);
      }
    }
  }

  /** A limit of 0 switches the guard off: nothing is counted or turned away. */
  lemma {:induction false} NoLimitNoGuard(evs: seq<Event>, ip: Ip)
    ensures var v := Run(0, evs, ip); v.counts == map[] && v.turnedAway == 0
  {
    if evs != [] {
      NoLimitNoGuard(evs[..|evs| - 1], ip);
    }
  }

  // ----- When the limit on admitted connections is kept

  lemma RunExtends(limit: nat, evs: seq<Event>, ev: Event, ip: Ip)
    ensures Run(limit, evs + [ev], ip) == Next(limit, Run(limit, evs, ip), ev, ip)
  {
    assert (evs + [ev])[..|evs|] == evs;
  }

  /** The counter is the number of admitted connections. */
  predicate Counted(v: View, ip: Ip) {
    CountOf(v.counts, ip) == v.admitted
  }

  ghost predicate CountedThroughout(limit: nat, evs: seq<Event>, ip: Ip) {
    Counted(Run(limit, evs, ip), ip) && (evs != [] ==> CountedThroughout(limit, evs[..|evs| - 1], ip))
  }

  /** Every close of a turned-away connection from the IP finds the counter at zero. */
  ghost predicate LateClosesFindZero(limit: nat, evs: seq<Event>, ip: Ip) {
    evs == [] ||
    var n := |evs| - 1;
    var v := Run(limit, evs[..n], ip);
    && LateClosesFindZero(limit, evs[..n], ip)
    && (evs[n] == CloseTurnedAway(ip) && v.turnedAway > 0 ==> CountOf(v.counts, ip) == 0)
  }

  lemma CountedStep(limit: nat, v: View, ev: Event, ip: Ip)
    requires limit > 0 && Counted(v, ip)
    ensures Counted(Next(limit, v, ev, ip), ip)
            <==> (ev == CloseTurnedAway(ip) && v.turnedAway > 0 ==> CountOf(v.counts, ip) == 0)
  {
  }

  /** The counter is the number of admitted connections throughout a run exactly when
      every close of a turned-away connection finds it at zero. */
  lemma {:induction false} CountedExactly(limit: nat, evs: seq<Event>, ip: Ip)
    requires limit > 0
    ensures CountedThroughout(limit, evs, ip) <==> LateClosesFindZero(limit, evs, ip)
  {
    if evs != [] {
      var n := |evs| - 1;
      CountedExactly(limit, evs[..n], ip);
      if CountedThroughout(limit, evs[..n], ip) {
        CountedStep(limit, Run(limit, evs[..n], ip), evs[n], ip);
      }
    }
  }

  /** The run goes on with k connections from the IP. */
  function ThenOpens(evs: seq<Event>, ip: Ip, k: nat): seq<Event> {
    if k == 0 then evs else ThenOpens(evs, ip, k - 1) + [Open(ip)]
  }

  /** n more admitted and counted, and nothing else that matters. */
  ghost predicate Gained(v: View, v': View, ip: Ip, n: int) {
    && v'.admitted == v.admitted + n
    && CountOf(v'.counts, ip) == CountOf(v.counts, ip) + n
    && v'.freed == v.freed
    && v'.unpaid == v.unpaid
  }

  lemma OneOpen(limit: nat, v: View, ip: Ip)
    requires limit > 0
    ensures Gained(v, Next(limit, v, Open(ip), ip), ip, if CountOf(v.counts, ip) < limit then 1 else 0)
  {
  }

  function OpensFrom(limit: nat, v: View, ip: Ip, k: nat): View {
    if k == 0 then v else Next(limit, OpensFrom(limit, v, ip, k - 1), Open(ip), ip)
  }

  lemma {:induction false} RunThenOpens(limit: nat, evs: seq<Event>, ip: Ip, k: nat)
    ensures Run(limit, ThenOpens(evs, ip, k), ip) == OpensFrom(limit, Run(limit, evs, ip), ip, k)
  {
    if k > 0 {
      RunThenOpens(limit, evs, ip, k - 1);
      RunExtends(limit, ThenOpens(evs, ip, k - 1), Open(ip), ip);
    }
  }

  lemma {:induction false} OpensFromGain(limit: nat, v: View, ip: Ip, k: nat)
    requires limit > 0 && CountOf(v.counts, ip) <= limit
    ensures Gained(v, OpensFrom(limit, v, ip, k), ip, Min(k, limit - CountOf(v.counts, ip)))
  {
    if k > 0 {
      OpensFromGain(limit, v, ip, k - 1);
      OneOpen(limit, OpensFrom(limit, v, ip, k - 1), ip);
    }
  }

  /** Of k further connections, as many are admitted as the counter leaves places. */
  lemma OpensAdmit(limit: nat, evs: seq<Event>, ip: Ip, k: nat)
    requires limit > 0
    ensures var v := Run(limit, evs, ip);
      Gained(v, Run(limit, ThenOpens(evs, ip, k), ip), ip, Min(k, limit - CountOf(v.counts, ip)))
  {
    CounterBalance(limit, evs, ip);
    RunThenOpens(limit, evs, ip, k);
    OpensFromGain(limit, Run(limit, evs, ip), ip, k);
  }

  /** However many connections follow, the admitted ones stay within the limit. */
  ghost predicate CapHolds(limit: nat, evs: seq<Event>, ip: Ip) {
    forall k: nat :: Run(limit, ThenOpens(evs, ip, k), ip).admitted <= limit
  }

  lemma GainWithinLimit(limit: nat, v: View, v': View, ip: Ip, k: nat)
    requires CountOf(v.counts, ip) <= Min(limit, v.admitted)
    requires Gained(v, v', ip, Min(k, limit - CountOf(v.counts, ip)))
    ensures if Counted(v, ip) then v'.admitted <= limit else k == limit ==> v'.admitted > limit
  {
  }

  lemma OpensWithinLimit(limit: nat, evs: seq<Event>, ip: Ip, k: nat)
    requires limit > 0
    ensures var admitted := Run(limit, ThenOpens(evs, ip, k), ip).admitted;
      if Counted(Run(limit, evs, ip), ip) then admitted <= limit else k == limit ==> admitted > limit
  {
    CounterBalance(limit, evs, ip);
    OpensAdmit(limit, evs, ip, k);
    GainWithinLimit(limit, Run(limit, evs, ip), Run(limit, ThenOpens(evs, ip, k), ip), ip, k);
  }

  /** The cap withstands further connections exactly when the counter is right. */
  lemma CapHoldsExactly(limit: nat, evs: seq<Event>, ip: Ip)
    requires limit > 0
    ensures CapHolds(limit, evs, ip) <==> Counted(Run(limit, evs, ip), ip)
  {
    forall k: nat
      ensures var admitted := Run(limit, ThenOpens(evs, ip, k), ip).admitted;
        if Counted(Run(limit, evs, ip), ip) then admitted <= limit else k == limit ==> admitted > limit
    {
      OpensWithinLimit(limit, evs, ip, k);
    }
    var most := Run(limit, ThenOpens(evs, ip, limit), ip).admitted;
  }

  ghost predicate CapHoldsThroughout(limit: nat, evs: seq<Event>, ip: Ip) {
    CapHolds(limit, evs, ip) && (evs != [] ==> CapHoldsThroughout(limit, evs[..|evs| - 1], ip))
  }

  /** At every moment of a run the cap withstands any further connections, exactly
      when every close of a turned-away connection finds the counter at zero. */
  lemma {:induction false} CapIsKeptExactly(limit: nat, evs: seq<Event>, ip: Ip)
    requires limit > 0
    ensures CapHoldsThroughout(limit, evs, ip) <==> LateClosesFindZero(limit, evs, ip)
  {
    CapHoldsExactly(limit, evs, ip);
    if evs != [] {
      var n := |evs| - 1;
      CapIsKeptExactly(limit, evs[..n], ip);
      CapHoldsExactly(limit, evs[..n], ip);
      if CapHoldsThroughout(limit, evs[..n], ip) {
        CountedStep(limit, Run(limit, evs[..n], ip), evs[n], ip);
      }
    }
  }

  /** Each such close that does not frees a place it never took: for every limit, any
      number of connections beyond it can be admitted at once. */
  lemma {:induction false} LimitIsExceeded(limit: nat, ip: Ip, extra: nat) returns (evs: seq<Event>)
    requires limit > 0
    ensures var v := Run(limit, evs, ip);
      v.admitted == limit + extra && v.freed == extra && v.turnedAway == 0 && CountOf(v.counts, ip) == limit
  {
    if extra == 0 {
      evs := Fill(limit, ip, limit);
    } else {
      evs := LimitIsExceeded(limit, ip, extra - 1);
      RunExtends(limit, evs, Open(ip), ip);
      RunExtends(limit, evs + [Open(ip)], CloseTurnedAway(ip), ip);
      RunExtends(limit, evs + [Open(ip)] + [CloseTurnedAway(ip)], Open(ip), ip);
      evs := evs + [Open(ip)] + [CloseTurnedAway(ip)] + [Open(ip)];
    }
  }

  lemma {:induction false} Fill(limit: nat, ip: Ip, n: nat) returns (evs: seq<Event>)
    requires n <= limit && limit > 0
    ensures var v := Run(limit, evs, ip);
      v.admitted == CountOf(v.counts, ip) == n && v.turnedAway == v.freed == 0
  {
    evs := [];
    if n > 0 {
      evs := Fill(limit, ip, n - 1);
      RunExtends(limit, evs, Open(ip), ip);
      evs := evs + [Open(ip)];
    }
  }
}
