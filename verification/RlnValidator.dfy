/**
  The inbound RLN validator as a state machine over registrations, received
  proofs and forgotten epochs, with the guarantees that hold over whole runs:
  the per-epoch rate limit, exact flagging, sound slashing, and the harmlessness
  of forgetting epochs that left the acceptance window.
 */
module RlnValidator {
  import opened Common
  import opened PrimeField
  import opened Rln

  /** What the node is configured with and the foreign functions it calls. */
  datatype Env = Env(
    p: int,
    hashToField: seq<Byte> -> Fr,
    externalNullifier: U64 -> Fr,
    verify: (seq<RlnIdentity>, Proof) -> bool,
    epochSizeSecs: nat)

  datatype State = State(members: seq<RlnIdentity>, seen: Seen)

  datatype RegisterError = TreeFull

  const TREE_CAPACITY := 0x10_0000 // 2^20 leaves

  function EpochSize(env: Env): nat {
    if env.epochSizeSecs == 0 then 1 else env.epochSizeSecs
  }

  function EpochAt(env: Env, now: U64): (epoch: U64)
    ensures epoch <= now
  {
    QuotientAtMost(now, EpochSize(env));
    now / EpochSize(env)
  }

  lemma QuotientAtMost(n: nat, size: nat)
    requires size > 0
    ensures 0 <= n / size <= n
  {
    var q := n / size;
    if q > 0 { AtLeastOnce(q, size); }
  }

  predicate InWindow(env: Env, ext: Fr, now: U64) {
    var current := EpochAt(env, now);
    ext == env.externalNullifier(current)
    || (current > 0 && ext == env.externalNullifier(current - 1))
  }

  predicate Flagged(r: Result<NullifierOutcome, RlnError>) {
    r.Ok? && r.value.DoubleSignaling?
  }

  function VerdictOf(env: Env, st: State, proof: Proof, signal: seq<Byte>, now: U64): InboundVerdict
    requires Prime(env.p)
  {
    if proof.share.x != env.hashToField(signal) then Invalid
    else if !env.verify(st.members, proof) then Invalid
    else if !InWindow(env, proof.externalNullifier, now) then Invalid
    else InboundVerdict.Valid(Flagged(Classify(env.p, st.seen, proof)))
  }

  class RlnValidator {
    const env: Env
    const log: NullifierLog
    var members: seq<RlnIdentity>

    ghost predicate Valid() {
      log.Valid() && log.modulus == env.p
    }

    ghost function Current(): State
      reads this, log
    {
      State(members, log.seen)
    }

    constructor (env: Env)
      requires Prime(env.p)
      ensures Valid() && this.env == env && fresh(log) && Current() == State([], map[])
    {
      this.env := env;
      log := new NullifierLog(env.p);
      members := [];
    }

    method Register(identity: RlnIdentity) returns (r: Result<nat, RegisterError>)
      modifies this
      ensures Current() == Step(env, old(Current()), Registered(identity))
      ensures r == if |old(members)| < TREE_CAPACITY then Ok(|old(members)|) else Err(TreeFull)
    {
      if |members| >= TREE_CAPACITY {
        return Err(TreeFull);
      }
      r := Ok(|members|);
      members := members + [identity];
    }

    method VerifyInbound(proof: Proof, signal: seq<Byte>, now: U64) returns (v: InboundVerdict)
      requires Valid()
      modifies log
      ensures v == VerdictOf(env, old(Current()), proof, signal, now)
      ensures Current() == Step(env, old(Current()), Inbound(proof, signal, now))
    {
      if proof.share.x != env.hashToField(signal) {
        return Invalid;
      }
      if !env.verify(members, proof) {
        return Invalid;
      }
      var current := EpochAt(env, now);
      var ext := proof.externalNullifier;
      var inWindow := ext == env.externalNullifier(current)
        || (current > 0 && ext == env.externalNullifier(current - 1));
      if !inWindow {
        return Invalid;
      }
      var outcome := log.Observe(proof);
      return InboundVerdict.Valid(outcome.Ok? && outcome.value.DoubleSignaling?);
    }
  }

  lemma InWindowExactly(env: Env, k: U64, now: U64, size: nat)
    requires DistinctEpochKeys(env) && size == EpochSize(env)
    ensures InWindow(env, env.externalNullifier(k), now) <==> size * k <= now < size * (k + 2)
  {
    var current := now / size;
    assert size * current <= now < size * current + size;
    Distribute(size, k, -1);
    Distribute(size, k, -2);
    Ordered(size, k, current);
    Ordered(size, current, k + 1);
  }

  /** A bound and verified proof for epoch k is admitted exactly during the two
      configured epoch lengths that start with epoch k; a length of 0 counts as 1. */
  lemma AdmittedExactly(env: Env, st: State, proof: Proof, k: U64, signal: seq<Byte>, now: U64)
    requires Prime(env.p) && DistinctEpochKeys(env) && proof.externalNullifier == env.externalNullifier(k)
    ensures env.epochSizeSecs > 0 ==>
              (VerdictOf(env, st, proof, signal, now).Valid?
               <==> && proof.share.x == env.hashToField(signal)
                    && env.verify(st.members, proof)
                    && env.epochSizeSecs * k <= now < env.epochSizeSecs * (k + 2))
    ensures env.epochSizeSecs == 0 ==>
              (VerdictOf(env, st, proof, signal, now).Valid?
               <==> && proof.share.x == env.hashToField(signal)
                    && env.verify(st.members, proof)
                    && k <= now < k + 2)
  {
    if env.epochSizeSecs > 0 {
      InWindowExactly(env, k, now, env.epochSizeSecs);
    } else {
      InWindowExactly(env, k, now, 1);
    }
  }

  lemma Ordered(size: nat, a: int, b: int)
    requires size > 0
    ensures a <= b ==> size * a <= size * b
    ensures b < a ==> size * b + size <= size * a
  {
    if a < b {
      AtLeastOnce(size, b - a);
      Distribute(size, b, a);
    } else if b < a {
      AtLeastOnce(size, a - b);
      Distribute(size, a, b);
    }
  }

  // ----- Runs

  datatype Event =
    | Registered(identity: RlnIdentity)
    | Inbound(proof: Proof, signal: seq<Byte>, now: U64)
    | Forgot(epoch: U64, now: U64)

  ghost predicate Admits(env: Env, st: State, ev: Event) {
    Prime(env.p) && ev.Inbound? && VerdictOf(env, st, ev.proof, ev.signal, ev.now).Valid?
  }

  ghost function Step(env: Env, st: State, ev: Event): State {
    match ev
    case Registered(identity) =>
      if |st.members| < TREE_CAPACITY then st.(members := st.members + [identity]) else st
    case Inbound(proof, _, _) =>
      if Admits(env, st, ev) then st.(seen := Record(st.seen, proof)) else st
    case Forgot(epoch, _) => st.(seen := st.seen - {env.externalNullifier(epoch)})
  }

  ghost function Run(env: Env, evs: seq<Event>): State {
    if evs == [] then State([], map[])
    else Step(env, Run(env, evs[..|evs| - 1]), evs[|evs| - 1])
  }

  ghost predicate AdmittedAt(env: Env, evs: seq<Event>, j: int) {
    0 <= j < |evs| && Admits(env, Run(env, evs[..j]), evs[j])
  }

  /** The identities of the registrations, in order. */
  ghost function Registrations(evs: seq<Event>): seq<RlnIdentity> {
    if evs == [] then []
    else
      var n := |evs| - 1;
      Registrations(evs[..n]) + if evs[n].Registered? then [evs[n].identity] else []
  }

  /** Members stay, in the order they registered, up to the 2^20 leaves of the tree. */
  lemma {:induction false} MembersExactly(env: Env, evs: seq<Event>)
    ensures var all := Registrations(evs); Run(env, evs).members == all[..Min(|all|, 0x10_0000)]
  {
    if evs != [] {
      MembersExactly(env, evs[..|evs| - 1]);
    }
  }

  // ----- What the proof system promises

  /** The identity and message slot behind a proof. */
  datatype Witness = Witness(identity: RlnIdentity, slot: nat)

  datatype Ideal = Ideal(
    extract: Proof -> Witness,
    nullifier: (Fr, Fr, nat) -> Fr,
    slope: (Fr, Fr, nat) -> Fr)

  /** A proof that verifies was made by a registered identity for a slot below
      its limit; its nullifier is a function of (secret, epoch, slot) and its
      share lies on the line of that triple. */
  ghost predicate Sound(env: Env, ideal: Ideal) {
    && Prime(env.p)
    && forall members, proof :: env.verify(members, proof) ==>
         var w := ideal.extract(proof);
         && w.identity in members
         && w.slot < w.identity.limit
         && 0 <= w.identity.secret < env.p
         && proof.nullifier == ideal.nullifier(w.identity.secret, proof.externalNullifier, w.slot)
         && OnLine(env.p, proof.share, w.identity.secret,
                   ideal.slope(w.identity.secret, proof.externalNullifier, w.slot))
  }

  // ----- The rate limit

  /** The signal hashes of one secret accepted unflagged in one epoch. */
  ghost function Accepted(env: Env, ideal: Ideal, evs: seq<Event>, secret: Fr, ext: Fr): set<Fr>
    requires Prime(env.p)
  {
    if evs == [] then {}
    else
      var n := |evs| - 1;
      var earlier := Accepted(env, ideal, evs[..n], secret, ext);
      if && evs[n].Inbound?
         && VerdictOf(env, Run(env, evs[..n]), evs[n].proof, evs[n].signal, evs[n].now) == InboundVerdict.Valid(false)
         && evs[n].proof.externalNullifier == ext
         && ideal.extract(evs[n].proof).identity.secret == secret
      then earlier + {evs[n].proof.share.x}
      else earlier
  }

  ghost predicate LimitedTo(evs: seq<Event>, secret: Fr, limit: nat) {
    forall i :: 0 <= i < |evs| && evs[i].Registered? && evs[i].identity.secret == secret ==>
      evs[i].identity.limit <= limit
  }

  ghost predicate NeverForgets(evs: seq<Event>) {
    forall i :: 0 <= i < |evs| ==> !evs[i].Forgot?
  }

  lemma {:induction false} MembersWereRegistered(env: Env, evs: seq<Event>, secret: Fr, limit: nat)
    requires LimitedTo(evs, secret, limit)
    ensures forall m :: m in Run(env, evs).members && m.secret == secret ==> m.limit <= limit
  {
    if evs != [] {
      MembersWereRegistered(env, evs[..|evs| - 1], secret, limit);
    }
  }

  /** The x of the share the log holds for a slot; -1 when it holds none. */
  ghost function SlotX(seen: Seen, ideal: Ideal, secret: Fr, ext: Fr, slot: nat): Fr {
    match Lookup(seen, ext, ideal.nullifier(secret, ext, slot))
    case Some(share) => share.x
    case None => -1
  }

  ghost predicate SharesInRange(p: int, seen: Seen) {
    forall e, n :: Lookup(seen, e, n).Some? ==> 0 <= Lookup(seen, e, n).value.x < p
  }

  lemma FlagIsAboutX(env: Env, st: State, proof: Proof, signal: seq<Byte>, now: U64)
    requires Prime(env.p) && SharesInRange(env.p, st.seen) && 0 <= proof.share.x < env.p
    requires VerdictOf(env, st, proof, signal, now).Valid?
    ensures var held := Lookup(st.seen, proof.externalNullifier, proof.nullifier);
      VerdictOf(env, st, proof, signal, now).doubleSignaling <==> held.Some? && held.value.x != proof.share.x
  {
    var held := Lookup(st.seen, proof.externalNullifier, proof.nullifier);
    if held.Some? {
      SharesWithSlope(env.p, held.value, proof.share);
    }
  }

  lemma UnflaggedIsHeld(env: Env, st: State, proof: Proof, signal: seq<Byte>, now: U64)
    requires Prime(env.p) && SharesInRange(env.p, st.seen) && 0 <= proof.share.x < env.p
    requires VerdictOf(env, st, proof, signal, now) == InboundVerdict.Valid(false)
    ensures var held := Lookup(Record(st.seen, proof), proof.externalNullifier, proof.nullifier);
      held.Some? && held.value.x == proof.share.x
  {
    FlagIsAboutX(env, st, proof, signal, now);
    LookupAfter(st.seen, Observed(proof), proof.externalNullifier, proof.nullifier);
  }

  lemma {:induction false} HeldSharesInRange(env: Env, ideal: Ideal, evs: seq<Event>)
    requires Sound(env, ideal)
    ensures SharesInRange(env.p, Run(env, evs).seen)
  {
    if evs != [] {
      var n := |evs| - 1;
      HeldSharesInRange(env, ideal, evs[..n]);
      var st := Run(env, evs[..n]);
      forall e, k | Lookup(Run(env, evs).seen, e, k).Some?
        ensures 0 <= Lookup(Run(env, evs).seen, e, k).value.x < env.p
      {
        match evs[n]
        case Registered(_) =>
        case Inbound(proof, _, _) => LookupAfter(st.seen, Observed(proof), e, k);
        case Forgot(epoch, _) => LookupAfter(st.seen, Forgotten(env.externalNullifier(epoch)), e, k);
      }
    }
  }

  /** Every accepted signal hash is the one the log holds for some slot below the limit. */
  lemma {:induction false} AcceptedIsHeld(
      env: Env, ideal: Ideal, evs: seq<Event>, secret: Fr, ext: Fr, limit: nat, x: Fr)
    returns (slot: nat)
    requires Sound(env, ideal) && NeverForgets(evs) && LimitedTo(evs, secret, limit)
    requires x in Accepted(env, ideal, evs, secret, ext)
    ensures slot < limit && x == SlotX(Run(env, evs).seen, ideal, secret, ext, slot) && 0 <= x
  {
    var n := |evs| - 1;
    var st, ev := Run(env, evs[..n]), evs[n];
    if x in Accepted(env, ideal, evs[..n], secret, ext) {
      slot := AcceptedIsHeld(env, ideal, evs[..n], secret, ext, limit, x);
      if ev.Inbound? {
        LookupAfter(st.seen, Observed(ev.proof), ext, ideal.nullifier(secret, ext, slot));
      }
    } else {
      slot := ideal.extract(ev.proof).slot;
      MembersWereRegistered(env, evs[..n], secret, limit);
      HeldSharesInRange(env, ideal, evs[..n]);
      UnflaggedIsHeld(env, st, ev.proof, ev.signal, ev.now);
    }
  }

  lemma {:induction false} AtMostOnePerSlot(xs: set<Fr>, f: nat -> Fr, limit: nat)
    requires forall x :: x in xs ==> exists k: nat :: k < limit && f(k) == x
    ensures |xs| <= limit
  {
    if limit == 0 {
      forall x | x in xs ensures false {}
      assert xs == {};
    } else {
      var rest := xs - {f(limit - 1)};
      AtMostOnePerSlot(rest, f, limit - 1);
      assert xs <= rest + {f(limit - 1)};
    }
  }

  /** In every run, one secret has at most `limit` distinct signal hashes
      accepted unflagged per epoch, however often and whenever they are sent. */
  lemma RateLimit(env: Env, ideal: Ideal, evs: seq<Event>, secret: Fr, ext: Fr, limit: nat)
    requires Sound(env, ideal) && NeverForgets(evs) && LimitedTo(evs, secret, limit)
    ensures |Accepted(env, ideal, evs, secret, ext)| <= limit
  {
    var xs := Accepted(env, ideal, evs, secret, ext);
    var seen := Run(env, evs).seen;
    var f := (slot: nat) => SlotX(seen, ideal, secret, ext, slot);
    forall x | x in xs ensures exists k: nat :: k < limit && f(k) == x {
      var slot := AcceptedIsHeld(env, ideal, evs, secret, ext, limit, x);
      assert f(slot) == x;
    }
    AtMostOnePerSlot(xs, f, limit);
  }

  // ----- Exact flagging and sound slashing

  ghost predicate SightingAt(env: Env, evs: seq<Event>, ext: Fr, nullifier: Fr, j: int) {
    AdmittedAt(env, evs, j) && evs[j].proof.externalNullifier == ext && evs[j].proof.nullifier == nullifier
  }

  ghost predicate FirstSightingAt(env: Env, evs: seq<Event>, ext: Fr, nullifier: Fr, j: int) {
    && SightingAt(env, evs, ext, nullifier, j)
    && forall i :: 0 <= i < j ==> !SightingAt(env, evs, ext, nullifier, i)
  }

  lemma SightingInPrefix(env: Env, evs: seq<Event>, ext: Fr, nullifier: Fr, n: int, j: int)
    requires 0 <= j < n <= |evs|
    ensures SightingAt(env, evs[..n], ext, nullifier, j) <==> SightingAt(env, evs, ext, nullifier, j)
  {
    assert evs[..n][..j] == evs[..j];
  }

  lemma {:induction false} FirstShareHeld(env: Env, evs: seq<Event>, ext: Fr, nullifier: Fr) returns (j: int)
    requires Prime(env.p) && NeverForgets(evs)
    ensures match Lookup(Run(env, evs).seen, ext, nullifier)
            case None => forall i :: !SightingAt(env, evs, ext, nullifier, i)
            case Some(share) => FirstSightingAt(env, evs, ext, nullifier, j) && evs[j].proof.share == share
  {
    j := -1;
    if evs != [] {
      var n := |evs| - 1;
      var st := Run(env, evs[..n]);
      j := FirstShareHeld(env, evs[..n], ext, nullifier);
      forall i | 0 <= i < n
        ensures SightingAt(env, evs[..n], ext, nullifier, i) <==> SightingAt(env, evs, ext, nullifier, i)
      {
        SightingInPrefix(env, evs, ext, nullifier, n, i);
      }
      if Admits(env, st, evs[n]) {
        LookupAfter(st.seen, Observed(evs[n].proof), ext, nullifier);
        if Lookup(st.seen, ext, nullifier) == None {
          j := n;
        }
      }
    }
  }

  /** A proof that passes the gates is flagged exactly when the first admitted
      proof with its nullifier in its epoch carried another x. */
  lemma FlaggedExactly(env: Env, ideal: Ideal, evs: seq<Event>, proof: Proof, signal: seq<Byte>, now: U64)
    requires Sound(env, ideal) && NeverForgets(evs)
    requires VerdictOf(env, Run(env, evs), proof, signal, now).Valid?
    ensures VerdictOf(env, Run(env, evs), proof, signal, now).doubleSignaling
            <==> exists j :: FirstSightingAt(env, evs, proof.externalNullifier, proof.nullifier, j)
                             && evs[j].proof.share.x != proof.share.x
  {
    var j := FirstShareHeld(env, evs, proof.externalNullifier, proof.nullifier);
    HeldSharesInRange(env, ideal, evs);
    FlagIsAboutX(env, Run(env, evs), proof, signal, now);
  }

  /** Within an epoch, a nullifier belongs to one secret and one slot. */
  ghost predicate CollisionFree(env: Env, ideal: Ideal) {
    forall s, s', ext, k, k' ::
      0 <= s < env.p && 0 <= s' < env.p && ideal.nullifier(s, ext, k) == ideal.nullifier(s', ext, k')
      ==> s == s' && k == k'
  }

  lemma {:induction false} AcceptedGrows(
      env: Env, ideal: Ideal, evs: seq<Event>, n: nat, secret: Fr, ext: Fr, x: Fr)
    requires Prime(env.p) && n <= |evs| && x in Accepted(env, ideal, evs[..n], secret, ext)
    ensures x in Accepted(env, ideal, evs, secret, ext)
  {
    if n < |evs| {
      assert evs[..|evs| - 1][..n] == evs[..n];
      AcceptedGrows(env, ideal, evs[..|evs| - 1], n, secret, ext, x);
    } else {
      assert evs[..n] == evs;
    }
  }

  /** The first admitted use of a slot is accepted unflagged. */
  lemma FirstUseIsAccepted(env: Env, ideal: Ideal, evs: seq<Event>, secret: Fr, ext: Fr, nullifier: Fr, j: int)
    requires Prime(env.p) && NeverForgets(evs) && FirstSightingAt(env, evs, ext, nullifier, j)
    requires ideal.extract(evs[j].proof).identity.secret == secret
    ensures evs[j].proof.share.x in Accepted(env, ideal, evs, secret, ext)
  {
    var past := evs[..j];
    var i := FirstShareHeld(env, past, ext, nullifier);
    if Lookup(Run(env, past).seen, ext, nullifier).Some? {
      SightingInPrefix(env, evs, ext, nullifier, j, i);
    }
    assert evs[..j + 1][..j] == past;
    AcceptedGrows(env, ideal, evs, j + 1, secret, ext, evs[j].proof.share.x);
  }

  /** What is accepted of a secret in an epoch is exactly what the log holds for its
      slots below the limit: one signal hash for every slot used. */
  lemma AcceptedExactly(env: Env, ideal: Ideal, evs: seq<Event>, secret: Fr, ext: Fr, limit: nat, x: Fr)
    requires Sound(env, ideal) && CollisionFree(env, ideal) && NeverForgets(evs) && LimitedTo(evs, secret, limit)
    requires 0 <= secret < env.p
    ensures x in Accepted(env, ideal, evs, secret, ext)
            <==> x >= 0 && exists slot: nat :: slot < limit && SlotX(Run(env, evs).seen, ideal, secret, ext, slot) == x
  {
    if x in Accepted(env, ideal, evs, secret, ext) {
      var slot := AcceptedIsHeld(env, ideal, evs, secret, ext, limit, x);
    }
    if x >= 0 && exists slot: nat :: slot < limit && SlotX(Run(env, evs).seen, ideal, secret, ext, slot) == x {
      var slot: nat :| slot < limit && SlotX(Run(env, evs).seen, ideal, secret, ext, slot) == x;
      var nullifier := ideal.nullifier(secret, ext, slot);
      var j := FirstShareHeld(env, evs, ext, nullifier);
      assert SightingAt(env, evs, ext, nullifier, j);
      assert env.verify(Run(env, evs[..j]).members, evs[j].proof);
      var w := ideal.extract(evs[j].proof);
      assert ideal.nullifier(w.identity.secret, ext, w.slot) == nullifier;
      FirstUseIsAccepted(env, ideal, evs, secret, ext, nullifier, j);
    }
  }

  /** A flag convicts: the same identity spent the same slot of the same epoch on
      another signal earlier, and the secret recovered is that identity's. */
  lemma FlagConvicts(env: Env, ideal: Ideal, evs: seq<Event>, proof: Proof, signal: seq<Byte>, now: U64)
    requires Sound(env, ideal) && CollisionFree(env, ideal) && NeverForgets(evs)
    requires VerdictOf(env, Run(env, evs), proof, signal, now) == InboundVerdict.Valid(true)
    ensures var w := ideal.extract(proof);
      && Classify(env.p, Run(env, evs).seen, proof) == Ok(DoubleSignaling(w.identity.secret))
      && exists j :: AdmittedAt(env, evs, j)
           && evs[j].proof.externalNullifier == proof.externalNullifier
           && ideal.extract(evs[j].proof).identity.secret == w.identity.secret
           && ideal.extract(evs[j].proof).slot == w.slot
           && evs[j].proof.share.x != proof.share.x
  {
    var w := ideal.extract(proof);
    var ext := proof.externalNullifier;
    FlaggedExactly(env, ideal, evs, proof, signal, now);
    var j := FirstShareHeld(env, evs, ext, proof.nullifier);
    var held := evs[j].proof;
    assert AdmittedAt(env, evs, j);
    assert env.verify(Run(env, evs[..j]).members, held);
    var w' := ideal.extract(held);
    assert ideal.nullifier(w'.identity.secret, ext, w'.slot) == ideal.nullifier(w.identity.secret, ext, w.slot);
    RecoversSecret(env.p, held.share, proof.share, w.identity.secret, ideal.slope(w.identity.secret, ext, w.slot));
  }

  // ----- Forgetting epochs

  ghost function Verdicts(env: Env, evs: seq<Event>): seq<InboundVerdict>
    requires Prime(env.p)
  {
    if evs == [] then []
    else
      var n := |evs| - 1;
      var earlier := Verdicts(env, evs[..n]);
      if evs[n].Inbound?
      then earlier + [VerdictOf(env, Run(env, evs[..n]), evs[n].proof, evs[n].signal, evs[n].now)]
      else earlier
  }

  /** The same run by a validator that never forgets. */
  ghost function Remembering(evs: seq<Event>): (r: seq<Event>)
    ensures NeverForgets(r)
    ensures forall e :: e in r ==> e in evs
  {
    if evs == [] then []
    else
      var n := |evs| - 1;
      var past := Remembering(evs[..n]);
      if evs[n].Forgot? then past else past + [evs[n]]
  }

  function Clock(evs: seq<Event>): U64 {
    if evs == [] then 0
    else
      var ev := evs[|evs| - 1];
      if ev.Registered? then Clock(evs[..|evs| - 1]) else ev.now
  }

  /** The clock never runs back, and only epochs older than current - 1 are forgotten. */
  ghost predicate ForgetsOnlyAged(env: Env, evs: seq<Event>) {
    evs == [] ||
    var n := |evs| - 1;
    && ForgetsOnlyAged(env, evs[..n])
    && (!evs[n].Registered? ==> Clock(evs[..n]) <= evs[n].now)
    && (evs[n].Forgot? ==> evs[n].epoch + 1 < EpochAt(env, evs[n].now))
  }

  ghost predicate DistinctEpochKeys(env: Env) {
    forall a: U64, b: U64 :: env.externalNullifier(a) == env.externalNullifier(b) ==> a == b
  }

  ghost predicate Aged(env: Env, ext: Fr, now: U64) {
    exists k: U64 :: k + 1 < EpochAt(env, now) && env.externalNullifier(k) == ext
  }

  lemma EpochsAdvance(env: Env, now: U64, later: U64)
    requires now <= later
    ensures EpochAt(env, now) <= EpochAt(env, later)
  {
    Ordered(EpochSize(env), EpochAt(env, now), EpochAt(env, later));
  }

  lemma WindowIsNotAged(env: Env, ext: Fr, now: U64)
    requires DistinctEpochKeys(env) && InWindow(env, ext, now)
    ensures !Aged(env, ext, now)
  {
  }

  lemma AgedStaysAged(env: Env, ext: Fr, now: U64, later: U64)
    requires now <= later && Aged(env, ext, now)
    ensures Aged(env, ext, later)
  {
    EpochsAdvance(env, now, later);
    var k: U64 :| k + 1 < EpochAt(env, now) && env.externalNullifier(k) == ext;
  }

  /** Two logs agree on every epoch that can still be accepted. */
  ghost predicate AgreeOnLive(env: Env, now: U64, seen: Seen, seen': Seen) {
    forall ext, nullifier :: !Aged(env, ext, now) ==> Lookup(seen, ext, nullifier) == Lookup(seen', ext, nullifier)
  }

  lemma AgreeLater(env: Env, now: U64, later: U64, seen: Seen, seen': Seen)
    requires now <= later && AgreeOnLive(env, now, seen, seen')
    ensures AgreeOnLive(env, later, seen, seen')
  {
    forall ext, nullifier | !Aged(env, ext, later)
      ensures Lookup(seen, ext, nullifier) == Lookup(seen', ext, nullifier)
    {
      if Aged(env, ext, now) { AgedStaysAged(env, ext, now, later); }
    }
  }

  lemma AgreeAfterRecord(env: Env, now: U64, seen: Seen, seen': Seen, proof: Proof)
    requires AgreeOnLive(env, now, seen, seen')
    ensures AgreeOnLive(env, now, Record(seen, proof), Record(seen', proof))
  {
    forall ext, nullifier | !Aged(env, ext, now)
      ensures Lookup(Record(seen, proof), ext, nullifier) == Lookup(Record(seen', proof), ext, nullifier)
    {
      LookupAfter(seen, Observed(proof), ext, nullifier);
      LookupAfter(seen', Observed(proof), ext, nullifier);
    }
  }

  lemma AgreeAfterForget(env: Env, now: U64, seen: Seen, seen': Seen, epoch: U64)
    requires AgreeOnLive(env, now, seen, seen') && epoch + 1 < EpochAt(env, now)
    ensures AgreeOnLive(env, now, seen - {env.externalNullifier(epoch)}, seen')
  {
    forall ext, nullifier | !Aged(env, ext, now)
      ensures Lookup(seen - {env.externalNullifier(epoch)}, ext, nullifier) == Lookup(seen', ext, nullifier)
    {
      LookupAfter(seen, Forgotten(env.externalNullifier(epoch)), ext, nullifier);
    }
  }

  lemma SameVerdict(env: Env, st: State, st': State, proof: Proof, signal: seq<Byte>, now: U64)
    requires Prime(env.p) && DistinctEpochKeys(env)
    requires st.members == st'.members && AgreeOnLive(env, now, st.seen, st'.seen)
    ensures VerdictOf(env, st, proof, signal, now) == VerdictOf(env, st', proof, signal, now)
  {
    if InWindow(env, proof.externalNullifier, now) {
      WindowIsNotAged(env, proof.externalNullifier, now);
      assert Lookup(st.seen, proof.externalNullifier, proof.nullifier)
          == Lookup(st'.seen, proof.externalNullifier, proof.nullifier);
    }
  }

  /** One event keeps two states in agreement, also when only the first forgets. */
  lemma AgreeAfterStep(env: Env, now: U64, st: State, st': State, ev: Event)
    requires Prime(env.p) && DistinctEpochKeys(env)
    requires st.members == st'.members && AgreeOnLive(env, now, st.seen, st'.seen)
    requires !ev.Registered? ==> now <= ev.now
    requires ev.Forgot? ==> ev.epoch + 1 < EpochAt(env, ev.now)
    ensures var next, next' := Step(env, st, ev), if ev.Forgot? then st' else Step(env, st', ev);
      next.members == next'.members
      && AgreeOnLive(env, if ev.Registered? then now else ev.now, next.seen, next'.seen)
  {
    match ev
    case Registered(_) =>
    case Inbound(proof, signal, t) =>
      AgreeLater(env, now, t, st.seen, st'.seen);
      SameVerdict(env, st, st', proof, signal, t);
      AgreeAfterRecord(env, t, st.seen, st'.seen, proof);
    case Forgot(epoch, t) =>
      AgreeLater(env, now, t, st.seen, st'.seen);
      AgreeAfterForget(env, t, st.seen, st'.seen, epoch);
  }

  lemma {:induction false} RememberingAgrees(env: Env, evs: seq<Event>)
    requires Prime(env.p) && DistinctEpochKeys(env) && ForgetsOnlyAged(env, evs)
    ensures Run(env, evs).members == Run(env, Remembering(evs)).members
    ensures AgreeOnLive(env, Clock(evs), Run(env, evs).seen, Run(env, Remembering(evs)).seen)
  {
    if evs != [] {
      var n := |evs| - 1;
      var past := Remembering(evs[..n]);
      RememberingAgrees(env, evs[..n]);
      AgreeAfterStep(env, Clock(evs[..n]), Run(env, evs[..n]), Run(env, past), evs[n]);
      if !evs[n].Forgot? {
        assert (past + [evs[n]])[..|past|] == past;
      }
    }
  }

  lemma {:induction false} RememberingSimulates(env: Env, ideal: Ideal, evs: seq<Event>, secret: Fr, ext: Fr)
    requires Prime(env.p) && DistinctEpochKeys(env) && ForgetsOnlyAged(env, evs)
    ensures Verdicts(env, evs) == Verdicts(env, Remembering(evs))
    ensures Accepted(env, ideal, evs, secret, ext) == Accepted(env, ideal, Remembering(evs), secret, ext)
  {
    if evs != [] {
      var n := |evs| - 1;
      var ev, past := evs[n], Remembering(evs[..n]);
      RememberingSimulates(env, ideal, evs[..n], secret, ext);
      if !ev.Forgot? {
        assert (past + [ev])[..|past|] == past;
      }
      if ev.Inbound? {
        var st, st' := Run(env, evs[..n]), Run(env, past);
        RememberingAgrees(env, evs[..n]);
        AgreeLater(env, Clock(evs[..n]), ev.now, st.seen, st'.seen);
        SameVerdict(env, st, st', ev.proof, ev.signal, ev.now);
      }
    }
  }

  /** Forgetting aged epochs at any points is invisible, and the rate limit
      survives it. */
  lemma ForgettingIsInvisible(env: Env, ideal: Ideal, evs: seq<Event>, secret: Fr, ext: Fr, limit: nat)
    requires Sound(env, ideal) && DistinctEpochKeys(env) && ForgetsOnlyAged(env, evs)
    requires LimitedTo(evs, secret, limit)
    ensures Verdicts(env, evs) == Verdicts(env, Remembering(evs))
    ensures |Accepted(env, ideal, evs, secret, ext)| <= limit
  {
    RememberingSimulates(env, ideal, evs, secret, ext);
    var past := Remembering(evs);
    forall i | 0 <= i < |past| && past[i].Registered? && past[i].identity.secret == secret
      ensures past[i].identity.limit <= limit
    {
      assert past[i] in evs;
    }
    RateLimit(env, ideal, past, secret, ext, limit);
  }

  /** The age bound is needed: forgetting the epoch of a flagged proof clears the flag. */
  lemma ForgettingLiveEpochClearsFlag(env: Env, evs: seq<Event>, epoch: U64, proof: Proof, signal: seq<Byte>, now: U64)
    requires Prime(env.p) && proof.externalNullifier == env.externalNullifier(epoch)
    requires VerdictOf(env, Run(env, evs), proof, signal, now) == InboundVerdict.Valid(true)
    ensures VerdictOf(env, Run(env, evs + [Forgot(epoch, now)]), proof, signal, now) == InboundVerdict.Valid(false)
  {
    assert (evs + [Forgot(epoch, now)])[..|evs|] == evs;
  }

  // ----- The assumptions are consistent

  /** Two proofs for a slot not used before, with different x: the first to arrive
      passes, the second is flagged. */
  lemma SecondSignalIsFlagged(
      env: Env, ideal: Ideal, evs: seq<Event>, first: Proof, signal: seq<Byte>, second: Proof, signal': seq<Byte>,
      now: U64)
    requires Sound(env, ideal) && OneSlotTwoSignals(first, second)
    requires Lookup(Run(env, evs).seen, first.externalNullifier, first.nullifier) == None
    requires VerdictOf(env, Run(env, evs), first, signal, now).Valid?
    requires VerdictOf(env, Run(env, evs), second, signal', now).Valid?
    ensures VerdictOf(env, Run(env, evs), first, signal, now) == InboundVerdict.Valid(false)
    ensures VerdictOf(env, Run(env, evs + [Inbound(first, signal, now)]), second, signal', now)
            == InboundVerdict.Valid(true)
  {
    var st, ev := Run(env, evs), Inbound(first, signal, now);
    assert env.verify(st.members, second);
    assert (evs + [ev])[..|evs|] == evs;
    HeldSharesInRange(env, ideal, evs + [ev]);
    LookupAfter(st.seen, Observed(first), first.externalNullifier, first.nullifier);
    FlagIsAboutX(env, Step(env, st, ev), second, signal', now);
  }

  ghost predicate OneSlotTwoSignals(first: Proof, second: Proof) {
    && first.externalNullifier == second.externalNullifier
    && first.nullifier == second.nullifier
    && first.share.x != second.share.x
  }

  /** A toy proof system over the field of two elements with one possible member. */
  function ToyNullifier(secret: Fr, slot: nat): Fr {
    2 * slot + secret
  }

  const TOY_MEMBER := RlnIdentity(1, 1)

  predicate ToyVerify(members: seq<RlnIdentity>, proof: Proof) {
    && TOY_MEMBER in members
    && proof.zeroKnowledge != []
    && proof.nullifier == ToyNullifier(1, 0)
    && OnLine(2, proof.share, 1, 1)
  }

  function ToyEnv(): Env {
    Env(2, signal => |signal| % 2, epoch => epoch, ToyVerify, 1)
  }

  function ToyIdeal(): Ideal {
    Ideal(proof => Witness(TOY_MEMBER, 0),
          (secret, ext, slot: nat) => ToyNullifier(secret, slot),
          (secret, ext, slot: nat) => 1)
  }

  lemma ToyIsSound()
    ensures Sound(ToyEnv(), ToyIdeal()) && CollisionFree(ToyEnv(), ToyIdeal()) && DistinctEpochKeys(ToyEnv())
  {
  }

  /** A proof of the toy member for signals that hash to x. */
  predicate ToyProof(proof: Proof, x: Fr) {
    && proof.zeroKnowledge != []
    && proof.externalNullifier == 0
    && proof.nullifier == ToyNullifier(1, 0)
    && proof.share.x == x
    && OnLine(2, proof.share, 1, 1)
  }

  ghost predicate Passes(env: Env, members: seq<RlnIdentity>, proof: Proof, signal: seq<Byte>, now: U64) {
    && proof.share.x == env.hashToField(signal)
    && env.verify(members, proof)
    && InWindow(env, proof.externalNullifier, now)
  }

  lemma ToyPasses(env: Env, proof: Proof, signal: seq<Byte>, now: U64)
    requires env == ToyEnv() && ToyProof(proof, |signal|) && |signal| < 2 && now == 0
    ensures Passes(env, [TOY_MEMBER], proof, signal, now)
  {
    var members := [TOY_MEMBER];
    assert members[0] == TOY_MEMBER;
  }

  lemma ToyProofs() returns (first: Proof, second: Proof)
    ensures ToyProof(first, 0) && ToyProof(second, 1)
  {
    first := Proof([0], 0, ToyNullifier(1, 0), Share(0, 1));
    second := Proof([0], 0, ToyNullifier(1, 0), Share(1, 0));
  }

  lemma FlaggedAfterRegistering(
      env: Env, ideal: Ideal, member: RlnIdentity, first: Proof, signal: seq<Byte>, second: Proof, signal': seq<Byte>,
      now: U64)
    requires Sound(env, ideal) && OneSlotTwoSignals(first, second)
    requires Passes(env, [member], first, signal, now) && Passes(env, [member], second, signal', now)
    ensures VerdictOf(env, Run(env, [Registered(member)] + [Inbound(first, signal, now)]), second, signal', now)
            == InboundVerdict.Valid(true)
  {
    var evs := [Registered(member)];
    assert evs[..0] == [] && [] + [member] == [member];
    assert Run(env, evs) == State([member], map[]);
    SecondSignalIsFlagged(env, ideal, evs, first, signal, second, signal', now);
  }

  lemma ToySystem()
    returns (env: Env, ideal: Ideal, member: RlnIdentity, first: Proof, second: Proof, signal: seq<Byte>, now: U64)
    ensures Sound(env, ideal) && CollisionFree(env, ideal) && DistinctEpochKeys(env)
    ensures Passes(env, [member], first, [], now) && Passes(env, [member], second, signal, now)
    ensures OneSlotTwoSignals(first, second)
  {
    env, ideal, member, signal, now := ToyEnv(), ToyIdeal(), TOY_MEMBER, [0], 0;
    first, second := ToyProofs();
    ToyPasses(env, first, [], now);
    ToyPasses(env, second, signal, now);
    ToyIsSound();
  }

  /** All assumptions made of the proof system hold together, and not for want of
      proofs that verify: there is a run in which a double signal is flagged. */
  lemma AssumptionsAreConsistent()
    returns (env: Env, ideal: Ideal, evs: seq<Event>, proof: Proof, signal: seq<Byte>, now: U64)
    ensures Sound(env, ideal) && CollisionFree(env, ideal) && DistinctEpochKeys(env) && NeverForgets(evs)
    ensures VerdictOf(env, Run(env, evs), proof, signal, now) == InboundVerdict.Valid(true)
  {
    var member, first;
    env, ideal, member, first, proof, signal, now := ToySystem();
    evs := [Registered(member)] + [Inbound(first, [], now)];
    FlaggedAfterRegistering(env, ideal, member, first, [], proof, signal, now);
  }
}
