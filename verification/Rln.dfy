/**
  17/WAKU2-RLN-RELAY on the inbound side: the per-epoch nullifier log, Shamir
  secret recovery, and the validator that gates relayed messages.

  The zero-knowledge proof system and the hashes are foreign. They enter as the
  functions of an `Env`, and what they promise is the predicate `Sound`.
 */
module Rln {
  import opened Common
  import opened PrimeField

  datatype Share = Share(x: Fr, y: Fr)

  /** The zero-knowledge part of a proof, which only verification reads, and the
      public values that the relay reads. */
  datatype Proof = Proof(zeroKnowledge: seq<Byte>, externalNullifier: Fr, nullifier: Fr, share: Share)

  datatype RlnIdentity = RlnIdentity(secret: Fr, limit: nat)

  datatype RlnError = NoSlope

  datatype NullifierOutcome = Fresh | Duplicate | DoubleSignaling(recovered: Fr)

  datatype InboundVerdict = Valid(doubleSignaling: bool) | Invalid

  /** Nullifiers seen, by epoch key and then by internal nullifier. */
  type Seen = map<Fr, map<Fr, Share>>

  // ----- Shamir recovery

  /** The constant term of the line through two shares; no line when x repeats. */
  function ComputeIdSecret(p: int, s: Share, t: Share): Result<Fr, RlnError>
    requires Prime(p)
  {
    var dx := (s.x - t.x) % p;
    if dx == 0 then Err(NoSlope) else Ok(ConstantTerm(p, s, t, Inverse(p, dx)))
  }

  function ConstantTerm(p: int, s: Share, t: Share, inverse: Fr): Fr
    requires p > 0
  {
    var slope := ((s.y - t.y) * inverse) % p;
    (s.y - s.x * slope) % p
  }

  predicate OnLine(p: int, s: Share, a0: Fr, a1: Fr)
    requires p > 0
  {
    0 <= s.x < p && s.y == (a0 + a1 * s.x) % p
  }

  lemma Rise(p: int, s: Share, t: Share, a0: Fr, a1: Fr)
    requires p > 0 && OnLine(p, s, a0, a1) && OnLine(p, t, a0, a1)
    ensures Same(p, s.y - t.y, a1 * (s.x - t.x))
  {
    var u, v := a1 * s.x, a1 * t.x;
    Reduced(p, a0 + u);
    Reduced(p, a0 + v);
    SameAdd(p, s.y, a0 + u, t.y, a0 + v);
    Distribute(a1, s.x, t.x);
  }

  lemma Intercept(p: int, s: Share, a0: Fr, a1: Fr, slope: Fr)
    requires p > 0 && 0 <= a0 < p && OnLine(p, s, a0, a1) && Same(p, slope, a1)
    ensures (s.y - s.x * slope) % p == a0
  {
    var u, v := a1 * s.x, s.x * slope;
    SameMul(p, s.x, s.x, slope, a1);
    Small(p, a0);
    Reduced(p, a0 + u);
    SameAdd(p, s.y, a0 + u, v, u);
  }

  lemma RecoversWithInverse(p: int, s: Share, t: Share, a0: Fr, a1: Fr, i: int)
    requires p > 1 && 0 <= a0 < p && OnLine(p, s, a0, a1) && OnLine(p, t, a0, a1)
    requires (((s.x - t.x) % p) * i) % p == 1
    ensures ConstantTerm(p, s, t, i) == a0
  {
    var dx, dy := s.x - t.x, s.y - t.y;
    InverseOfResidue(p, dx, i);
    Rise(p, s, t, a0, a1);
    Cancel(p, dy, a1, dx, i);
    Reduced(p, dy * i);
    Intercept(p, s, a0, a1, (dy * i) % p);
  }

  lemma SharesWithSlope(p: int, s: Share, t: Share)
    requires Prime(p) && 0 <= s.x < p && 0 <= t.x < p
    ensures if s.x == t.x then ComputeIdSecret(p, s, t) == Err(NoSlope)
            else 0 < (s.x - t.x) % p
  {
    if s.x == t.x { Small(p, 0); } else { DistinctResidues(p, s.x, t.x); }
  }

  /** Two shares of one line with different x give back its constant term. */
  lemma RecoversSecret(p: int, s: Share, t: Share, a0: Fr, a1: Fr)
    requires Prime(p) && 0 <= a0 < p && OnLine(p, s, a0, a1) && OnLine(p, t, a0, a1)
    ensures ComputeIdSecret(p, s, t) == if s.x == t.x then Err(NoSlope) else Ok(a0)
  {
    SharesWithSlope(p, s, t);
    if s.x != t.x {
      var i := Inverse(p, (s.x - t.x) % p);
      assert ComputeIdSecret(p, s, t) == Ok(ConstantTerm(p, s, t, i));
      RecoversWithInverse(p, s, t, a0, a1, i);
    }
  }

  // ----- The nullifier log

  function Lookup(seen: Seen, epoch: Fr, nullifier: Fr): Option<Share> {
    if epoch in seen && nullifier in seen[epoch] then Some(seen[epoch][nullifier]) else None
  }

  function Bucket(seen: Seen, epoch: Fr): map<Fr, Share> {
    if epoch in seen then seen[epoch] else map[]
  }

  function Record(seen: Seen, proof: Proof): Seen {
    var bucket := Bucket(seen, proof.externalNullifier);
    seen[proof.externalNullifier :=
      if proof.nullifier in bucket then bucket else bucket[proof.nullifier := proof.share]]
  }

  function Classify(p: int, seen: Seen, proof: Proof): Result<NullifierOutcome, RlnError>
    requires Prime(p)
  {
    match Lookup(seen, proof.externalNullifier, proof.nullifier)
    case None => Ok(Fresh)
    case Some(prev) =>
      if prev == proof.share then Ok(Duplicate)
      else
        match ComputeIdSecret(p, prev, proof.share)
        case Err(e) => Err(e)
        case Ok(secret) => Ok(DoubleSignaling(secret))
  }

  class NullifierLog {
    const modulus: int
    var seen: Seen

    ghost predicate Valid() {
      Prime(modulus)
    }

    constructor (p: int)
      requires Prime(p)
      ensures Valid() && modulus == p && seen == map[]
    {
      modulus := p;
      seen := map[];
    }

    method Observe(proof: Proof) returns (r: Result<NullifierOutcome, RlnError>)
      requires Valid()
      modifies this
      ensures seen == Record(old(seen), proof)
      ensures r == Classify(modulus, old(seen), proof)
    {
      var epoch := proof.externalNullifier;
      if epoch !in seen {
        seen := seen[epoch := map[]];
      }
      var bucket := seen[epoch];
      if proof.nullifier !in bucket {
        seen := seen[epoch := bucket[proof.nullifier := proof.share]];
        return Ok(Fresh);
      }
      assert seen == old(seen)[epoch := bucket];
      var prev := bucket[proof.nullifier];
      if prev == proof.share {
        return Ok(Duplicate);
      }
      var secret := ComputeIdSecret(modulus, prev, proof.share);
      match secret
      case Err(e) => return Err(e);
      case Ok(s) => return Ok(DoubleSignaling(s));
    }

    method ForgetEpoch(externalNullifier: Fr)
      modifies this
      ensures seen == old(seen) - {externalNullifier}
    {
      seen := seen - {externalNullifier};
    }
  }

  datatype LogOp = Observed(proof: Proof) | Forgotten(externalNullifier: Fr)

  function LogStep(seen: Seen, op: LogOp): Seen {
    match op
    case Observed(proof) => Record(seen, proof)
    case Forgotten(e) => seen - {e}
  }

  function LogRun(ops: seq<LogOp>): Seen {
    if ops == [] then map[] else LogStep(LogRun(ops[..|ops| - 1]), ops[|ops| - 1])
  }

  predicate Sighting(op: LogOp, epoch: Fr, nullifier: Fr) {
    op.Observed? && op.proof.externalNullifier == epoch && op.proof.nullifier == nullifier
  }

  /** Where the memory of an epoch begins: just after the last forget of it. */
  function Since(ops: seq<LogOp>, epoch: Fr): (start: nat)
    ensures start <= |ops| && (start > 0 ==> ops[start - 1] == Forgotten(epoch))
    ensures forall j :: start <= j < |ops| ==> ops[j] != Forgotten(epoch)
  {
    var n := |ops|;
    if n == 0 || ops[n - 1] == Forgotten(epoch) then n
    else
      var start := Since(ops[..n - 1], epoch);
      assert forall j :: start <= j < n - 1 ==> ops[j] == ops[..n - 1][j];
      start
  }

  ghost predicate Unseen(ops: seq<LogOp>, epoch: Fr, nullifier: Fr, until: int)
    requires until <= |ops|
  {
    forall j :: Since(ops, epoch) <= j < until ==> !Sighting(ops[j], epoch, nullifier)
  }

  /** Operation i is the earliest sighting of the pair since its epoch was last forgotten. */
  ghost predicate FirstSighting(ops: seq<LogOp>, epoch: Fr, nullifier: Fr, i: int) {
    && Since(ops, epoch) <= i < |ops|
    && Sighting(ops[i], epoch, nullifier)
    && Unseen(ops, epoch, nullifier, i)
  }

  lemma LookupAfter(seen: Seen, op: LogOp, epoch: Fr, nullifier: Fr)
    ensures var before := Lookup(seen, epoch, nullifier);
      Lookup(LogStep(seen, op), epoch, nullifier) ==
        if op == Forgotten(epoch) then None
        else if before == None && Sighting(op, epoch, nullifier) then Some(op.proof.share)
        else before
  {
  }

  lemma {:induction false} LogAnatomy(ops: seq<LogOp>, epoch: Fr, nullifier: Fr) returns (i: int)
    ensures match Lookup(LogRun(ops), epoch, nullifier)
            case None => Unseen(ops, epoch, nullifier, |ops|)
            case Some(share) => FirstSighting(ops, epoch, nullifier, i) && ops[i].proof.share == share
  {
    i := -1;
    if ops != [] {
      var n := |ops| - 1;
      i := LogAnatomy(ops[..n], epoch, nullifier);
      LookupAfter(LogRun(ops[..n]), ops[n], epoch, nullifier);
      if ops[n] != Forgotten(epoch) {
        assert Since(ops, epoch) == Since(ops[..n], epoch);
        if Lookup(LogRun(ops[..n]), epoch, nullifier) == None {
          assert Unseen(ops, epoch, nullifier, n);
          i := n;
        } else {
          assert Unseen(ops, epoch, nullifier, i);
        }
      }
    }
  }

  /** The log holds exactly the share of the first sighting since the last
      forget: later shares never overwrite it. */
  lemma LogKeepsFirstShare(ops: seq<LogOp>, epoch: Fr, nullifier: Fr, share: Share)
    ensures Lookup(LogRun(ops), epoch, nullifier) == Some(share)
            <==> exists i :: FirstSighting(ops, epoch, nullifier, i) && ops[i].proof.share == share
  {
    var i := LogAnatomy(ops, epoch, nullifier);
  }

  /** After any history, a share on the same line as the first sighting is a
      replay if it is that share, and otherwise gives the line's secret away. */
  lemma LaterShareRecovers(p: int, ops: seq<LogOp>, i: nat, proof: Proof, a0: Fr, a1: Fr)
    requires Prime(p) && 0 <= a0 < p
    requires FirstSighting(ops, proof.externalNullifier, proof.nullifier, i)
    requires OnLine(p, ops[i].proof.share, a0, a1) && OnLine(p, proof.share, a0, a1)
    ensures Classify(p, LogRun(ops), proof)
            == Ok(if proof.share.x == ops[i].proof.share.x then Duplicate else DoubleSignaling(a0))
  {
    LogKeepsFirstShare(ops, proof.externalNullifier, proof.nullifier, ops[i].proof.share);
    RecoversSecret(p, ops[i].proof.share, proof.share, a0, a1);
  }

  /** What observing a proof reports, by the history alone: fresh exactly when the
      pair was not sighted since its epoch was last forgotten; else by comparison
      with the first sighting, a replay if the share is the same, an error if only x
      is, and otherwise a double signal. */
  lemma ObservedExactly(p: int, ops: seq<LogOp>, proof: Proof, i: int)
    requires Prime(p)
    ensures var seen, ext, nullifier := LogRun(ops), proof.externalNullifier, proof.nullifier;
      && (Classify(p, seen, proof) == Ok(Fresh) <==> Unseen(ops, ext, nullifier, |ops|))
      && (FirstSighting(ops, ext, nullifier, i) ==>
            var first, outcome := ops[i].proof.share, Classify(p, seen, proof);
            if first == proof.share then outcome == Ok(Duplicate)
            else if (first.x - proof.share.x) % p == 0 then outcome == Err(NoSlope)
            else outcome.Ok? && outcome.value.DoubleSignaling?)
  {
    var ext, nullifier := proof.externalNullifier, proof.nullifier;
    LogKeepsFirstShareAt(ops, ext, nullifier, i);
    ClassifyByHeld(p, LogRun(ops), proof);
  }

  lemma ClassifyByHeld(p: int, seen: Seen, proof: Proof)
    requires Prime(p)
    ensures var held, outcome := Lookup(seen, proof.externalNullifier, proof.nullifier), Classify(p, seen, proof);
      if held == None then outcome == Ok(Fresh)
      else if held.value == proof.share then outcome == Ok(Duplicate)
      else if (held.value.x - proof.share.x) % p == 0 then outcome == Err(NoSlope)
      else outcome.Ok? && outcome.value.DoubleSignaling?
  {
  }

  lemma LogKeepsFirstShareAt(ops: seq<LogOp>, epoch: Fr, nullifier: Fr, i: int)
    ensures Lookup(LogRun(ops), epoch, nullifier) == None <==> Unseen(ops, epoch, nullifier, |ops|)
    ensures FirstSighting(ops, epoch, nullifier, i) ==>
              Lookup(LogRun(ops), epoch, nullifier) == Some(ops[i].proof.share)
  {
    var j := LogAnatomy(ops, epoch, nullifier);
    if Lookup(LogRun(ops), epoch, nullifier).Some? {
      assert Sighting(ops[j], epoch, nullifier);
    }
  }
}
