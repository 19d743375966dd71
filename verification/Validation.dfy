/** Relay message validation of 64/WAKU2-NETWORK and the timestamp window. */
module Validation {
  import opened Common

  const TIMESTAMP_TOLERANCE_SECS := 20
  const RLN_MAX_EPOCH_GAP_SECS := 20
  const NANOS := 1_000_000_000

  type I64 = n: int | -0x8000_0000_0000_0000 <= n < 0x8000_0000_0000_0000

  datatype Verdict = Accept | Reject | Ignore

  datatype RlnStatus = Absent | Valid(epochGapSecs: int, doubleSignaling: bool) | Invalid

  datatype MessageFacts = MessageFacts(timestampGapSecs: Option<int>, rln: RlnStatus, shardSaturated: bool)

  datatype ValidationPolicy = ValidationPolicy(enforceRln: bool, timestampToleranceSecs: int, maxEpochGapSecs: int)

  const DEFAULT_POLICY := ValidationPolicy(false, TIMESTAMP_TOLERANCE_SECS, RLN_MAX_EPOCH_GAP_SECS)

  function Abs(x: int): int {
    if x < 0 then -x else x
  }

  function Validate(facts: MessageFacts, policy: ValidationPolicy): Verdict {
    if facts.timestampGapSecs.Some? && Abs(facts.timestampGapSecs.value) > policy.timestampToleranceSecs then Reject
    else if !policy.enforceRln then Accept
    else
      match facts.rln
      case Absent => if facts.shardSaturated then Ignore else Accept
      case Invalid => Reject
      case Valid(gap, doubleSignaling) =>
        if Abs(gap) > policy.maxEpochGapSecs || doubleSignaling then Reject else Accept
  }

  /** Subtraction in 64 bits. */
  function WrapSub(a: I64, b: I64): I64 {
    var d := a - b;
    if d >= TWO_63 then d - TWO_64 else if d < -TWO_63 then d + TWO_64 else d
  }

  /** Division that truncates toward zero. */
  function TruncDiv(a: int, b: int): int
    requires b > 0
  {
    if a < 0 then -((-a) / b) else a / b
  }

  /** The node's decision on a decoded relay message. */
  function RelayVerdict(now: I64, timestamp: Option<I64>): Verdict {
    var gap := if timestamp.Some? then Some(TruncDiv(WrapSub(now, timestamp.value), NANOS)) else None;
    Validate(MessageFacts(gap, Absent, false), DEFAULT_POLICY)
  }

  /** The 20 s rule in effect: a timestamped message is accepted exactly when it is
      less than 21 s away from local time, where near the two ends of the 64-bit range
      distance is measured around the wrap. One without a timestamp is accepted. */
  lemma TimestampWindow(now: I64, timestamp: I64)
    ensures var distance := Abs(now - timestamp);
      RelayVerdict(now, Some(timestamp))
      == if distance < 21_000_000_000 || distance > TWO_64 - 21_000_000_000 then Accept else Reject
    ensures RelayVerdict(now, None) == Accept
  {
    var d := WrapSub(now, timestamp);
    assert Abs(TruncDiv(d, NANOS)) == Abs(d) / NANOS;
  }

  predicate Plain(now: I64, timestamp: I64) {
    RelayVerdict(now, Some(timestamp)) == if Abs(now - timestamp) < 21_000_000_000 then Accept else Reject
  }

  lemma PlainExactly(now: I64, timestamp: I64)
    ensures Plain(now, timestamp) <==> Abs(now - timestamp) <= TWO_64 - 21_000_000_000
  {
    TimestampWindow(now, timestamp);
  }

  /** The plain distance decides for every timestamp exactly when no 64-bit time on
      the far side of the wrap is less than 21 s from the clock. */
  lemma PlainDistanceDecides(now: I64)
    ensures (forall timestamp: I64 :: Plain(now, timestamp))
            <==> -TWO_63 + 20_999_999_999 <= now <= TWO_63 - 21_000_000_000
  {
    forall timestamp: I64 ensures Plain(now, timestamp) <==> Abs(now - timestamp) <= TWO_64 - 21_000_000_000 {
      PlainExactly(now, timestamp);
    }
    var low: I64, high: I64 := -TWO_63, TWO_63 - 1;
    var atEnds := Plain(now, low) && Plain(now, high);
  }

  /** The decision on any facts under any policy: a wrong timestamp is rejected first;
      then, if RLN is enforced, a proof must be valid, recent and no double signal, and
      a message without one is ignored only on a saturated shard. */
  lemma ValidateExactly(facts: MessageFacts, policy: ValidationPolicy)
    ensures var gap, tolerance := facts.timestampGapSecs, policy.timestampToleranceSecs;
      var timely := gap.Some? ==> -tolerance <= gap.value <= tolerance;
      && (Validate(facts, policy) == Ignore
          <==> timely && policy.enforceRln && facts.rln == Absent && facts.shardSaturated)
      && (Validate(facts, policy) == Accept
          <==> timely && (policy.enforceRln ==>
                            || (facts.rln == Absent && !facts.shardSaturated)
                            || (exists gap :: facts.rln == Valid(gap, false)
                                              && -policy.maxEpochGapSecs <= gap <= policy.maxEpochGapSecs)))
  {
  }
}
