/**
  31/WAKU2-ENR relay shards: a cluster and its shard indices, as an indices list
  (`rs`) and as a bit vector (`rsv`).
 */
module RelayShards {
  import opened Common
  import opened OrderedLists

  const BIT_VECTOR_SHARDS: nat := 1024
  const BIT_VECTOR_BYTES: nat := 128
  const ALL_SHARDS: nat := 0x1_0000

  datatype RelayShards = RelayShards(clusterId: U16, shards: seq<U16>)

  datatype EnrError =
    | TooShort(len: nat)
    | IndicesLengthMismatch(expected: nat, actual: nat)
    | BitVectorLength(expected: nat, actual: nat)
    | ShardOutOfRange(shard: U16)
    | TooManyShards(count: nat)

  // ----- Ordered shard lists

  ghost predicate Increasing(xs: seq<int>) {
    forall i, j :: 0 <= i < j < |xs| ==> xs[i] < xs[j]
  }

  /** The numbers below n that satisfy p, in order. */
  function Listing(n: nat, p: int -> bool): (xs: seq<int>)
    ensures Increasing(xs)
    ensures forall i :: i in xs <==> 0 <= i < n && p(i)
  {
    if n == 0 then []
    else
      var xs := Listing(n - 1, p);
      assert forall i :: 0 <= i < |xs| ==> xs[i] in xs;
      assert forall i :: i in xs + [n - 1] <==> i in xs || i == n - 1;
      if p(n - 1) then xs + [n - 1] else xs
  }

  lemma IncreasingIsUnique(xs: seq<int>, ys: seq<int>)
    requires Increasing(xs) && Increasing(ys) && forall i :: i in xs <==> i in ys
    ensures xs == ys
  {
    var before := (a: int, b: int) => a < b;
    assert Asymmetric(before) && InOrder(before, xs) && InOrder(before, ys);
    forall i ensures i in xs <==> i in ys {}
    MembersDetermine(before, xs, ys);
  }

  /** Sorted and without duplicates. */
  function New(clusterId: U16, shards: seq<U16>): (d: RelayShards)
    ensures Increasing(d.shards) && forall i :: i in d.shards <==> i in shards
  {
    var listed := Listing(ALL_SHARDS, i => i in shards);
    assert forall i :: 0 <= i < |listed| ==> listed[i] in listed;
    RelayShards(clusterId, listed)
  }

  // ----- The indices list

  function BigEndian(x: U16): (bytes: seq<Byte>)
    ensures |bytes| == 2
  {
    [x / 256, x % 256]
  }

  function FromBigEndian(hi: Byte, lo: Byte): U16 {
    256 * hi + lo
  }

  lemma BigEndianRoundTrip(x: U16)
    ensures FromBigEndian(BigEndian(x)[0], BigEndian(x)[1]) == x
  {
  }

  lemma BigEndianRoundTripBack(hi: Byte, lo: Byte)
    ensures BigEndian(FromBigEndian(hi, lo)) == [hi, lo]
  {
  }

  function PairsOf(shards: seq<U16>): (bytes: seq<Byte>)
    ensures |bytes| == 2 * |shards|
  {
    if shards == [] then [] else BigEndian(shards[0]) + PairsOf(shards[1..])
  }

  function ShardsOf(bytes: seq<Byte>): (shards: seq<U16>)
    requires |bytes| % 2 == 0
    ensures |shards| == |bytes| / 2
  {
    if bytes == [] then [] else [FromBigEndian(bytes[0], bytes[1])] + ShardsOf(bytes[2..])
  }

  function IndicesList(d: RelayShards): Result<seq<Byte>, EnrError> {
    if |d.shards| > 255 then Err(TooManyShards(|d.shards|))
    else Ok(BigEndian(d.clusterId) + [|d.shards|] + PairsOf(d.shards))
  }

  method ToIndicesList(d: RelayShards) returns (r: Result<seq<Byte>, EnrError>)
    ensures r == IndicesList(d)
  {
    if |d.shards| > 255 {
      return Err(TooManyShards(|d.shards|));
    }
    var out := BigEndian(d.clusterId);
    out := out + [|d.shards|];
    ghost var whole := out + PairsOf(d.shards);
    for i := 0 to |d.shards|
      invariant out + PairsOf(d.shards[i..]) == whole
    {
      assert d.shards[i..][1..] == d.shards[i + 1..];
      out := out + BigEndian(d.shards[i]);
    }
    assert d.shards[|d.shards|..] == [] && out + [] == out;
    return Ok(out);
  }

  function FromIndicesList(bytes: seq<Byte>): Result<RelayShards, EnrError> {
    if |bytes| < 3 then Err(TooShort(|bytes|))
    else
      var expected: nat := 3 + 2 * (bytes[2] as int);
      if |bytes| != expected then Err(IndicesLengthMismatch(expected, |bytes|))
      else Ok(RelayShards(FromBigEndian(bytes[0], bytes[1]), ShardsOf(bytes[3..])))
  }

  lemma {:induction false} PairsRoundTrip(shards: seq<U16>)
    ensures ShardsOf(PairsOf(shards)) == shards
  {
    if shards != [] {
      var first, others := shards[0], shards[1..];
      PairsRoundTrip(others);
      BigEndianRoundTrip(first);
      assert PairsOf(shards)[2..] == PairsOf(others);
      assert shards == [first] + others;
    }
  }

  lemma {:induction false} PairsRoundTripBack(bytes: seq<Byte>)
    requires |bytes| % 2 == 0
    ensures PairsOf(ShardsOf(bytes)) == bytes
  {
    if bytes != [] {
      var shards := ShardsOf(bytes);
      PairsRoundTripBack(bytes[2..]);
      BigEndianRoundTripBack(bytes[0], bytes[1]);
      assert shards[1..] == ShardsOf(bytes[2..]);
      assert bytes == [bytes[0], bytes[1]] + bytes[2..];
    }
  }

  /** The indices list of a descriptor decodes to it, whatever its order, exactly
      when it has at most 255 shards. */
  lemma IndicesRoundTrip(d: RelayShards)
    ensures IndicesList(d).Ok? <==> |d.shards| <= 255
    ensures IndicesList(d).Ok? ==> FromIndicesList(IndicesList(d).value) == Ok(d)
  {
    if |d.shards| <= 255 {
      var bytes := IndicesList(d).value;
      BigEndianRoundTrip(d.clusterId);
      PairsRoundTrip(d.shards);
      assert bytes[3..] == PairsOf(d.shards);
    }
  }

  /** Every accepted byte string is the indices list of what it decodes to. */
  lemma IndicesRoundTripBack(bytes: seq<Byte>)
    requires FromIndicesList(bytes).Ok?
    ensures IndicesList(FromIndicesList(bytes).value) == Ok(bytes)
  {
    BigEndianRoundTripBack(bytes[0], bytes[1]);
    PairsRoundTripBack(bytes[3..]);
    assert bytes == [bytes[0], bytes[1]] + [bytes[2]] + bytes[3..];
  }

  // ----- The bit vector

  /** The bits of a number below 2^n, most significant first. */
  function BitsOf(b: nat, n: nat): (bits: seq<bool>)
    ensures |bits| == n
  {
    if n == 0 then [] else BitsOf(b / 2, n - 1) + [b % 2 == 1]
  }

  function NumberOf(bits: seq<bool>): nat {
    if bits == [] then 0
    else 2 * NumberOf(bits[..|bits| - 1]) + (if bits[|bits| - 1] then 1 else 0)
  }

  lemma {:induction false} BitsRoundTrip(bits: seq<bool>)
    ensures BitsOf(NumberOf(bits), |bits|) == bits
  {
    if bits != [] {
      var n := |bits| - 1;
      BitsRoundTrip(bits[..n]);
      assert bits == bits[..n] + [bits[n]];
    }
  }

  lemma {:induction false} BitsRoundTripBack(b: nat, n: nat)
    requires b < Power2(n)
    ensures NumberOf(BitsOf(b, n)) == b
  {
    if n > 0 {
      BitsRoundTripBack(b / 2, n - 1);
      assert BitsOf(b, n)[..n - 1] == BitsOf(b / 2, n - 1);
    }
  }

  lemma {:induction false} NumberFits(bits: seq<bool>)
    ensures NumberOf(bits) < Power2(|bits|)
  {
    if bits != [] {
      NumberFits(bits[..|bits| - 1]);
    }
  }

  predicate HasBit(b: Byte, i: nat)
    requires i < 8
  {
    BitsOf(b, 8)[i]
  }

  /** The byte with bit i, counted from the most significant, or-ed in. */
  function SetBit(b: Byte, i: nat): (r: Byte)
    requires i < 8
    ensures BitsOf(r, 8) == BitsOf(b, 8)[i := true]
  {
    var bits := BitsOf(b, 8)[i := true];
    NumberFits(bits);
    BitsRoundTrip(bits);
    assert Power2(8) == 256;
    NumberOf(bits)
  }

  lemma ByteIsItsBits(a: Byte, b: Byte)
    requires forall i :: 0 <= i < 8 ==> (HasBit(a, i) <==> HasBit(b, i))
    ensures a == b
  {
    assert BitsOf(a, 8) == BitsOf(b, 8) by {
      forall i | 0 <= i < 8 ensures BitsOf(a, 8)[i] == BitsOf(b, 8)[i] {
        assert HasBit(a, i) <==> HasBit(b, i);
      }
    }
    assert Power2(8) == 256;
    BitsRoundTripBack(a, 8);
    BitsRoundTripBack(b, 8);
  }

  /** Whether shard idx is set in a bit vector (or the start of one). */
  predicate HasShard(bytes: seq<Byte>, idx: nat)
    requires |bytes| == 2 + BIT_VECTOR_BYTES && idx < BIT_VECTOR_SHARDS
  {
    HasBit(bytes[2 + idx / 8], idx % 8)
  }

  ghost predicate FirstOutOfRange(shards: seq<U16>, i: nat)
    requires i < |shards|
  {
    shards[i] >= BIT_VECTOR_SHARDS && forall j :: 0 <= j < i ==> shards[j] < BIT_VECTOR_SHARDS
  }

  /** Exactly the given shards are set. */
  ghost predicate Marks(bytes: seq<Byte>, shards: seq<U16>)
    requires |bytes| == 2 + BIT_VECTOR_BYTES
  {
    forall idx :: 0 <= idx < BIT_VECTOR_SHARDS ==> (HasShard(bytes, idx) <==> idx in shards)
  }

  lemma MarksOneMore(bytes: seq<Byte>, shards: seq<U16>, idx: U16)
    requires |bytes| == 2 + BIT_VECTOR_BYTES && idx < BIT_VECTOR_SHARDS && Marks(bytes, shards)
    ensures Marks(bytes[2 + idx / 8 := SetBit(bytes[2 + idx / 8], idx % 8)], shards + [idx])
  {
    var bytes' := bytes[2 + idx / 8 := SetBit(bytes[2 + idx / 8], idx % 8)];
    forall k | 0 <= k < BIT_VECTOR_SHARDS ensures HasShard(bytes', k) <==> k in shards + [idx] {
      assert HasShard(bytes', k) <==> HasShard(bytes, k) || k == idx;
    }
  }

  lemma {:induction false} ZeroHasNoBits(n: nat, i: nat)
    requires i < n
    ensures !BitsOf(0, n)[i]
  {
    if i < n - 1 {
      ZeroHasNoBits(n - 1, i);
    }
  }

  method ToBitVector(d: RelayShards) returns (r: Result<seq<Byte>, EnrError>)
    ensures r.Ok? <==> forall s :: s in d.shards ==> s < 1024
    ensures r.Ok? ==> BitVectorOf(r.value, d)
    ensures r.Err? ==> exists i :: 0 <= i < |d.shards| && FirstOutOfRange(d.shards, i)
                                   && r.error == ShardOutOfRange(d.shards[i])
  {
    var out := new Byte[2 + BIT_VECTOR_BYTES](_ => 0);
    out[0] := BigEndian(d.clusterId)[0];
    out[1] := BigEndian(d.clusterId)[1];
    forall idx: nat | idx < BIT_VECTOR_SHARDS ensures !HasShard(out[..], idx) {
      ZeroHasNoBits(8, idx % 8);
    }
    for i := 0 to |d.shards|
      invariant forall j :: 0 <= j < i ==> d.shards[j] < BIT_VECTOR_SHARDS
      invariant out[..2] == BigEndian(d.clusterId) && Marks(out[..], d.shards[..i])
    {
      var idx := d.shards[i];
      if idx >= BIT_VECTOR_SHARDS {
        assert FirstOutOfRange(d.shards, i) && idx in d.shards;
        return Err(ShardOutOfRange(d.shards[i]));
      }
      MarksOneMore(out[..], d.shards[..i], idx);
      ghost var before := out[..];
      out[2 + idx / 8] := SetBit(out[2 + idx / 8], idx % 8);
      assert out[..] == before[2 + idx / 8 := SetBit(before[2 + idx / 8], idx % 8)];
      assert d.shards[..i + 1] == d.shards[..i] + [idx];
    }
    assert d.shards[..|d.shards|] == d.shards;
    return Ok(out[..]);
  }

  /** The bytes are the bit vector of the descriptor's cluster and set of shards. */
  ghost predicate BitVectorOf(bytes: seq<Byte>, d: RelayShards) {
    |bytes| == 2 + BIT_VECTOR_BYTES && bytes[..2] == BigEndian(d.clusterId) && Marks(bytes, d.shards)
  }

  method FromBitVector(bytes: seq<Byte>) returns (r: Result<RelayShards, EnrError>)
    ensures r == FromBits(bytes)
  {
    if |bytes| != 2 + BIT_VECTOR_BYTES {
      return Err(BitVectorLength(2 + BIT_VECTOR_BYTES, |bytes|));
    }
    var shards: seq<U16> := [];
    for idx := 0 to BIT_VECTOR_SHARDS
      invariant shards == Listing(idx, ShardSetOf(bytes))
    {
      if HasBit(bytes[2 + idx / 8], idx % 8) {
        shards := shards + [idx];
      }
    }
    return Ok(RelayShards(FromBigEndian(bytes[0], bytes[1]), shards));
  }

  function ShardSetOf(bytes: seq<Byte>): int -> bool
    requires |bytes| == 2 + BIT_VECTOR_BYTES
  {
    idx => 0 <= idx < BIT_VECTOR_SHARDS && HasShard(bytes, idx)
  }

  function FromBits(bytes: seq<Byte>): Result<RelayShards, EnrError> {
    if |bytes| != 2 + BIT_VECTOR_BYTES then Err(BitVectorLength(2 + BIT_VECTOR_BYTES, |bytes|))
    else
      var listed := Listing(BIT_VECTOR_SHARDS, ShardSetOf(bytes));
      assert forall i :: 0 <= i < |listed| ==> listed[i] in listed;
      Ok(RelayShards(FromBigEndian(bytes[0], bytes[1]), listed))
  }

  lemma NewKeepsOrdered(d: RelayShards)
    requires Increasing(d.shards)
    ensures New(d.clusterId, d.shards) == d
  {
    IncreasingIsUnique(New(d.clusterId, d.shards).shards, d.shards);
  }

  /** Decoding a bit vector of any descriptor gives that descriptor sorted and
      without duplicates, hence a descriptor that is so already. */
  lemma BitVectorRoundTrip(bytes: seq<Byte>, d: RelayShards)
    requires BitVectorOf(bytes, d) && forall s :: s in d.shards ==> s < BIT_VECTOR_SHARDS
    ensures FromBits(bytes) == Ok(New(d.clusterId, d.shards))
    ensures FromBits(bytes) == Ok(d) <==> Increasing(d.shards)
  {
    if Increasing(d.shards) { NewKeepsOrdered(d); }
    var decoded, wanted := FromBits(bytes).value, New(d.clusterId, d.shards);
    IncreasingIsUnique(decoded.shards, wanted.shards);
    assert bytes[..2][0] == bytes[0] && bytes[..2][1] == bytes[1];
    BigEndianRoundTrip(d.clusterId);
  }

  /** Every 130-byte string is the bit vector of what it decodes to, and of nothing
      else: no other 130-byte string is. */
  lemma BitVectorRoundTripBack(bytes: seq<Byte>, other: seq<Byte>)
    requires |bytes| == 2 + BIT_VECTOR_BYTES
    ensures BitVectorOf(bytes, FromBits(bytes).value)
    ensures BitVectorOf(other, FromBits(bytes).value) ==> other == bytes
  {
    var d := FromBits(bytes).value;
    BigEndianRoundTripBack(bytes[0], bytes[1]);
    assert bytes[..2] == [bytes[0], bytes[1]];
    if BitVectorOf(other, d) {
      SameBits(bytes, other);
    }
  }

  lemma SameBits(a: seq<Byte>, b: seq<Byte>)
    requires |a| == |b| == 2 + BIT_VECTOR_BYTES && a[..2] == b[..2]
    requires forall idx :: 0 <= idx < BIT_VECTOR_SHARDS ==> (HasShard(a, idx) <==> HasShard(b, idx))
    ensures a == b
  {
    forall k | 0 <= k < |a| ensures a[k] == b[k] {
      if k < 2 {
        assert a[k] == a[..2][k] && b[k] == b[..2][k];
      } else {
        forall i: nat | i < 8 ensures HasBit(a[k], i) <==> HasBit(b[k], i) {
          var idx := 8 * (k - 2) + i;
          assert HasShard(a, idx) <==> HasShard(b, idx);
        }
        ByteIsItsBits(a[k], b[k]);
      }
    }
  }

  // ----- The layouts, byte by byte

  function HighFirst(high: int, low: int): int {
    256 * high + low
  }

  lemma {:induction false} PairsLayout(shards: seq<U16>, i: nat)
    requires i < |shards|
    ensures HighFirst(PairsOf(shards)[2 * i], PairsOf(shards)[2 * i + 1]) == shards[i]
  {
    if i > 0 {
      PairsLayout(shards[1..], i - 1);
      assert PairsOf(shards)[2..] == PairsOf(shards[1..]);
    }
  }

  /** Cluster, count and shards, each number with its high byte first. */
  lemma IndicesLayout(d: RelayShards)
    requires IndicesList(d).Ok?
    ensures var bytes := IndicesList(d).value;
      && |bytes| == 3 + 2 * |d.shards|
      && HighFirst(bytes[0], bytes[1]) == d.clusterId
      && bytes[2] == |d.shards|
      && forall i :: 0 <= i < |d.shards| ==> HighFirst(bytes[3 + 2 * i], bytes[4 + 2 * i]) == d.shards[i]
  {
    var bytes := IndicesList(d).value;
    forall i | 0 <= i < |d.shards| ensures HighFirst(bytes[3 + 2 * i], bytes[4 + 2 * i]) == d.shards[i] {
      PairsLayout(d.shards, i);
      assert bytes[3..] == PairsOf(d.shards);
      assert bytes[3 + 2 * i] == bytes[3..][2 * i] && bytes[4 + 2 * i] == bytes[3..][2 * i + 1];
    }
  }

  /** Right shift. */
  function ShiftRight(b: nat, k: nat): nat {
    if k == 0 then b else ShiftRight(b / 2, k - 1)
  }

  lemma {:induction false} BitAt(b: nat, n: nat, i: nat)
    requires i < n
    ensures BitsOf(b, n)[i] <==> ShiftRight(b, n - 1 - i) % 2 == 1
  {
    if i < n - 1 {
      BitAt(b / 2, n - 1, i);
    }
  }

  /** 130 bytes: the cluster, high byte first, then shard idx at bit idx % 8, counted
      from the most significant, of byte idx / 8. */
  lemma BitVectorLayout(bytes: seq<Byte>, d: RelayShards, idx: nat)
    requires BitVectorOf(bytes, d) && idx < 1024
    ensures |bytes| == 130 && HighFirst(bytes[0], bytes[1]) == d.clusterId
    ensures idx in d.shards <==> ShiftRight(bytes[2 + idx / 8], 7 - idx % 8) % 2 == 1
  {
    assert bytes[..2][0] == bytes[0] && bytes[..2][1] == bytes[1];
    assert HasShard(bytes, idx) <==> idx in d.shards;
    BitAt(bytes[2 + idx / 8], 8, idx % 8);
  }
}
