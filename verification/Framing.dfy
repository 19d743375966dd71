/**
  Length-prefixed frames of the store-query protocol: the base-128 varint writer
  and reader, and frames on a byte stream.
 */
module Framing {
  import opened Common

  const MAX_FRAME_LEN: int := 100 * 1024 * 1024

  datatype ReadError = UnexpectedEof | VarintOverflow | FrameTooLong

  // ----- Bitwise or

  /** Bit by bit, least significant last. */
  function Or(a: nat, b: nat): nat
    decreases a + b
  {
    if a == 0 && b == 0 then 0 else 2 * Or(a / 2, b / 2) + (if a % 2 == 1 || b % 2 == 1 then 1 else 0)
  }

  lemma {:induction false} OrZero(b: nat)
    ensures Or(0, b) == b
  {
    if b > 0 {
      OrZero(b / 2);
    }
  }

  lemma Halves(c: nat, p: nat)
    ensures (c * (2 * p)) / 2 == c * p && (c * (2 * p)) % 2 == 0
  {
    assert c * (2 * p) == 2 * (c * p);
  }

  /** Or-ing a multiple of 2^n into a number below it is adding. */
  lemma {:induction false} OrIsSum(a: nat, c: nat, n: nat)
    requires a < Power2(n)
    ensures Or(a, c * Power2(n)) == a + c * Power2(n)
  {
    if n == 0 {
      OrZero(c);
    } else {
      Halves(c, Power2(n - 1));
      OrIsSum(a / 2, c, n - 1);
      assert c * Power2(n) == 2 * (c * Power2(n - 1));
    }
  }

  // ----- Writing

  /** Seven bits a byte, least significant first, the high bit on all but the last. */
  function Encode(v: nat): (bytes: seq<Byte>)
    ensures |bytes| >= 1
  {
    if v < 128 then [v] else [v % 128 + 128] + Encode(v / 128)
  }

  function Power128(k: nat): nat {
    if k == 0 then 1 else 128 * Power128(k - 1)
  }

  lemma {:induction false} EncodeFits(v: nat, k: nat)
    requires k >= 1 && v < Power128(k)
    ensures |Encode(v)| <= k
  {
    if v >= 128 {
      EncodeFits(v / 128, k - 1);
    }
  }

  lemma EncodeFitsBuffer(v: nat)
    requires v < TWO_64
    ensures 1 <= |Encode(v)| <= 10
  {
    assert Power128(5) == 128 * (128 * (128 * (128 * 128)));
    assert Power128(10) == 128 * (128 * (128 * (128 * (128 * Power128(5)))));
    EncodeFits(v, 10);
  }

  lemma OrHighBit(low: nat)
    requires low < 128
    ensures Or(low, 128) == low + 128
  {
    assert Power2(7) == 128;
    OrIsSum(low, 1, 7);
  }

  method WriteUvarint(buf: array<Byte>, value: nat) returns (n: nat)
    requires buf.Length == 10 && value < TWO_64
    modifies buf
    ensures 1 <= n <= 10 && buf[..n] == Encode(value)
  {
    EncodeFitsBuffer(value);
    var v := value;
    n := 0;
    while true
      invariant n + |Encode(v)| <= 10 && buf[..n] + Encode(v) == Encode(value)
      decreases v
    {
      var byte := v % 128;
      ghost var written, left := buf[..n], Encode(v);
      v := v / 128;
      if v != 0 {
        OrHighBit(byte);
        byte := Or(byte, 128);
      }
      buf[n] := byte;
      n := n + 1;
      assert buf[..n] == written + [byte];
      if v == 0 {
        assert left == [byte];
        break;
      }
      assert left == [byte] + Encode(v);
    }
  }

  // ----- Reading

  /** 2 to the shift, for the shifts the reader uses. */
  function Weight(shift: nat): nat {
    match shift
    case 0 => 1
    case 7 => 0x80
    case 14 => 0x4000
    case 21 => 0x20_0000
    case 28 => 0x1000_0000
    case 35 => 0x8_0000_0000
    case 42 => 0x400_0000_0000
    case 49 => 0x2_0000_0000_0000
    case 56 => 0x100_0000_0000_0000
    case 63 => 0x8000_0000_0000_0000
    case _ => 0
  }

  /** Left shift in 64 bits: what is shifted out is lost. */
  function ShiftLeft(x: nat, shift: nat): nat {
    (x * Weight(shift)) % TWO_64
  }

  /** The reader's loop from a given point on. */
  function DecodeLoop(s: seq<Byte>, value: nat, shift: nat): Result<(nat, seq<Byte>), ReadError>
    decreases |s|
  {
    if s == [] then Err(UnexpectedEof)
    else
      var v := Or(value, ShiftLeft(s[0] % 128, shift));
      if s[0] < 128 then Ok((v, s[1..]))
      else if shift + 7 >= 64 then Err(VarintOverflow)
      else DecodeLoop(s[1..], v, shift + 7)
  }

  /** The bits byte k of a varint contributes; only one of the tenth fits. */
  function Bits(byte: Byte, k: nat): nat {
    if k < 9 then byte % 128 else byte % 2
  }

  /** The value of the varint at the head of s, read as byte k of a varint. */
  function Decode(s: seq<Byte>, k: nat): Result<(nat, seq<Byte>), ReadError>
    decreases |s|
  {
    if s == [] then Err(UnexpectedEof)
    else if s[0] < 128 then Ok((Bits(s[0], k), s[1..]))
    else if k >= 9 then Err(VarintOverflow)
    else
      match Decode(s[1..], k + 1)
      case Ok((v, rest)) => Ok((Bits(s[0], k) + 128 * v, rest))
      case Err(e) => Err(e)
  }

  lemma ShiftedBits(byte: Byte, k: nat)
    requires k < 10
    ensures ShiftLeft(byte % 128, 7 * k) == Bits(byte, k) * Weight(7 * k)
  {
    var x, w := byte % 128, Weight(7 * k);
    if k == 9 {
      assert x * w == (x % 2) * w + (x / 2) * TWO_64;
    } else {
      assert w <= 0x100_0000_0000_0000;
      AtMost127(x, w);
    }
  }

  lemma AtMost127(x: nat, w: nat)
    requires x <= 127
    ensures 0 <= x * w <= 127 * w
  {
    assert (127 - x) * w >= 0;
  }

  lemma NextWeight(k: nat)
    requires k < 9
    ensures Weight(7 * (k + 1)) == 128 * Weight(7 * k)
  {
  }

  lemma {:induction false} WeightIsPower(k: nat)
    requires k < 10
    ensures Weight(7 * k) == Power2(7 * k)
  {
    if k > 0 {
      WeightIsPower(k - 1);
      NextWeight(k - 1);
      SevenMore(7 * (k - 1));
    }
  }

  lemma SevenMore(n: nat)
    ensures Power2(n + 7) == 128 * Power2(n)
  {
    assert Power2(n + 2) == 2 * Power2(n + 1);
    assert Power2(n + 4) == 2 * Power2(n + 3);
    assert Power2(n + 6) == 2 * Power2(n + 5);
  }

  /** The bits of byte k land above all earlier ones, so or-ing is adding ... */
  lemma OrAdds(value: nat, byte: Byte, k: nat)
    requires k < 10 && value < Weight(7 * k)
    ensures Or(value, ShiftLeft(byte % 128, 7 * k)) == value + Bits(byte, k) * Weight(7 * k)
  {
    ShiftedBits(byte, k);
    WeightIsPower(k);
    OrIsSum(value, Bits(byte, k), 7 * k);
  }

  /** ... and the next byte's bits land above the result. */
  lemma NoOverlap(value: nat, byte: Byte, k: nat)
    requires k < 9 && value < Weight(7 * k)
    ensures Or(value, ShiftLeft(byte % 128, 7 * k)) < Weight(7 * (k + 1))
  {
    OrAdds(value, byte, k);
    NextWeight(k);
    AtMost127(byte % 128, Weight(7 * k));
  }

  lemma Regroup(value: nat, low: nat, w: nat, v: nat)
    ensures (value + low * w) + v * (128 * w) == value + (low + 128 * v) * w
  {
    assert v * (128 * w) == (128 * v) * w;
  }

  lemma DecodeLoopMore(s: seq<Byte>, value: nat, k: nat)
    requires k < 9 && s != [] && s[0] >= 128 && value < Weight(7 * k)
    ensures var v := value + Bits(s[0], k) * Weight(7 * k);
      v < Weight(7 * (k + 1)) && DecodeLoop(s, value, 7 * k) == DecodeLoop(s[1..], v, 7 * (k + 1))
  {
    OrAdds(value, s[0], k);
    NoOverlap(value, s[0], k);
  }

  lemma DecodeLoopEnds(s: seq<Byte>, value: nat, k: nat)
    requires k < 10 && value < Weight(7 * k) && (s == [] || s[0] < 128 || k == 9)
    ensures DecodeLoop(s, value, 7 * k) == Plus(value, Decode(s, k), Weight(7 * k))
  {
    if s != [] {
      OrAdds(value, s[0], k);
    }
  }

  /** The value so far and what is still to come, which weighs w. */
  function Plus(value: nat, r: Result<(nat, seq<Byte>), ReadError>, w: nat): Result<(nat, seq<Byte>), ReadError> {
    match r
    case Ok((v, rest)) => Ok((value + v * w, rest))
    case Err(e) => Err(e)
  }

  lemma PlusMore(s: seq<Byte>, value: nat, k: nat, w: nat)
    requires k < 9 && s != [] && s[0] >= 128
    ensures Plus(value + Bits(s[0], k) * w, Decode(s[1..], k + 1), 128 * w) == Plus(value, Decode(s, k), w)
  {
    if Decode(s[1..], k + 1).Ok? {
      Regroup(value, Bits(s[0], k), w, Decode(s[1..], k + 1).value.0);
    }
  }

  /** The shift-and-or loop computes the positional value. */
  lemma {:induction false} LoopDecodes(s: seq<Byte>, value: nat, k: nat)
    requires k < 10 && value < Weight(7 * k)
    ensures DecodeLoop(s, value, 7 * k) == Plus(value, Decode(s, k), Weight(7 * k))
    decreases |s|
  {
    if s == [] || s[0] < 128 || k == 9 {
      DecodeLoopEnds(s, value, k);
    } else {
      var w := Weight(7 * k);
      DecodeLoopMore(s, value, k);
      NextWeight(k);
      LoopDecodes(s[1..], value + Bits(s[0], k) * w, k + 1);
      PlusMore(s, value, k, w);
    }
  }

  /** What the reader leaves of the stream, byte k of a varint being next. */
  function Unread(s: seq<Byte>, k: nat): seq<Byte>
    decreases |s|
  {
    if s == [] then [] else if s[0] < 128 || k >= 9 then s[1..] else Unread(s[1..], k + 1)
  }

  function Frame(payload: seq<Byte>): seq<Byte> {
    Encode(|payload|) + payload
  }

  function ReadFrame(s: seq<Byte>): Result<(seq<Byte>, seq<Byte>), ReadError> {
    match Decode(s, 0)
    case Err(e) => Err(e)
    case Ok((len, rest)) =>
      if len > MAX_FRAME_LEN then Err(FrameTooLong)
      else if |rest| < len then Err(UnexpectedEof)
      else Ok((rest[..len], rest[len..]))
  }

  /** What reading a frame leaves of the stream, also when it fails. */
  function UnreadFrame(s: seq<Byte>): seq<Byte> {
    match Decode(s, 0)
    case Err(_) => Unread(s, 0)
    case Ok((len, rest)) =>
      if len > MAX_FRAME_LEN then rest else if |rest| < len then [] else rest[len..]
  }

  class ByteStream {
    var data: seq<Byte>

    constructor (data: seq<Byte>)
      ensures this.data == data
    {
      this.data := data;
    }

    /** Reads exactly n bytes, or fails at the end of the stream. */
    method ReadExact(n: nat) returns (r: Result<seq<Byte>, ReadError>)
      modifies this
      ensures |old(data)| < n ==> r == Err(UnexpectedEof) && data == []
      ensures |old(data)| >= n ==> r == Ok(old(data)[..n]) && data == old(data)[n..]
    {
      if |data| < n {
        data := [];
        return Err(UnexpectedEof);
      }
      r := Ok(data[..n]);
      data := data[n..];
    }

    method ReadUvarint() returns (r: Result<nat, ReadError>)
      modifies this
      ensures match Decode(old(data), 0)
              case Ok((value, rest)) => r == Ok(value) && data == rest
              case Err(e) =>
                && r == Err(e)
                && data == old(data)[Min(10, |old(data)|)..]
                && (e == VarintOverflow <==> |old(data)| >= 10)
      ensures data == Unread(old(data), 0)
    {
      LoopDecodes(data, 0, 0);
      ReaderLeaves(data);
      var value: nat := 0;
      var shift := 0;
      ghost var k := 0;
      while true
        invariant DecodeLoop(data, value, shift) == DecodeLoop(old(data), 0, 0)
        invariant Unread(data, k) == Unread(old(data), 0)
        invariant shift == 7 * k && k < 10 && value < Weight(shift)
        decreases |data|
      {
        var one := ReadExact(1);
        if one.Err? {
          return Err(one.error);
        }
        var byte := one.value[0];
        ghost var before := value;
        value := Or(value, ShiftLeft(byte % 128, shift));
        if byte < 128 {
          break;
        }
        shift := shift + 7;
        if shift >= 64 {
          return Err(VarintOverflow);
        }
        NoOverlap(before, byte, k);
        k := k + 1;
      }
      return Ok(value);
    }

    method ReadLp() returns (r: Result<seq<Byte>, ReadError>)
      modifies this
      ensures match ReadFrame(old(data))
              case Ok((frame, rest)) => r == Ok(frame) && data == rest
              case Err(e) =>
                && r == Err(e)
                && data == UnreadFrame(old(data))
                && (e == UnexpectedEof ==> data == [])
                && (e != UnexpectedEof ==> |old(data)| - |data| <= 10)
    {
      if ReadFrame(data).Err? { FailedReadLeaves(data); }
      var len := ReadUvarint();
      if len.Err? {
        return Err(len.error);
      }
      if len.value > MAX_FRAME_LEN {
        return Err(FrameTooLong);
      }
      r := ReadExact(len.value);
    }

    method WriteLp(frame: seq<Byte>)
      requires |frame| < TWO_64
      modifies this
      ensures data == old(data) + Frame(frame)
    {
      var prefix := new Byte[10];
      var n := WriteUvarint(prefix, |frame|);
      data := data + prefix[..n];
      data := data + frame;
    }
  }

  // ----- The varint round trip

  /** The values that fit from byte k on. */
  function Room(k: nat): (room: nat)
    requires k < 10
    ensures room >= 2
    decreases 9 - k
  {
    if k == 9 then 2 else 128 * Room(k + 1)
  }

  lemma DecodeMore(s: seq<Byte>, k: nat, hi: nat, rest: seq<Byte>)
    requires k < 9 && s != [] && s[0] >= 128 && Decode(s[1..], k + 1) == Ok((hi, rest))
    ensures Decode(s, k) == Ok((s[0] % 128 + 128 * hi, rest))
  {
  }

  lemma EncodeMore(v: nat, rest: seq<Byte>)
    requires v >= 128
    ensures var s := Encode(v) + rest;
      s[0] >= 128 && s[0] % 128 + 128 * (v / 128) == v && s[1..] == Encode(v / 128) + rest
  {
  }

  lemma {:induction false} DecodesFrom(v: nat, rest: seq<Byte>, k: nat)
    requires k < 10 && v < Room(k)
    ensures Decode(Encode(v) + rest, k) == Ok((v, rest))
  {
    var s := Encode(v) + rest;
    if v < 128 {
      assert s == [v] + rest && s[1..] == rest;
    } else {
      EncodeMore(v, rest);
      DecodesFrom(v / 128, rest, k + 1);
      DecodeMore(s, k, v / 128, rest);
    }
  }

  /** Whatever follows, reading a written varint gives back the value and leaves
      what follows. */
  lemma VarintRoundTrip(v: nat, rest: seq<Byte>)
    requires v < TWO_64
    ensures Decode(Encode(v) + rest, 0) == Ok((v, rest))
  {
    assert Room(5) == 128 * (128 * (128 * (128 * Room(9))));
    assert Room(0) == 128 * (128 * (128 * (128 * (128 * Room(5)))));
    DecodesFrom(v, rest, 0);
  }

  /** What the reader does with any input. If the first ten bytes have the high bit
      set it consumes them and reports an overflow; if there are fewer, it consumes
      all and reports an incomplete varint ... */
  lemma {:induction false} ReaderGivesUp(s: seq<Byte>, k: nat)
    requires k < 10 && forall i :: 0 <= i < |s| && i < 10 - k ==> s[i] >= 128
    ensures Decode(s, k) == if |s| < 10 - k then Err(UnexpectedEof) else Err(VarintOverflow)
    ensures Unread(s, k) == s[Min(10 - k, |s|)..]
  {
    if s != [] && k < 9 {
      ReaderGivesUp(s[1..], k + 1);
    }
  }

  /** ... and otherwise it consumes up to the first byte without the high bit,
      which is at most ten bytes. */
  lemma {:induction false} ReaderStops(s: seq<Byte>, k: nat, n: nat)
    requires k + n < 10 && n < |s| && s[n] < 128
    requires forall i :: 0 <= i < n ==> s[i] >= 128
    ensures Decode(s, k).Ok? && Decode(s, k).value.1 == Unread(s, k) == s[n + 1..]
    ensures Decode(s, k).value.0 < Room(k)
  {
    if n > 0 {
      ReaderStops(s[1..], k + 1, n - 1);
      assert s[1..][n..] == s[n + 1..];
    }
  }

  /** Position of the first byte without the high bit among the first m, or m. */
  function FirstLow(s: seq<Byte>, m: nat): (n: nat)
    requires m <= |s|
    ensures n <= m && (n < m ==> s[n] < 128) && forall i :: 0 <= i < n ==> s[i] >= 128
  {
    if m == 0 then 0
    else
      var n := FirstLow(s, m - 1);
      if n < m - 1 || s[n] < 128 then n else m
  }

  /** Every read consumes at most ten bytes: a failed one ten, or all there are. */
  lemma ReaderLeaves(s: seq<Byte>)
    ensures match Decode(s, 0)
            case Ok((_, rest)) => rest == Unread(s, 0) && 1 <= |s| - |rest| <= 10
            case Err(e) => Unread(s, 0) == s[Min(10, |s|)..] && (e == VarintOverflow <==> |s| >= 10)
    ensures |Unread(s, 0)| <= |s| && Unread(s, 0) == s[|s| - |Unread(s, 0)|..]
  {
    var m := Min(10, |s|);
    var n := FirstLow(s, m);
    if n < m { ReaderStops(s, 0, n); } else { ReaderGivesUp(s, 0); }
  }

  // ----- Frames

  /** A frame reads back as its payload exactly when it is within the limit; the
      writer does not check, the reader refuses. */
  lemma FrameRoundTrip(payload: seq<Byte>, rest: seq<Byte>)
    requires |payload| < TWO_64
    ensures ReadFrame(Frame(payload) + rest)
            == if |payload| <= 104_857_600 then Ok((payload, rest)) else Err(FrameTooLong)
  {
    assert Frame(payload) + rest == Encode(|payload|) + (payload + rest);
    VarintRoundTrip(|payload|, payload + rest);
    assert (payload + rest)[..|payload|] == payload && (payload + rest)[|payload|..] == rest;
  }

  /** Whatever is on the stream, a frame that is refused as too long costs at most
      its ten prefix bytes, and one that is cut short costs all that is left. */
  lemma FailedReadLeaves(s: seq<Byte>)
    requires ReadFrame(s).Err?
    ensures var left := UnreadFrame(s);
      match ReadFrame(s).error
      case UnexpectedEof => left == []
      case VarintOverflow => |s| >= 10 && left == s[10..]
      case FrameTooLong => |s| - 10 <= |left| < |s| && left == s[|s| - |left|..]
  {
    ReaderLeaves(s);
  }

  function WriteAll(write: seq<Byte> -> seq<Byte>, payloads: seq<seq<Byte>>): seq<Byte> {
    if payloads == [] then [] else write(payloads[0]) + WriteAll(write, payloads[1..])
  }

  function ReadAll(
      read: seq<Byte> -> Result<(seq<Byte>, seq<Byte>), ReadError>, s: seq<Byte>, n: nat)
    : Result<(seq<seq<Byte>>, seq<Byte>), ReadError>
    decreases n
  {
    if n == 0 then Ok(([], s))
    else
      match read(s)
      case Err(e) => Err(e)
      case Ok((frame, rest)) =>
        match ReadAll(read, rest, n - 1)
        case Err(e) => Err(e)
        case Ok((frames, rest')) => Ok(([frame] + frames, rest'))
  }

  lemma {:induction false} ReadsAll(
      write: seq<Byte> -> seq<Byte>,
      read: seq<Byte> -> Result<(seq<Byte>, seq<Byte>), ReadError>,
      payloads: seq<seq<Byte>>, rest: seq<Byte>)
    requires forall p, r :: p in payloads ==> read(write(p) + r) == Ok((p, r))
    ensures ReadAll(read, WriteAll(write, payloads) + rest, |payloads|) == Ok((payloads, rest))
  {
    if payloads == [] {
      assert WriteAll(write, payloads) + rest == rest;
    } else {
      var first, others := payloads[0], payloads[1..];
      var tail := WriteAll(write, others) + rest;
      assert payloads == [first] + others;
      ReadsAll(write, read, others, rest);
      assert WriteAll(write, payloads) + rest == write(first) + tail;
      ReadsOneMore(read, write(first) + tail, |others|, first, tail, others, rest);
    }
  }

  lemma ReadsOneMore(
      read: seq<Byte> -> Result<(seq<Byte>, seq<Byte>), ReadError>,
      s: seq<Byte>, n: nat, first: seq<Byte>, tail: seq<Byte>, others: seq<seq<Byte>>, rest: seq<Byte>)
    requires read(s) == Ok((first, tail)) && ReadAll(read, tail, n) == Ok((others, rest))
    ensures ReadAll(read, s, n + 1) == Ok(([first] + others, rest))
  {
  }

  /** Any concatenation of frames within the limit reads back as the same list. */
  lemma FramesRoundTrip(payloads: seq<seq<Byte>>, rest: seq<Byte>)
    requires forall p :: p in payloads ==> |p| <= MAX_FRAME_LEN
    ensures ReadAll(ReadFrame, WriteAll(Frame, payloads) + rest, |payloads|) == Ok((payloads, rest))
  {
    forall p, r | p in payloads ensures ReadFrame(Frame(p) + r) == Ok((p, r)) {
      FrameRoundTrip(p, r);
    }
    ReadsAll(Frame, ReadFrame, payloads, rest);
  }
}
