/** Small vocabulary shared by the models. */
module Common {
  datatype Option<+T> = None | Some(value: T) {
    function GetOr(default: T): T {
      if Some? then value else default
    }
  }

  datatype Result<+T, +E> = Ok(value: T) | Err(error: E)

  const TWO_63: int := 0x8000_0000_0000_0000
  const TWO_64: int := 0x1_0000_0000_0000_0000

  type Byte = b: int | 0 <= b < 256

  type U16 = n: int | 0 <= n < 0x1_0000

  type U64 = n: int | 0 <= n < 0x1_0000_0000_0000_0000

  type Peer = seq<Byte>

  datatype WakuMessage = WakuMessage(
    payload: seq<Byte>,
    contentTopic: string,
    version: Option<nat>,
    timestamp: Option<int>,
    meta: Option<seq<Byte>>,
    rateLimitProof: Option<seq<Byte>>,
    ephemeral: Option<bool>)

  function Min(a: int, b: int): int {
    if a <= b then a else b
  }

  function Power2(n: nat): nat {
    if n == 0 then 1 else 2 * Power2(n - 1)
  }
}
