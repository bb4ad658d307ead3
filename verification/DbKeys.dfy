/** Database keys of blocks: the short number key and the long number-and-hash key. */
module DbKeys {
  import opened Common

  const U32_RANGE := 0x1_0000_0000
  const HASH_LENGTH := 32

  datatype KeyError = NumberTooLarge | InvalidBlockKey

  /** Four bytes, most significant first. */
  function NumberBytes(n: nat): (key: Bytes)
    requires n < U32_RANGE
    ensures |key| == 4
  {
    [n / 0x100_0000, n / 0x1_0000 % 256, n / 0x100 % 256, n % 256]
  }

  function NumberIndexKey(n: nat): Result<Bytes, KeyError> {
    if n < U32_RANGE then Ok(NumberBytes(n)) else Err(NumberTooLarge)
  }

  function LookupKey(n: nat, hash: Bytes): Result<Bytes, KeyError> {
    match NumberIndexKey(n)
    case Ok(key) => Ok(key + hash)
    case Err(e) => Err(e)
  }

  function LookupKeyToNumber(key: Bytes): Result<nat, KeyError> {
    if |key| < 4 then Err(InvalidBlockKey)
    else
      var a: nat, b: nat, c: nat, d: nat := key[0], key[1], key[2], key[3];
      Ok(a * 0x100_0000 + b * 0x1_0000 + c * 0x100 + d)
  }

  lemma NumberRoundTrip(n: nat, rest: Bytes)
    requires n < U32_RANGE
    ensures LookupKeyToNumber(NumberBytes(n) + rest) == Ok(n)
  {
    var q := n / 0x100;
    var r := q / 0x100;
    assert n / 0x1_0000 == r && n / 0x100_0000 == r / 0x100;
    assert n == q * 0x100 + n % 256 && q == r * 0x100 + q % 256 && r == r / 0x100 * 0x100 + r % 256;
  }

  /** Every long key starts with its block number and ends with its hash. */
  lemma LookupKeyRoundTrip(n: nat, hash: Bytes)
    ensures n < U32_RANGE ==>
              && LookupKey(n, hash).Ok?
              && LookupKeyToNumber(LookupKey(n, hash).value) == Ok(n)
              && LookupKey(n, hash).value[4..] == hash
    ensures n >= U32_RANGE ==> LookupKey(n, hash) == Err(NumberTooLarge)
  {
    if n < U32_RANGE { NumberRoundTrip(n, hash); }
  }

  /** Different numbers have different keys, and different blocks have different long keys. */
  lemma KeysAreInjective(n: nat, hash: Bytes, m: nat, other: Bytes)
    requires n < U32_RANGE && m < U32_RANGE
    ensures NumberBytes(n) == NumberBytes(m) ==> n == m
    ensures LookupKey(n, hash) == LookupKey(m, other) ==> n == m && hash == other
  {
    hide NumberBytes, LookupKeyToNumber;
    NumberRoundTrip(n, []);
    NumberRoundTrip(m, []);
    LookupKeyRoundTrip(n, hash);
    LookupKeyRoundTrip(m, other);
  }
}
