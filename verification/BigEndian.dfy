/** Numbers as bytes, the most significant byte first. */
module BigEndian {
  import opened Media

  const TWO32: nat := 0x1_0000_0000
  const TWO64: nat := 0x1_0000_0000_0000_0000

  datatype Parsed<T> = Nothing | Parsed(value: T, rest: Bytes)

  /** An unsigned 32-bit number stored as a signed one. */
  function Signed32(n: nat): int {
    if n < 0x8000_0000 then n else n - TWO32
  }

  function U32(n: nat): (b: Bytes)
    requires n < TWO32
    ensures |b| == 4
  {
    [n / 0x1000000, n / 0x10000 % 256, n / 256 % 256, n % 256]
  }

  function FromU32(b: Bytes): (n: nat)
    requires |b| == 4
    ensures n < TWO32
  {
    var b0: int, b1: int, b2: int, b3: int := b[0], b[1], b[2], b[3];
    b0 * 0x1000000 + b1 * 0x10000 + b2 * 256 + b3
  }

  lemma U32Inverse(n: nat, b: Bytes)
    ensures n < TWO32 ==> FromU32(U32(n)) == n
    ensures |b| == 4 ==> U32(FromU32(b)) == b
  {
    if n < TWO32 {
      ValueOf(n);
    }
    if |b| == 4 {
      var b0: int, b1: int, b2: int, b3: int := b[0], b[1], b[2], b[3];
      DigitsOf(b0, b1, b2, b3);
      assert b == [b[0], b[1], b[2], b[3]];
    }
  }

  lemma ValueOf(n: nat)
    requires n < TWO32
    ensures n / 0x1000000 * 0x1000000 + n / 0x10000 % 256 * 0x10000 + n / 256 % 256 * 256 + n % 256 == n
  {
    assert n / 256 == n / 0x10000 * 256 + n / 256 % 256;
    assert n / 0x10000 == n / 0x1000000 * 256 + n / 0x10000 % 256;
  }

  lemma DigitsOf(b0: int, b1: int, b2: int, b3: int)
    requires 0 <= b0 < 256 && 0 <= b1 < 256 && 0 <= b2 < 256 && 0 <= b3 < 256
    ensures var m := b0 * 0x1000000 + b1 * 0x10000 + b2 * 256 + b3;
      m / 0x1000000 == b0 && m / 0x10000 % 256 == b1 && m / 256 % 256 == b2 && m % 256 == b3
  {
    var m := b0 * 0x1000000 + b1 * 0x10000 + b2 * 256 + b3;
    assert m / 256 == b0 * 0x10000 + b1 * 256 + b2;
    assert m / 0x10000 == b0 * 256 + b1;
  }

  function U64(n: nat): (b: Bytes)
    requires n < TWO32 * TWO32
    ensures |b| == 8
  {
    U32(n / TWO32) + U32(n % TWO32)
  }

  function ParseU32(d: Bytes): Parsed<nat> {
    if |d| < 4 then Nothing else Parsed(FromU32(d[..4]), d[4..])
  }

  function ParseU64(d: Bytes): Parsed<nat> {
    if |d| < 8 then Nothing else Parsed(FromU32(d[..4]) * TWO32 + FromU32(d[4..8]), d[8..])
  }

  lemma U32Parses(n: nat, rest: Bytes)
    requires n < TWO32
    ensures ParseU32(U32(n) + rest) == Parsed(n, rest)
  {
    U32Inverse(n, []);
    assert (U32(n) + rest)[..4] == U32(n);
  }

  lemma U32IsCanonical(d: Bytes)
    requires ParseU32(d).Parsed?
    ensures ParseU32(d).value < TWO32 && d == U32(ParseU32(d).value) + ParseU32(d).rest
  {
    U32Inverse(0, d[..4]);
  }

  lemma U64Parses(n: nat, rest: Bytes)
    requires n < TWO32 * TWO32
    ensures ParseU64(U64(n) + rest) == Parsed(n, rest)
  {
    U32Inverse(n / TWO32, []);
    U32Inverse(n % TWO32, []);
    var d := U64(n) + rest;
    assert d[..4] == U32(n / TWO32) && d[4..8] == U32(n % TWO32);
  }

  lemma U64IsCanonical(d: Bytes)
    requires ParseU64(d).Parsed?
    ensures ParseU64(d).value < TWO32 * TWO32 && d == U64(ParseU64(d).value) + ParseU64(d).rest
  {
    U32Inverse(0, d[..4]);
    U32Inverse(0, d[4..8]);
    var hi, lo := FromU32(d[..4]), FromU32(d[4..8]);
    assert (hi * TWO32 + lo) / TWO32 == hi && (hi * TWO32 + lo) % TWO32 == lo;
    assert d == d[..4] + d[4..8] + d[8..];
  }
}
