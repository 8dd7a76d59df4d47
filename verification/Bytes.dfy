// Byte strings, 32-byte hashes and little-endian integers.

module Bytes {
  import opened Arith

  type byte = x: int | 0 <= x < 256 witness 0

  /** 256-bit hash. */
  type Hash = h: seq<byte> | |h| == 32 witness seq(32, _ => 0)

  const ZERO_HASH: Hash := [0, 0, 0, 0, 0, 0, 0, 0, 0, 0, 0, 0, 0, 0, 0, 0,
                            0, 0, 0, 0, 0, 0, 0, 0, 0, 0, 0, 0, 0, 0, 0, 0]

  /** The k low bytes of n, least significant first; higher bytes are cut off. */
  function LeBytes(n: nat, k: nat): (b: seq<byte>)
    ensures |b| == k
  {
    if k == 0 then [] else [n % 256] + LeBytes(n / 256, k - 1)
  }

  /** Byte i counts the multiples of 256^i. */
  lemma {:induction false} LeBytesDigit(n: nat, k: nat, i: nat)
    requires i < k
    ensures Pow(256, i) > 0 && LeBytes(n, k)[i] == n / Pow(256, i) % 256
  {
    if i == 0 {
      assert Pow(256, 0) == 1;
    } else {
      LeBytesDigit(n / 256, k - 1, i - 1);
      PowPositive(256, i - 1);
      DivDiv(n, 256, Pow(256, i - 1));
    }
  }

  /** The least significant byte comes first. */
  lemma LeBytesOrder()
    ensures LeBytes(0x0403_0201, 4) == [1, 2, 3, 4]
    ensures FromLe([1, 2, 3, 4]) == 0x0403_0201
  {
    assert [1, 2, 3, 4][1..] == [2, 3, 4] && [2, 3, 4][1..] == [3, 4] && [3, 4][1..] == [4] && [4][1..] == [];
  }

  function FromLe(b: seq<byte>): nat {
    if b == [] then 0 else b[0] + 256 * FromLe(b[1..])
  }

  /** Numbers that fit survive the encoding. */
  lemma {:induction false} LeRoundTrip(n: nat, k: nat)
    requires n < Pow(256, k)
    ensures FromLe(LeBytes(n, k)) == n
  {
    if k > 0 {
      LeRoundTrip(n / 256, k - 1);
      assert LeBytes(n, k)[1..] == LeBytes(n / 256, k - 1);
    }
  }

  /** Every byte string is the encoding of the number it decodes to. */
  lemma {:induction false} LeRoundTripBack(b: seq<byte>)
    ensures FromLe(b) < Pow(256, |b|)
    ensures LeBytes(FromLe(b), |b|) == b
  {
    if b != [] {
      LeRoundTripBack(b[1..]);
      assert FromLe(b) % 256 == b[0];
      assert FromLe(b) / 256 == FromLe(b[1..]);
    }
  }

  const TWO64: nat := 0x1_0000_0000_0000_0000

  lemma WordSizes()
    ensures Pow(256, 4) == TWO32 && Pow(256, 8) == TWO64
  {
    assert Pow(256, 1) == 256;
    assert Pow(256, 2) == 65536;
    assert Pow(256, 4) == TWO32;
    PowAdd(256, 4, 4);
  }
}
