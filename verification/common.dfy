/**
 * Shared vocabulary: bytes, 16-bit versions, an Option type and the
 * little-endian integer layout every fixed-width value uses on the wire.
 */
module Common {

  /** One octet of a byte stream. */
  type byte = x: int | 0 <= x < 0x100

  /** The width of every version number: root, local, start and end versions are `u16`. */
  type u16 = x: int | 0 <= x < 0x1_0000

  type u64 = x: int | 0 <= x < 0x1_0000_0000_0000_0000

  const TWO_TO_THE_64: nat := 0x1_0000_0000_0000_0000

  datatype Option<T> = None | Some(value: T) {
    /** The value, or `default` when absent (`unwrap_or`). */
    function GetOr(default: T): T {
      match this
      case Some(v) => v
      case None => default
    }
  }

  /** 256 to the power `n`: the number of values `n` bytes can hold. */
  function Pow256(n: nat): (r: nat)
    ensures r >= 1
  {
    if n == 0 then 1 else 256 * Pow256(n - 1)
  }

  /** `x` as exactly `n` little-endian bytes (least significant byte first). */
  function EncodeLE(x: nat, n: nat): (r: seq<byte>)
    requires x < Pow256(n)
    ensures |r| == n
    decreases n
  {
    if n == 0 then [] else [x % 256] + EncodeLE(x / 256, n - 1)
  }

  /** The number a little-endian byte string denotes. */
  function DecodeLE(b: seq<byte>): (r: nat)
    ensures r < Pow256(|b|)
  {
    if |b| == 0 then 0 else b[0] + 256 * DecodeLE(b[1..])
  }

  /** Decoding what was encoded returns the number. */
  lemma {:induction false} DecodeEncodeLE(x: nat, n: nat)
    requires x < Pow256(n)
    ensures DecodeLE(EncodeLE(x, n)) == x
    decreases n
  {
    if n > 0 {
      var e := EncodeLE(x, n);
      assert e[1..] == EncodeLE(x / 256, n - 1);
      DecodeEncodeLE(x / 256, n - 1);
    }
  }

  /** Encoding what was decoded returns the bytes: the layout is a bijection. */
  lemma {:induction false} EncodeDecodeLE(b: seq<byte>)
    ensures EncodeLE(DecodeLE(b), |b|) == b
  {
    if |b| > 0 {
      var d := DecodeLE(b);
      assert d % 256 == b[0];
      assert d / 256 == DecodeLE(b[1..]);
      EncodeDecodeLE(b[1..]);
    }
  }

  /** A remainder leaves a value below the modulus unchanged. */
  lemma ModOfSmall(x: int, m: int)
    requires 0 <= x < m
    ensures x % m == x
  {
  }

  /** A remainder lifts a value just below zero by one modulus. */
  lemma ModOfNegative(x: int, m: int)
    requires -m <= x < 0
    ensures x % m == x + m
  {
    assert (x + m) % m == x % m;
    ModOfSmall(x + m, m);
  }

  /** Pow256 is multiplicative in its exponent. */
  lemma {:induction false} Pow256Add(a: nat, b: nat)
    ensures Pow256(a + b) == Pow256(a) * Pow256(b)
    decreases a
  {
    if a > 0 {
      Pow256Add(a - 1, b);
    }
  }
}
