// Building blocks shared by the currency model: bytes, Go's 64-bit `uint`,
// the byte-string order of `bytes.Compare`, public keys and the
// cryptographic capability (SHA-256, public-key validation) that the core
// consumes without implementing.

module Primitives {

  type byte = x: int | 0 <= x < 256

  /** Go's `uint` on the 64-bit platforms the node runs on. */
  const UINT_MODULUS: int := 0x1_0000_0000_0000_0000
  type Uint = x: int | 0 <= x < UINT_MODULUS

  /** The outcome of a Go function that returns only an `error`. */
  datatype Outcome<+E> = Pass | Fail(error: E)

  datatype Option<+T> = None | Some(value: T)

  /** The outcome of a Go function that returns a value and an `error`. */
  datatype Result<+T, +E> = Success(value: T) | Failure(error: E)

  // ---------------------------------------------------------------------
  // util.UintToBytes: eight bytes, big-endian

  function Pow256(n: nat): (p: nat)
    ensures p >= 1
  {
    if n == 0 then 1 else 256 * Pow256(n - 1)
  }

  /** The low `n` bytes of `x`, most significant first. */
  function BigEndian(x: nat, n: nat): (b: seq<byte>)
    ensures |b| == n
  {
    if n == 0 then [] else BigEndian(x / 256, n - 1) + [x % 256]
  }

  /** Reads a big-endian byte string back as a number. */
  function FromBigEndian(b: seq<byte>): nat
  {
    if b == [] then 0 else FromBigEndian(b[..|b| - 1]) * 256 + b[|b| - 1]
  }

  function UintToBytes(x: Uint): (b: seq<byte>)
    ensures |b| == 8
  {
    BigEndian(x, 8)
  }

  lemma {:induction false} BigEndianRoundTrip(x: nat, n: nat)
    requires x < Pow256(n)
    ensures FromBigEndian(BigEndian(x, n)) == x
  {
    if n > 0 {
      var b := BigEndian(x, n);
      assert b[..|b| - 1] == BigEndian(x / 256, n - 1);
      assert x / 256 < Pow256(n - 1);
      BigEndianRoundTrip(x / 256, n - 1);
    }
  }

  /** The encoding of a `uint` is lossless: eight bytes determine the value. */
  lemma UintToBytesRoundTrip(x: Uint)
    ensures FromBigEndian(UintToBytes(x)) == x
  {
    assert Pow256(8) == UINT_MODULUS;
    BigEndianRoundTrip(x, 8);
  }

  lemma UintToBytesInjective(x: Uint, y: Uint)
    ensures UintToBytes(x) == UintToBytes(y) <==> x == y
  {
    UintToBytesRoundTrip(x);
    UintToBytesRoundTrip(y);
  }

  // ---------------------------------------------------------------------
  // bytes.Compare: lexicographic order on byte strings

  /** -1, 0 or +1 as `a` sorts before, equal to, or after `b`. */
  function Compare(a: seq<byte>, b: seq<byte>): (c: int)
    ensures -1 <= c <= 1
  {
    if |a| == 0 && |b| == 0 then 0
    else if |a| == 0 then -1
    else if |b| == 0 then 1
    else if a[0] < b[0] then -1
    else if a[0] > b[0] then 1
    else Compare(a[1..], b[1..])
  }

  lemma {:induction false} CompareZeroIffEqual(a: seq<byte>, b: seq<byte>)
    ensures Compare(a, b) == 0 <==> a == b
  {
    if |a| > 0 && |b| > 0 && a[0] == b[0] {
      CompareZeroIffEqual(a[1..], b[1..]);
      assert a == [a[0]] + a[1..] && b == [b[0]] + b[1..];
    }
  }

  lemma {:induction false} CompareAntisymmetric(a: seq<byte>, b: seq<byte>)
    ensures Compare(a, b) == -Compare(b, a)
  {
    if |a| > 0 && |b| > 0 && a[0] == b[0] {
      CompareAntisymmetric(a[1..], b[1..]);
    }
  }

  lemma {:induction false} CompareTransitive(a: seq<byte>, b: seq<byte>, c: seq<byte>)
    requires Compare(a, b) < 0 && Compare(b, c) < 0
    ensures Compare(a, c) < 0
  {
    if |a| > 0 && |b| > 0 && |c| > 0 && a[0] == b[0] == c[0] {
      CompareTransitive(a[1..], b[1..], c[1..]);
    }
  }

  /** `Compare(a, b) <= 0` is a total preorder (indeed a total order). */
  lemma CompareAtMostTransitive(a: seq<byte>, b: seq<byte>, c: seq<byte>)
    requires Compare(a, b) <= 0 && Compare(b, c) <= 0
    ensures Compare(a, c) <= 0
  {
  }

  // ---------------------------------------------------------------------
  // Public keys and the cryptographic capability

  /** A public key, represented by the byte string that its `String()`,
      `Bytes()` and `Equal` all agree on. */
  datatype Publickey = Publickey(bytes: seq<byte>)

  /** operation.FactSign: one signer and its signature over a fact. */
  datatype FactSign = FactSign(signer: Publickey, signature: seq<byte>)

  /** A SHA-256 digest (FIPS 180-4): always 32 bytes. */
  type Digest = d: seq<byte> | |d| == 32 witness seq(32, _ => 0)

  /** What the core consumes from the signature library without
      implementing: public-key validation and SHA-256. Both are left
      uninterpreted: every statement of the model holds for any choice. */
  datatype Crypto = Crypto(
    publickeyIsValid: Publickey -> bool,
    sha256: seq<byte> -> Digest)

  /** A stored value hash (valuehash.Hash) is valid when it is not empty. */
  predicate HashIsValid(h: seq<byte>)
  {
    |h| > 0
  }
}
