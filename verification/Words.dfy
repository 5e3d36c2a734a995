/** Byte-string encodings of numbers: big-endian fixed width, big-endian minimal, and their inverses. */
module Words {
  import opened Prelude

  function Pow256(n: nat): (p: nat)
    ensures p > 0
  {
    if n == 0 then 1 else 256 * Pow256(n - 1)
  }

  /** The number a big-endian byte string denotes. */
  function FromBytes(b: Bytes): nat {
    if b == [] then 0 else FromBytes(b[..|b| - 1]) * 256 + b[|b| - 1]
  }

  /** The last n bytes of v, big-endian. */
  function Fixed(v: nat, n: nat): (b: Bytes)
    ensures |b| == n
  {
    if n == 0 then [] else Fixed(v / 256, n - 1) + [v % 256]
  }

  /** v without leading zero bytes; the empty string for 0. */
  function Minimal(v: nat): (b: Bytes)
    ensures b == [] <==> v == 0
  {
    if v == 0 then [] else Minimal(v / 256) + [v % 256]
  }

  lemma {:induction false} MinimalInverse(v: nat)
    ensures FromBytes(Minimal(v)) == v
  {
    if v > 0 {
      MinimalInverse(v / 256);
      Append(Minimal(v / 256), v % 256);
    }
  }

  lemma {:induction false} FixedInverse(v: nat, n: nat)
    requires v < Pow256(n)
    ensures FromBytes(Fixed(v, n)) == v
  {
    if n > 0 {
      FixedInverse(v / 256, n - 1);
      Append(Fixed(v / 256, n - 1), v % 256);
    }
  }

  lemma {:induction false} FromBytesBound(b: Bytes)
    ensures FromBytes(b) < Pow256(|b|)
  {
    if b != [] {
      FromBytesBound(b[..|b| - 1]);
    }
  }

  lemma Pow256Values()
    ensures Pow256(8) == TWO_64 && Pow256(32) == TWO_256
  {
    assert Pow256(4) == 0x1_0000_0000;
    assert Pow256(8) == TWO_64;
    assert Pow256(12) == TWO_64 * 0x1_0000_0000;
    assert Pow256(16) == TWO_64 * TWO_64;
    assert Pow256(20) == TWO_64 * TWO_64 * 0x1_0000_0000;
    assert Pow256(24) == TWO_64 * TWO_64 * TWO_64;
    assert Pow256(28) == TWO_64 * TWO_64 * TWO_64 * 0x1_0000_0000;
    assert Pow256(32) == TWO_64 * TWO_64 * TWO_64 * TWO_64;
  }

  const TWO_256: nat := TWO_64 * TWO_64 * TWO_64 * TWO_64

  /** A 256-bit word: an EVM balance or storage value. */
  type Word = x: int | 0 <= x < TWO_256 witness 0

  /** The low 256 bits of a big-endian byte string. */
  function ToWord(b: Bytes): Word {
    FromBytes(b) % TWO_256
  }

  lemma {:induction false} WordRoundTrip(v: Word)
    ensures ToWord(Minimal(v)) == v && ToWord(Fixed(v, 32)) == v
  {
    Pow256Values();
    MinimalInverse(v);
    FixedInverse(v, 32);
  }
}
