/** Bytes, fixed-width integers and the little- and big-endian codecs the formats use. */
module Bytes {

  newtype byte = x: int | 0 <= x < 256

  type bytes = seq<byte>
  type u16 = x: nat | x < 0x1_0000
  type u32 = x: nat | x < 0x1_0000_0000
  type u64 = x: nat | x < 0x1_0000_0000_0000_0000

  const U64_MAX: u64 := 0xFFFF_FFFF_FFFF_FFFF

  type bytes16 = b: bytes | |b| == 16 witness Zeros(16)
  type bytes20 = b: bytes | |b| == 20 witness Zeros(20)
  type bytes32 = b: bytes | |b| == 32 witness Zeros(32)

  datatype Option<+T> = None | Some(value: T)

  function Zeros(n: nat): (z: bytes)
    ensures |z| == n
    ensures forall i :: 0 <= i < n ==> z[i] == 0
  {
    seq(n, _ => 0)
  }

  function Min(a: int, b: int): int {
    if a <= b then a else b
  }

  /** 256^n, the number of values n bytes can hold. */
  function Pow256(n: nat): (p: nat)
    ensures p > 0
  {
    if n == 0 then 1 else 256 * Pow256(n - 1)
  }

  /** The low n bytes of v, least significant first (`to_le_bytes`). */
  function Le(v: nat, n: nat): (b: bytes)
    ensures |b| == n
    decreases v, n
  {
    if n == 0 then [] else [(v % 256) as byte] + Le(v / 256, n - 1)
  }

  function FromLe(b: bytes): nat {
    if b == [] then 0 else b[0] as nat + 256 * FromLe(b[1..])
  }

  /** The low n bytes of v, most significant first (`to_be_bytes`). */
  function Be(v: nat, n: nat): (b: bytes)
    ensures |b| == n
    decreases v, n
  {
    if n == 0 then [] else Be(v / 256, n - 1) + [(v % 256) as byte]
  }

  function FromBe(b: bytes): nat {
    if b == [] then 0 else 256 * FromBe(b[..|b| - 1]) + b[|b| - 1] as nat
  }

  lemma {:induction false} LeRoundTrip(v: nat, n: nat)
    requires v < Pow256(n)
    ensures FromLe(Le(v, n)) == v
    decreases n
  {
    if n > 0 {
      LeRoundTrip(v / 256, n - 1);
      assert Le(v, n)[1..] == Le(v / 256, n - 1);
    }
  }

  lemma {:induction false} FromLeBound(b: bytes)
    ensures FromLe(b) < Pow256(|b|)
    ensures Le(FromLe(b), |b|) == b
  {
    if b != [] {
      FromLeBound(b[1..]);
      assert FromLe(b) / 256 == FromLe(b[1..]);
      assert FromLe(b) % 256 == b[0] as nat;
    }
  }

  lemma {:induction false} BeRoundTrip(v: nat, n: nat)
    requires v < Pow256(n)
    ensures FromBe(Be(v, n)) == v
    decreases n
  {
    if n > 0 {
      BeRoundTrip(v / 256, n - 1);
      assert Be(v, n)[..n - 1] == Be(v / 256, n - 1);
    }
  }

  /** The digit of v to base 256 that has i digits below it. */
  function Digit(v: nat, i: nat): nat
    decreases i
  {
    if i == 0 then v % 256 else Digit(v / 256, i - 1)
  }

  /** Byte i of a little-endian number is its digit i. */
  lemma {:induction false} LeDigit(v: nat, n: nat, i: nat)
    requires i < n
    ensures Le(v, n)[i] as nat == Digit(v, i)
    decreases i
  {
    if i > 0 {
      LeDigit(v / 256, n - 1, i - 1);
      assert Le(v, n)[i] == Le(v / 256, n - 1)[i - 1];
    }
  }

  /** Of a big-endian number the last byte is digit 0. */
  lemma {:induction false} BeDigit(v: nat, n: nat, i: nat)
    requires i < n
    ensures Be(v, n)[i] as nat == Digit(v, n - 1 - i)
    decreases n
  {
    if i < n - 1 {
      BeDigit(v / 256, n - 1, i);
      assert Be(v, n)[i] == Be(v / 256, n - 1)[i];
    }
  }

  /** Fixed-width little-endian encoding loses nothing. */
  lemma LeInjective(v: nat, w: nat, n: nat)
    requires v < Pow256(n) && w < Pow256(n)
    ensures Le(v, n) == Le(w, n) ==> v == w
  {
    LeRoundTrip(v, n);
    LeRoundTrip(w, n);
  }

  /** Fixed-width big-endian encoding loses nothing. */
  lemma BeInjective(v: nat, w: nat, n: nat)
    requires v < Pow256(n) && w < Pow256(n)
    ensures Be(v, n) == Be(w, n) ==> v == w
  {
    BeRoundTrip(v, n);
    BeRoundTrip(w, n);
  }

  /** The widths used by the formats. */
  lemma Pow256Widths()
    ensures Pow256(2) == 0x1_0000
    ensures Pow256(4) == 0x1_0000_0000
    ensures Pow256(8) == 0x1_0000_0000_0000_0000
  {
    assert Pow256(3) == 256 * Pow256(2);
    assert Pow256(4) == 256 * Pow256(3);
    assert Pow256(5) == 256 * Pow256(4);
    assert Pow256(6) == 256 * Pow256(5);
    assert Pow256(7) == 256 * Pow256(6);
    assert Pow256(8) == 256 * Pow256(7);
  }

  /** Equal concatenations of equal-length heads have equal parts. */
  lemma ConcatSplit<T>(a: seq<T>, b: seq<T>, c: seq<T>, d: seq<T>)
    requires |a| == |c| && a + b == c + d
    ensures a == c && b == d
  {
    assert a == (a + b)[..|a|] && b == (a + b)[|a|..];
    assert c == (c + d)[..|c|] && d == (c + d)[|c|..];
  }
}
