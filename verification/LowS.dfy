/**
 Folding the `s` of a P-256 signature into the lower half of the curve order
 (`crates/zbacs-auth/src/windows/mod.rs`): byte loops that compute on integers.
 */
module LowS {
  import opened Bytes

  /** The order of secp256r1 (section 2.4.2 of SEC 2 v2), big-endian. */
  const N: bytes32 := [
    0xff, 0xff, 0xff, 0xff, 0x00, 0x00, 0x00, 0x00, 0xff, 0xff, 0xff, 0xff, 0xff, 0xff, 0xff, 0xff,
    0xbc, 0xe6, 0xfa, 0xad, 0xa7, 0x17, 0x9e, 0x84, 0xf3, 0xb9, 0xca, 0xc2, 0xfc, 0x63, 0x25, 0x51]

  ghost function Order(): nat {
    FromBe(N)
  }

  /** What the fold computes on numbers below 256^32. */
  ghost function Fold(n: nat, v: nat): nat
    requires n < Pow256(32) && v < Pow256(32)
  {
    if v <= n / 2 then v else if v <= n then n - v else n - v + Pow256(32)
  }

  // ---------------------------------------------------------------- big-endian arithmetic

  lemma {:induction false} FromBeConcat(a: bytes, b: bytes)
    ensures FromBe(a + b) == FromBe(a) * Pow256(|b|) + FromBe(b)
  {
    if b == [] {
      assert a + b == a;
    } else {
      var c := b[..|b| - 1];
      FromBeConcat(a, c);
      assert (a + b)[..|a + b| - 1] == a + c;
      Shift(FromBe(a), Pow256(|c|));
    }
  }

  lemma Shift(x: nat, p: nat)
    ensures 256 * (x * p) == x * (256 * p)
  {
  }

  lemma {:induction false} FromBeBound(b: bytes)
    ensures FromBe(b) < Pow256(|b|)
  {
    if b != [] {
      FromBeBound(b[..|b| - 1]);
    }
  }

  /** The leading digit carries the weight of everything behind it. */
  lemma FromBeHead(b: bytes, i: nat)
    requires i < |b|
    ensures FromBe(b[i..]) == b[i] as nat * Pow256(|b| - i - 1) + FromBe(b[i + 1..])
  {
    assert b[i..] == [b[i]] + b[i + 1..];
    FromBeConcat([b[i]], b[i + 1..]);
    assert FromBe([b[i]]) == b[i] as nat;
  }

  /** Comparing byte by byte from the front is comparing numbers. */
  lemma FirstDifferenceDecides(a: bytes, b: bytes, i: nat)
    requires |a| == |b| && i < |a| && a[..i] == b[..i] && a[i] < b[i]
    ensures FromBe(a) < FromBe(b)
  {
    var p := Pow256(|a| - i - 1);
    assert a == a[..i] + a[i..] && b == b[..i] + b[i..];
    FromBeConcat(a[..i], a[i..]);
    FromBeConcat(b[..i], b[i..]);
    FromBeHead(a, i);
    FromBeHead(b, i);
    FromBeBound(a[i + 1..]);
    DigitGap(a[i] as nat, b[i] as nat, p);
  }

  lemma DigitGap(x: nat, y: nat, p: nat)
    requires x < y
    ensures x * p + p <= y * p
  {
    assert y * p == x * p + p + (y - x - 1) * p;
  }

  /** One column of the subtraction. */
  lemma Column(n: int, s: int, borrow: int, d: int, next: int, p: int)
    requires n - s - borrow == d - 256 * next
    ensures n * p + next * (256 * p) == d * p + s * p + borrow * p
  {
    assert (n + 256 * next) * p == (d + s + borrow) * p;
    assert (n + 256 * next) * p == n * p + next * (256 * p);
  }

  // ---------------------------------------------------------------- the code

  /** `half_n`: shifting every byte right by one with the carried bit on top halves the number.
      The shift of a byte is written as halving, the carried bit as 128. */
  method Half(n: bytes32) returns (half: array<byte>)
    ensures fresh(half) && half.Length == 32
    ensures FromBe(half[..]) == FromBe(n) / 2
  {
    half := new byte[32];
    var carry: byte := 0;
    for i := 0 to 32
      invariant carry <= 1
      invariant FromBe(n[..i]) == 2 * FromBe(half[..i]) + carry as nat
    {
      half[i] := n[i] / 2 + 128 * carry;
      FromBeSnoc(n, i);
      FromBeSnoc(half[..], i);
      assert half[..][..i] == half[..i] && half[..][..i + 1] == half[..i + 1];
      carry := n[i] % 2;
    }
    assert n[..32] == n && half[..32] == half[..];
  }

  lemma FromBeSnoc(b: bytes, i: nat)
    requires i < |b|
    ensures FromBe(b[..i + 1]) == 256 * FromBe(b[..i]) + b[i] as nat
  {
    assert b[..i + 1][..i] == b[..i];
  }

  /** `is_high_s`: the first differing byte decides. */
  method IsHigh(n: bytes32, s: bytes32) returns (high: bool)
    ensures high <==> FromBe(s) > FromBe(n) / 2
  {
    var half := Half(n);
    for i := 0 to 32
      invariant s[..i] == half[..i]
    {
      if s[i] > half[i] {
        FirstDifferenceDecides(half[..], s, i);
        return true;
      }
      if s[i] < half[i] {
        FirstDifferenceDecides(s, half[..], i);
        return false;
      }
    }
    assert s[..32] == s && half[..32] == half[..];
    high := false;
  }

  /** The borrowing loop of `normalize_low_s`. */
  method Subtract(n: bytes32, s: bytes32) returns (out: array<byte>, borrow: int)
    ensures fresh(out) && out.Length == 32 && 0 <= borrow <= 1
    ensures FromBe(n) + borrow * Pow256(32) == FromBe(out[..]) + FromBe(s)
  {
    out := new byte[32];
    borrow := 0;
    var i := 32;
    assert n[32..] == [] && s[32..] == [] && out[32..] == [] && FromBe([]) == 0;
    hide FromBe, Pow256;
    while i > 0
      invariant 0 <= i <= 32 && 0 <= borrow <= 1
      invariant FromBe(n[i..]) + borrow * Pow256(32 - i) == FromBe(out[i..]) + FromBe(s[i..])
    {
      i := i - 1;
      ghost var before, was := borrow, out[i + 1..];
      var d := n[i] as int - s[i] as int - borrow;
      if d < 0 {
        out[i] := (d + 256) as byte;
        borrow := 1;
      } else {
        out[i] := d as byte;
        borrow := 0;
      }
      assert out[i + 1..] == was;
      SubtractDigit(n, s, out[..], i, before, borrow);
    }
    assert n[0..] == n && s[0..] == s && out[0..] == out[..];
  }

  /** `normalize_low_s`: r is untouched and s becomes its fold, for every 32-byte s. The last
      borrow is zero exactly when s is at most the order. */
  method NormalizeLowS(r: bytes32, s: bytes32) returns (r': bytes32, s': bytes32)
    ensures r' == r
    ensures Order() < Pow256(32) && FromBe(s) < Pow256(32) && FromBe(s') == Fold(Order(), FromBe(s))
    ensures FromBe(s) <= Order() / 2 ==> s' == s
  {
    hide FromBe, Pow256;
    FromBeBound(N);
    FromBeBound(s);
    var high := IsHigh(N, s);
    if !high {
      return r, s;
    }
    var out, borrow := Subtract(N, s);
    FromBeBound(out[..]);
    assert borrow == 0 <==> FromBe(s) <= FromBe(N);
    r', s' := r, out[..];
  }

  lemma SubtractDigit(n: bytes, s: bytes, out: bytes, i: nat, borrow: int, next: int)
    requires |n| == |s| == |out| && i < |n|
    requires n[i] as int - s[i] as int - borrow == out[i] as int - 256 * next
    requires FromBe(n[i + 1..]) + borrow * Pow256(|n| - i - 1) == FromBe(out[i + 1..]) + FromBe(s[i + 1..])
    ensures FromBe(n[i..]) + next * Pow256(|n| - i) == FromBe(out[i..]) + FromBe(s[i..])
  {
    FromBeHead(n, i);
    FromBeHead(s, i);
    FromBeHead(out, i);
    Column(n[i] as int, s[i] as int, borrow, out[i] as int, next, Pow256(|n| - i - 1));
  }

  // ---------------------------------------------------------------- what it is for

  lemma OrderIsOdd()
    ensures Order() % 2 == 1 && Order() < Pow256(32)
  {
    FromBeBound(N);
    FromBeSnoc(N, 31);
    assert N[..32] == N && N[31] == 0x51;
  }

  /** The fold lands in the lower half exactly for values up to the order, where it is s or n - s
      and folding again changes nothing. Above the order the subtraction wraps: the result is
      still high, and folding again does not give it back. */
  lemma FoldLowIff(v: nat)
    requires v < Pow256(32)
    ensures Order() < Pow256(32)
    ensures var n := Order(); var w := Fold(n, v);
            && w < Pow256(32)
            && (w <= n / 2 <==> v <= n)
            && (v <= n ==> w == v || w == n - v)
            && (Fold(n, w) == w <==> v <= n)
  {
    hide Order, Pow256;
    OrderIsOdd();
    PowEven(32);
    FoldOdd(Order(), v);
  }

  lemma PowEven(n: nat)
    requires n > 0
    ensures Pow256(n) % 2 == 0
  {
  }

  lemma FoldOdd(n: nat, v: nat)
    requires n % 2 == 1 && Pow256(32) % 2 == 0 && n < Pow256(32) && v < Pow256(32)
    ensures var w := Fold(n, v);
            && w < Pow256(32)
            && (w <= n / 2 <==> v <= n)
            && (v <= n ==> w == v || w == n - v)
            && (Fold(n, w) == w <==> v <= n)
  {
    hide Pow256;
    var m, w := Pow256(32), Fold(n, v);
    if v > n {
      assert w > n && Fold(n, w) == v;
      assert (n + m) % 2 == 1 && w == n + m - v;
    }
  }
}
