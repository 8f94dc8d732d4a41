/** Machine words as the C++ code sees them: bytes, little-endian byte strings,
    powers of two, and the bitwise operators the code applies to unsigned words. */
module Bytes {
  type Byte = x: int | 0 <= x < 256
  type U16 = x: int | 0 <= x < 0x1_0000
  type U32 = x: int | 0 <= x < 0x1_0000_0000
  type U64 = x: int | 0 <= x < 0x1_0000_0000_0000_0000

  const MAX_U64: U64 := 0xFFFF_FFFF_FFFF_FFFF

  function Pow2(n: nat): (p: nat)
    ensures p > 0
  {
    if n == 0 then 1 else 2 * Pow2(n - 1)
  }

  lemma {:induction false} Pow2Add(a: nat, b: nat)
    ensures Pow2(a + b) == Pow2(a) * Pow2(b)
  {
    if a == 0 {
    } else {
      Pow2Add(a - 1, b);
      assert 2 * (Pow2(a - 1) * Pow2(b)) == (2 * Pow2(a - 1)) * Pow2(b);
    }
  }

  lemma Pow2Constants()
    ensures Pow2(3) == 8
    ensures Pow2(8) == 256
    ensures Pow2(16) == 0x1_0000
    ensures Pow2(24) == 0x100_0000
    ensures Pow2(32) == 0x1_0000_0000
    ensures Pow2(64) == 0x1_0000_0000_0000_0000
  {
    assert Pow2(4) == 16;
    Pow2Add(4, 4);
    Pow2Add(8, 8);
    Pow2Add(16, 8);
    Pow2Add(16, 16);
    Pow2Add(32, 32);
  }

  // ----- division facts used for addresses and shifts

  lemma SmallMultiple(e: int, d: int)
    requires 0 < d && -d < e * d < d
    ensures e == 0
  {
    if e > 0 {
      MultipleAtLeast(e, d);
    } else if e < 0 {
      MultipleAtLeast(-e, d);
    }
  }

  lemma MultipleAtLeast(e: int, d: int)
    requires 0 < d && 0 < e
    ensures d <= e * d
  {
  }

  /** Quotient and remainder are unique. */
  lemma DivUnique(x: int, d: int, q: int, r: int)
    requires 0 < d && 0 <= r < d && x == q * d + r
    ensures x / d == q && x % d == r
  {
    assert x == (x / d) * d + x % d;
    assert (x / d - q) * d == (x / d) * d - q * d;
    SmallMultiple(x / d - q, d);
  }

  lemma DivAtLeast(x: nat, d: nat, n: nat)
    requires d > 0 && x / d >= n
    ensures x >= n * d
  {
    assert (x / d - n) * d == (x / d) * d - n * d;
    assert (x / d - n) * d >= 0;
  }

  lemma DivShrinks(x: nat, d: nat)
    requires d > 0
    ensures 0 <= x / d <= x
  {
    assert x == (x / d) * d + x % d;
    if x / d > 0 {
      MultipleAtLeast(d, x / d);
    }
  }

  lemma MulAssoc(a: int, b: int, c: int)
    ensures a * (b * c) == (a * b) * c
  {
  }

  lemma MulStep(n: nat, m: nat)
    requires n > 0
    ensures n * m == (n - 1) * m + m
  {
  }

  lemma MulMono(a: nat, b: nat, m: nat)
    requires a <= b
    ensures a * m <= b * m
  {
  }

  lemma SeqAssoc<T>(a: seq<T>, b: seq<T>, c: seq<T>)
    ensures (a + b) + c == a + (b + c)
  {
  }

  lemma MixedRadix(q: int, r: int, b: nat, s: int, a: nat)
    requires 0 <= r < b && 0 <= s < a
    ensures (q * b + r) * a + s == q * (a * b) + (r * a + s)
    ensures 0 <= r * a + s < a * b
  {
    assert (q * b + r) * a == (q * b) * a + r * a;
    assert (q * b) * a == q * (a * b) by { MulAssoc(q, b, a); }
    assert r * a <= (b - 1) * a;
    assert (b - 1) * a == a * b - a;
  }

  /** Dividing by a and splitting the quotient by b splits x by a * b. */
  lemma DivModSplit(x: nat, a: nat, b: nat)
    requires a > 0 && b > 0
    ensures a * b > 0
    ensures (x / a) / b == x / (a * b)
    ensures x % (a * b) == x % a + a * ((x / a) % b)
  {
    var y := x / a;
    assert x == y * a + x % a;
    assert y == (y / b) * b + y % b;
    MixedRadix(y / b, y % b, b, x % a, a);
    DivUnique(x, a * b, y / b, (y % b) * a + x % a);
  }

  /** `v >> shift` on an unsigned word. */
  function Lsr(v: nat, shift: nat): nat {
    DivShrinks(v, Pow2(shift));
    v / Pow2(shift)
  }

  // ----- little-endian byte strings

  /** The number a little-endian byte string denotes. */
  function LE(s: seq<Byte>): nat {
    if s == [] then 0 else s[0] + 256 * LE(s[1..])
  }

  /** The n low bytes of v, least significant first. */
  function Enc(v: nat, n: nat): (s: seq<Byte>)
    ensures |s| == n
  {
    if n == 0 then [] else [v % 256] + Enc(v / 256, n - 1)
  }

  lemma {:induction false} LEBound(s: seq<Byte>)
    ensures LE(s) < Pow2(8 * |s|)
  {
    if s == [] {
    } else {
      LEBound(s[1..]);
      Pow2Step8(|s|);
    }
  }

  lemma {:induction false} LEConcat(a: seq<Byte>, b: seq<Byte>)
    ensures LE(a + b) == LE(a) + Pow2(8 * |a|) * LE(b)
  {
    if a == [] {
      assert a + b == b;
    } else {
      assert (a + b)[1..] == a[1..] + b;
      LEConcat(a[1..], b);
      Pow2Step8(|a|);
      MulAssoc(256, Pow2(8 * |a[1..]|), LE(b));
    }
  }

  lemma Pow2Step8(n: nat)
    requires n > 0
    ensures Pow2(8 * n) == 256 * Pow2(8 * (n - 1))
  {
    Pow2Constants();
    Pow2Add(8, 8 * (n - 1));
  }

  /** Decoding undoes encoding, up to truncation to n bytes. */
  lemma {:induction false} DecodeEncode(v: nat, n: nat)
    ensures LE(Enc(v, n)) == v % Pow2(8 * n)
  {
    if n == 0 {
    } else {
      DecodeEncode(v / 256, n - 1);
      assert Enc(v, n)[1..] == Enc(v / 256, n - 1);
      Pow2Step8(n);
      DivModSplit(v, 256, Pow2(8 * (n - 1)));
    }
  }

  /** Encoding undoes decoding: a byte string is determined by its number and length. */
  lemma {:induction false} EncodeDecode(s: seq<Byte>)
    ensures Enc(LE(s), |s|) == s
  {
    if s == [] {
    } else {
      EncodeDecode(s[1..]);
      DivUnique(LE(s), 256, LE(s[1..]), s[0]);
    }
  }

  lemma LEInjective(a: seq<Byte>, b: seq<Byte>)
    requires |a| == |b|
    ensures LE(a) == LE(b) <==> a == b
  {
    EncodeDecode(a);
    EncodeDecode(b);
  }

  // ----- bitwise operators

  function BitAnd(a: nat, b: nat): nat {
    if a == 0 || b == 0 then 0
    else 2 * BitAnd(a / 2, b / 2) + (if a % 2 == 1 && b % 2 == 1 then 1 else 0)
  }

  function BitOr(a: nat, b: nat): nat {
    if a == 0 then b else if b == 0 then a
    else 2 * BitOr(a / 2, b / 2) + (if a % 2 == 1 || b % 2 == 1 then 1 else 0)
  }

  /** Masking with 2^k - 1 is reduction modulo 2^k. */
  lemma {:induction false} AndMask(x: nat, k: nat)
    ensures BitAnd(x, Pow2(k) - 1) == x % Pow2(k)
  {
    if k == 0 {
      DivUnique(x, 1, x, 0);
    } else {
      var p := Pow2(k - 1);
      AndMask(x / 2, k - 1);
      AndMaskStep(x, p);
      assert Pow2(k) == 2 * p;
    }
  }

  lemma AndMaskStep(x: nat, p: nat)
    requires p > 0 && BitAnd(x / 2, p - 1) == (x / 2) % p
    ensures BitAnd(x, 2 * p - 1) == x % (2 * p)
  {
    AndOddMask(x, p);
    DivModSplit(x, 2, p);
  }

  lemma AndOddMask(x: nat, p: nat)
    requires p > 0
    ensures BitAnd(x, 2 * p - 1) == 2 * BitAnd(x / 2, p - 1) + x % 2
  {
    assert (2 * p - 1) / 2 == p - 1 && (2 * p - 1) % 2 == 1;
  }

  function Shl(b: nat, k: nat): nat {
    if k == 0 then b else 2 * Shl(b, k - 1)
  }

  lemma {:induction false} ShlIsMultiply(b: nat, k: nat)
    ensures Shl(b, k) == b * Pow2(k)
  {
    if k > 0 {
      ShlIsMultiply(b, k - 1);
      MulAssoc(b, 2, Pow2(k - 1));
      MulAssoc(2, b, Pow2(k - 1));
    }
  }

  lemma {:induction false} OrShifted(a: nat, b: nat, k: nat)
    requires a < Pow2(k)
    ensures BitOr(a, Shl(b, k)) == a + Shl(b, k)
  {
    if k > 0 {
      OrShifted(a / 2, b, k - 1);
    }
  }

  /** `|` of two words with no common bit is their sum. */
  lemma OrDisjoint(a: nat, b: nat, k: nat)
    requires a < Pow2(k)
    ensures BitOr(a, b * Pow2(k)) == a + b * Pow2(k)
  {
    ShlIsMultiply(b, k);
    OrShifted(a, b, k);
  }

  lemma {:induction false} OrFits(a: nat, b: nat, k: nat)
    requires a < Pow2(k) && b < Pow2(k)
    ensures BitOr(a, b) < Pow2(k)
  {
    if k > 0 {
      OrFits(a / 2, b / 2, k - 1);
    }
  }

  // ----- the same operators on 64-bit words

  function Or64(a: U64, b: U64): U64 {
    Pow2Constants();
    OrFits(a, b, 64);
    BitOr(a, b)
  }

  /** `word >> shift` */
  function Lsr64(word: U64, shift: nat): U64 {
    DivShrinks(word, Pow2(shift));
    Lsr(word, shift)
  }

  /** `word << shift`, truncated to 64 bits */
  function Lsl64(word: U64, shift: nat): U64 {
    (word * Pow2(shift)) % 0x1_0000_0000_0000_0000
  }

  ghost predicate IsPowerOfTwo(n: nat) {
    exists k: nat :: n == Pow2(k)
  }

  /** The test `n & (n - 1)` used by the constructors accepts exactly the powers of two. */
  lemma {:induction false} PowerOfTwoTest(n: nat)
    requires n > 0
    ensures BitAnd(n, n - 1) == 0 <==> IsPowerOfTwo(n)
  {
    if n == 1 {
      assert n == Pow2(0);
    } else if n % 2 == 1 {
      assert BitAnd(n, n - 1) == 2 * BitAnd(n / 2, n / 2);
      AndSelf(n / 2);
      forall k: nat ensures n != Pow2(k) {
        if k > 0 { assert Pow2(k) == 2 * Pow2(k - 1); }
      }
    } else {
      var m := n / 2;
      PowerOfTwoTest(m);
      assert (n - 1) / 2 == m - 1;
      assert BitAnd(n, n - 1) == 2 * BitAnd(m, m - 1);
      if IsPowerOfTwo(m) {
        var k: nat :| m == Pow2(k);
        assert n == Pow2(k + 1);
      }
      if IsPowerOfTwo(n) {
        var k: nat :| n == Pow2(k);
        assert k > 0;
        assert m == Pow2(k - 1);
      }
    }
  }

  lemma {:induction false} AndSelf(n: nat)
    ensures BitAnd(n, n) == n
  {
    if n > 0 { AndSelf(n / 2); }
  }
}
