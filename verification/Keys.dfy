/** Addresses, four-tuples and their orders: src-old/lib/util.hpp, and the typed key
    comparison the skip list makes on raw byte strings: src-old/lib/skipList.hpp. */
module Keys {
  import opened Bytes

  // ----- IPv6 addresses

  datatype IPv6Address = IPv6Address(low: U64, high: U64) {
    function Value(): nat {
      high * 0x1_0000_0000_0000_0000 + low
    }

    predicate Less(other: IPv6Address) {
      if high < other.high then true
      else if high > other.high then false
      else low < other.low
    }

    predicate Greater(other: IPv6Address) {
      if high > other.high then true
      else if high < other.high then false
      else low > other.low
    }

    /** `operator>>`: the upper word's low bits are or-ed into the lower word, all in 64-bit words. */
    function Shr(shift: nat): IPv6Address {
      if shift == 0 then
        this
      else if shift < 64 then
        IPv6Address(Or64(Lsr64(low, shift), Lsl64(high, 64 - shift)), Lsr64(high, shift))
      else if shift < 128 then
        IPv6Address(Lsr64(high, shift - 64), 0)
      else
        IPv6Address(0, 0)
    }
  }

  // Multiplying by t = W / s puts the low part of high at the top of a word of size W.
  lemma TopPart(high: nat, s: nat, t: nat, w: nat)
    requires s > 0 && t > 0 && s * t == w
    ensures high * t == (high / s) * w + (high % s) * t
    ensures 0 <= (high % s) * t <= w - t
    ensures (high * t) % w == (high % s) * t
  {
    var q, r := high / s, high % s;
    assert high == q * s + r;
    assert (q * s + r) * t == (q * s) * t + r * t;
    assert (q * s) * t == q * (s * t);
    assert r * t <= (s - 1) * t;
    assert (s - 1) * t == s * t - t;
    DivUnique(high * t, w, q, r * t);
  }

  lemma WordsShift(high: nat, low: nat, s: nat, t: nat, w: nat)
    requires s > 0 && t > 0 && s * t == w
    ensures (high * w + low) / s == high * t + low / s
  {
    assert low == (low / s) * s + low % s;
    assert high * w == (high * t) * s;
    assert (high * t + low / s) * s == (high * t) * s + (low / s) * s;
    DivUnique(high * w + low, s, high * t + low / s, low % s);
  }

  lemma QuotientBelow(low: nat, s: nat, t: nat, w: nat)
    requires s > 0 && s * t == w && low < w
    ensures low / s < t
  {
    if low / s >= t {
      DivAtLeast(low, s, t);
    }
  }

  lemma Pow2Complement(shift: nat)
    requires shift <= 64
    ensures Pow2(shift) * Pow2(64 - shift) == 0x1_0000_0000_0000_0000
  {
    Pow2Constants();
    Pow2Add(shift, 64 - shift);
  }

  /** The two words or-ed together by a shift below 64 have no bit in common. */
  lemma LowWord(high: U64, low: U64, shift: nat)
    requires 0 < shift < 64
    ensures Or64(Lsr64(low, shift), Lsl64(high, 64 - shift))
            == low / Pow2(shift) + (high % Pow2(shift)) * Pow2(64 - shift)
  {
    hide Pow2, BitOr;
    Pow2Complement(shift);
    TopPart(high, Pow2(shift), Pow2(64 - shift), 0x1_0000_0000_0000_0000);
    QuotientBelow(low, Pow2(shift), Pow2(64 - shift), 0x1_0000_0000_0000_0000);
    OrDisjoint(low / Pow2(shift), high % Pow2(shift), 64 - shift);
  }

  lemma ShrLowerWord(ip: IPv6Address, shift: nat)
    requires 0 < shift < 64
    ensures ip.Shr(shift).Value() == ip.Value() / Pow2(shift)
  {
    LowWord(ip.high, ip.low, shift);
    Pow2Complement(shift);
    TopPart(ip.high, Pow2(shift), Pow2(64 - shift), 0x1_0000_0000_0000_0000);
    WordsShift(ip.high, ip.low, Pow2(shift), Pow2(64 - shift), 0x1_0000_0000_0000_0000);
  }

  lemma ShrUpperWord(high: U64, low: U64, shift: nat)
    requires 64 <= shift < 128
    ensures high / Pow2(shift - 64) == (high * 0x1_0000_0000_0000_0000 + low) / Pow2(shift)
  {
    Pow2Constants();
    Pow2Add(64, shift - 64);
    DivUnique(high * 0x1_0000_0000_0000_0000 + low, 0x1_0000_0000_0000_0000, high, low);
    DivModSplit(high * 0x1_0000_0000_0000_0000 + low, 0x1_0000_0000_0000_0000, Pow2(shift - 64));
  }

  lemma ShrPastEnd(v: nat, shift: nat)
    requires 128 <= shift && v < 0x1_0000_0000_0000_0000 * 0x1_0000_0000_0000_0000
    ensures v / Pow2(shift) == 0
  {
    Pow2Constants();
    Pow2Add(64, 64);
    Pow2Add(128, shift - 128);
    MultipleAtLeast(Pow2(shift - 128), Pow2(128));
    DivUnique(v, Pow2(shift), 0, v);
  }

  /** `operator>>` divides the 128-bit value by 2^shift, for every shift. */
  lemma ShrIsDivision(ip: IPv6Address, shift: nat)
    ensures ip.Shr(shift).Value() == ip.Value() / Pow2(shift)
  {
    if shift == 0 {
      DivUnique(ip.Value(), 1, ip.Value(), 0);
    } else if shift < 64 {
      ShrLowerWord(ip, shift);
    } else if shift < 128 {
      ShrUpperWord(ip.high, ip.low, shift);
    } else {
      ShrPastEnd(ip.Value(), shift);
    }
  }

  // ----- four-tuples, in field order of the C++ structs

  datatype QuarTurpleIPv4 = QuarTurpleIPv4(dstport: U16, srcport: U16, dstip: U32, srcip: U32) {
    predicate Less(o: QuarTurpleIPv4) {
      if srcip < o.srcip then true else if srcip > o.srcip then false
      else if dstip < o.dstip then true else if dstip > o.dstip then false
      else if srcport < o.srcport then true else if srcport > o.srcport then false
      else dstport < o.dstport
    }

    predicate Greater(o: QuarTurpleIPv4) {
      if srcip > o.srcip then true else if srcip < o.srcip then false
      else if dstip > o.dstip then true else if dstip < o.dstip then false
      else if srcport > o.srcport then true else if srcport < o.srcport then false
      else dstport > o.dstport
    }
  }

  datatype QuarTurpleIPv6 = QuarTurpleIPv6(dstport: U16, srcport: U16, dstip: IPv6Address, srcip: IPv6Address) {
    predicate Less(o: QuarTurpleIPv6) {
      if srcip.Less(o.srcip) then true else if srcip.Greater(o.srcip) then false
      else if dstip.Less(o.dstip) then true else if dstip.Greater(o.dstip) then false
      else if srcport < o.srcport then true else if srcport > o.srcport then false
      else dstport < o.dstport
    }

    predicate Greater(o: QuarTurpleIPv6) {
      if srcip.Greater(o.srcip) then true else if srcip.Less(o.srcip) then false
      else if dstip.Greater(o.dstip) then true else if dstip.Less(o.dstip) then false
      else if srcport > o.srcport then true else if srcport < o.srcport then false
      else dstport > o.dstport
    }
  }

  // ----- reading a typed key out of its bytes

  /** Little-endian field of n bytes at offset i. */
  function Field(key: seq<Byte>, i: nat, n: nat): (v: nat)
    requires i + n <= |key|
    ensures v < Pow2(8 * n)
  {
    LEBound(key[i..i + n]);
    LE(key[i..i + n])
  }

  function U16At(key: seq<Byte>, i: nat): U16
    requires i + 2 <= |key|
  {
    Pow2Constants();
    Field(key, i, 2)
  }

  function U32At(key: seq<Byte>, i: nat): U32
    requires i + 4 <= |key|
  {
    Pow2Constants();
    Field(key, i, 4)
  }

  function U64At(key: seq<Byte>, i: nat): U64
    requires i + 8 <= |key|
  {
    Pow2Constants();
    Field(key, i, 8)
  }

  function IPv6At(key: seq<Byte>, i: nat): IPv6Address
    requires i + 16 <= |key|
  {
    IPv6Address(U64At(key, i), U64At(key, i + 8))
  }

  function TupleIPv4(key: seq<Byte>): QuarTurpleIPv4
    requires |key| == 12
  {
    QuarTurpleIPv4(U16At(key, 0), U16At(key, 2), U32At(key, 4), U32At(key, 8))
  }

  /** Bytes 4..8 of the 40-byte struct are alignment padding. */
  function TupleIPv6(key: seq<Byte>): QuarTurpleIPv6
    requires |key| == 40
  {
    QuarTurpleIPv6(U16At(key, 0), U16At(key, 2), IPv6At(key, 8), IPv6At(key, 24))
  }

  // ----- the key order of the skip list

  predicate KnownLength(n: nat) {
    n == 1 || n == 2 || n == 4 || n == 8 || n == 12 || n == 16 || n == 40
  }

  /** `compareNodeKey`: -1, 0 or 1, by the type the key length selects. */
  function CompareKeys(a: seq<Byte>, b: seq<Byte>): int
    requires |a| == |b| && KnownLength(|a|)
  {
    if |a| == 12 then
      Sign(TupleIPv4(a).Less(TupleIPv4(b)), TupleIPv4(a).Greater(TupleIPv4(b)))
    else if |a| == 16 then
      Sign(IPv6At(a, 0).Less(IPv6At(b, 0)), IPv6At(a, 0).Greater(IPv6At(b, 0)))
    else if |a| == 40 then
      Sign(TupleIPv6(a).Less(TupleIPv6(b)), TupleIPv6(a).Greater(TupleIPv6(b)))
    else
      Sign(Field(a, 0, |a|) < Field(b, 0, |a|), Field(a, 0, |a|) > Field(b, 0, |a|))
  }

  function Sign(less: bool, greater: bool): int {
    if less then -1 else if greater then 1 else 0
  }

  /** One number per key: its bytes read little-endian, without the padding of the 40-byte key. */
  function Rank(key: seq<Byte>): nat {
    if |key| == 40 then LE(key[..4] + key[8..]) else LE(key)
  }

  lemma LESplit(s: seq<Byte>, i: nat)
    requires i <= |s|
    ensures LE(s) == LE(s[..i]) + Pow2(8 * i) * LE(s[i..])
  {
    assert s == s[..i] + s[i..];
    LEConcat(s[..i], s[i..]);
  }

  lemma LESplit2(s: seq<Byte>)
    requires |s| >= 2
    ensures LE(s) == LE(s[..2]) + 0x1_0000 * LE(s[2..])
  {
    LESplit(s, 2);
    Pow2Constants();
  }

  lemma LESplit4(s: seq<Byte>)
    requires |s| >= 4
    ensures LE(s) == LE(s[..4]) + 0x1_0000_0000 * LE(s[4..])
  {
    LESplit(s, 4);
    Pow2Constants();
  }

  lemma LESplit8(s: seq<Byte>)
    requires |s| >= 8
    ensures LE(s) == LE(s[..8]) + 0x1_0000_0000_0000_0000 * LE(s[8..])
  {
    LESplit(s, 8);
    Pow2Constants();
  }

  lemma LESplit16(s: seq<Byte>)
    requires |s| >= 16
    ensures LE(s) == LE(s[..16]) + 0x1_0000_0000_0000_0000_0000_0000_0000_0000 * LE(s[16..])
  {
    LESplit8(s);
    LESplit8(s[8..]);
    LESplit8(s[..16]);
    assert s[..16][..8] == s[..8] && s[8..][..8] == s[..16][8..] && s[8..][8..] == s[16..];
  }

  lemma IPv6Bytes(key: seq<Byte>, i: nat)
    requires i + 16 <= |key|
    ensures LE(key[i..i + 16]) == IPv6At(key, i).Value()
  {
    var s := key[i..i + 16];
    LESplit8(s);
    assert key[i..i + 8] == s[..8] && key[i + 8..i + 16] == s[8..];
  }

  lemma RankIPv4(key: seq<Byte>)
    requires |key| == 12
    ensures var t := TupleIPv4(key);
            Rank(key) == t.dstport + 0x1_0000 * (t.srcport + 0x1_0000 * (t.dstip + 0x1_0000_0000 * t.srcip))
  {
    LESplit2(key);
    LESplit2(key[2..]);
    LESplit4(key[4..]);
    assert key[0..2] == key[..2] && key[2..4] == key[2..][..2] && key[2..][2..] == key[4..];
    assert key[4..8] == key[4..][..4] && key[4..][4..] == key[8..12];
  }

  lemma RankIPv6(key: seq<Byte>)
    requires |key| == 40
    ensures var t := TupleIPv6(key);
            Rank(key) == t.dstport + 0x1_0000 * (t.srcport + 0x1_0000 *
              (t.dstip.Value() + 0x1_0000_0000_0000_0000_0000_0000_0000_0000 * t.srcip.Value()))
  {
    var k := key[..4] + key[8..];
    LESplit2(k);
    LESplit2(k[2..]);
    LESplit16(k[4..]);
    assert key[0..2] == k[..2] && key[2..4] == k[2..][..2] && k[2..][2..] == k[4..];
    assert key[8..24] == k[4..][..16] && key[24..40] == k[4..][16..];
    IPv6Bytes(key, 8);
    IPv6Bytes(key, 24);
  }

  lemma IPv6Order(a: IPv6Address, b: IPv6Address)
    ensures a.Less(b) <==> a.Value() < b.Value()
    ensures a.Greater(b) <==> a.Value() > b.Value()
    ensures a == b <==> a.Value() == b.Value()
  {
  }

  /** Every typed comparison the skip list makes is the numeric order of the keys' bytes. */
  lemma CompareIsRankOrder(a: seq<Byte>, b: seq<Byte>)
    requires |a| == |b| && KnownLength(|a|)
    ensures CompareKeys(a, b) == if Rank(a) < Rank(b) then -1 else if Rank(a) > Rank(b) then 1 else 0
  {
    if |a| == 12 {
      RankIPv4(a);
      RankIPv4(b);
    } else if |a| == 16 {
      IPv6Bytes(a, 0);
      IPv6Bytes(b, 0);
      assert a[0..16] == a && b[0..16] == b;
    } else if |a| == 40 {
      RankIPv6(a);
      RankIPv6(b);
      IPv6Order(TupleIPv6(a).srcip, TupleIPv6(b).srcip);
      IPv6Order(TupleIPv6(a).dstip, TupleIPv6(b).dstip);
    } else {
      assert a[0..|a|] == a && b[0..|a|] == b;
    }
  }

  /** Keys without padding are ranked equal only when they are the same bytes. */
  lemma RankInjective(a: seq<Byte>, b: seq<Byte>)
    requires |a| == |b| && |a| != 40
    ensures Rank(a) == Rank(b) <==> a == b
  {
    LEInjective(a, b);
  }
  /** The members of the struct, each encoded in its own width, are the bytes of the key, in this order. */
  lemma TupleIPv4Bytes(key: seq<Byte>)
    requires |key| == 12
    ensures var t := TupleIPv4(key);
            key == Enc(t.dstport, 2) + Enc(t.srcport, 2) + Enc(t.dstip, 4) + Enc(t.srcip, 4)
  {
    hide Enc, LE;
    EncodeDecode(key[0..2]);
    EncodeDecode(key[2..4]);
    EncodeDecode(key[4..8]);
    EncodeDecode(key[8..12]);
  }

  function EncIPv6(ip: IPv6Address): (s: seq<Byte>)
    ensures |s| == 16
  {
    Enc(ip.low, 8) + Enc(ip.high, 8)
  }

  lemma IPv6AddressBytes(key: seq<Byte>, i: nat)
    requires i + 16 <= |key|
    ensures key[i..i + 16] == EncIPv6(IPv6At(key, i))
  {
    hide Enc, LE;
    EncodeDecode(key[i..i + 8]);
    EncodeDecode(key[i + 8..i + 16]);
  }

  /** Two 40-byte keys are ranked equal exactly when they are the same bytes apart from the padding. */
  lemma PaddedRank(a: seq<Byte>, b: seq<Byte>)
    requires |a| == |b| == 40
    ensures Rank(a) == Rank(b) <==> a[..4] == b[..4] && a[8..] == b[8..]
  {
    hide LE;
    var x, y := a[..4] + a[8..], b[..4] + b[8..];
    LEInjective(x, y);
    assert a[..4] == x[..4] && b[..4] == y[..4] && a[8..] == x[4..] && b[8..] == y[4..];
  }

  /** That is, exactly when their four members are the same. */
  lemma PaddedTuple(a: seq<Byte>, b: seq<Byte>)
    requires |a| == |b| == 40
    ensures Rank(a) == Rank(b) <==> TupleIPv6(a) == TupleIPv6(b)
  {
    hide LE, Rank, IPv6At;
    if TupleIPv6(a) == TupleIPv6(b) {
      RankIPv6(a);
      RankIPv6(b);
    }
    PaddedRank(a, b);
    if Rank(a) == Rank(b) {
      assert a[0..2] == a[..4][..2] && a[2..4] == a[..4][2..] && a[8..24] == a[8..][..16] && a[24..40] == a[8..][16..];
      assert b[0..2] == b[..4][..2] && b[2..4] == b[..4][2..] && b[8..24] == b[8..][..16] && b[24..40] == b[8..][16..];
      SameIPv6(a, b, 8);
      SameIPv6(a, b, 24);
    }
  }

  lemma SameIPv6(a: seq<Byte>, b: seq<Byte>, i: nat)
    requires i + 16 <= |a| && i + 16 <= |b| && a[i..i + 16] == b[i..i + 16]
    ensures IPv6At(a, i) == IPv6At(b, i)
  {
    assert a[i..i + 8] == a[i..i + 16][..8] && a[i + 8..i + 16] == a[i..i + 16][8..];
    assert b[i..i + 8] == b[i..i + 16][..8] && b[i + 8..i + 16] == b[i..i + 16][8..];
  }
}
