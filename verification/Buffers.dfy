/** Byte buffers written piece by piece, as with memcpy. */
module Buffers {
  import opened Bytes

  /** The bytes b stand in s from index k on. */
  ghost predicate At(s: seq<Byte>, k: nat, b: seq<Byte>) {
    k + |b| <= |s| && s[k..k + |b|] == b
  }

  lemma AtJoin(s: seq<Byte>, k: nat, a: seq<Byte>, b: seq<Byte>)
    ensures At(s, k, a + b) <==> At(s, k, a) && At(s, k + |a|, b)
  {
    if At(s, k, a + b) {
      assert s[k..k + |a|] == (a + b)[..|a|] == a;
      assert s[k + |a|..k + |a| + |b|] == (a + b)[|a|..] == b;
    }
  }

  lemma AtPart(s: seq<Byte>, k: nat, c: seq<Byte>, i: nat, d: seq<Byte>)
    requires At(s, k, c) && At(c, i, d)
    ensures At(s, k + i, d)
  {
    forall j | 0 <= j < |d|
      ensures s[k + i + j] == d[j]
    {
      assert s[k..k + |c|][i + j] == c[i + j] && c[i..i + |d|][j] == d[j];
    }
  }

  lemma AtPrefix(a: seq<Byte>, b: seq<Byte>, i: nat, d: seq<Byte>)
    requires At(a, i, d)
    ensures At(a + b, i, d)
  {
    assert (a + b)[i..i + |d|] == a[i..i + |d|];
  }

  lemma AtSuffix(a: seq<Byte>, b: seq<Byte>)
    ensures At(a + b, |a|, b)
  {
  }

  lemma AtEmpty(s: seq<Byte>, k: nat)
    requires k <= |s|
    ensures At(s, k, [])
  {
  }

  /** n bytes of s from index k on; none when they are not all there. */
  function Get(s: seq<Byte>, k: nat, n: nat): seq<Byte> {
    if k + n <= |s| then s[k..k + n] else []
  }

  lemma GetAt(s: seq<Byte>, k: nat, b: seq<Byte>)
    requires At(s, k, b)
    ensures Get(s, k, |b|) == b
  {
  }

  lemma GetEnc(s: seq<Byte>, k: nat, v: nat, n: nat)
    requires At(s, k, Enc(v, n)) && v < Pow2(8 * n)
    ensures LE(Get(s, k, n)) == v
  {
    hide Enc, LE, Pow2;
    GetAt(s, k, Enc(v, n));
    DecodeEncode(v, n);
    SmallMod(v, Pow2(8 * n));
  }

  lemma SmallMod(v: nat, m: nat)
    requires v < m
    ensures v % m == v
  {
  }

  /** `memcpy(buffer + at, bytes, size)` */
  method Copy(buffer: array<Byte>, at: nat, bytes: seq<Byte>)
    requires at + |bytes| <= buffer.Length
    modifies buffer
    ensures buffer[..] == old(buffer[..])[..at] + bytes + old(buffer[..])[at + |bytes|..]
  {
    forall i | 0 <= i < |bytes| {
      buffer[at + i] := bytes[i];
    }
  }

  /** The same, for proofs by sections: the bytes arrive, and whatever stands elsewhere stays. */
  method Memcpy(buffer: array<Byte>, at: nat, bytes: seq<Byte>)
    requires at + |bytes| <= buffer.Length
    modifies buffer
    ensures At(buffer[..], at, bytes)
    ensures forall k: nat, c {:trigger At(buffer[..], k, c)} ::
              At(old(buffer[..]), k, c) && (k + |c| <= at || at + |bytes| <= k) ==> At(buffer[..], k, c)
  {
    ghost var s := buffer[..];
    Copy(buffer, at, bytes);
    ghost var t := buffer[..];
    assert t[at..at + |bytes|] == bytes;
    forall k: nat, c | At(s, k, c) && (k + |c| <= at || at + |bytes| <= k)
      ensures At(t, k, c)
    {
      assert t[k..k + |c|] == s[k..k + |c|];
    }
  }

  /** A memcpy right behind a section makes the section longer. */
  method Extend(buffer: array<Byte>, at: nat, bytes: seq<Byte>, ghost start: nat, ghost section: seq<Byte>)
    requires at + |bytes| <= buffer.Length
    requires at == start + |section| && At(buffer[..], start, section)
    modifies buffer
    ensures At(buffer[..], start, section + bytes)
    ensures forall k: nat, c {:trigger At(buffer[..], k, c)} ::
              At(old(buffer[..]), k, c) && (k + |c| <= at || at + |bytes| <= k) ==> At(buffer[..], k, c)
  {
    hide At;
    Memcpy(buffer, at, bytes);
    AtJoin(buffer[..], start, section, bytes);
  }
}
