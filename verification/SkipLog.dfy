/** What the skip list means: an insertion log, its sorted form, the answers to the
    two searches, and the two serialised forms. Nothing here mentions nodes or towers. */
module SkipLog {
  import opened Bytes
  import opened Keys

  /** A key with the number it is compared by, and the value stored under it. */
  datatype Entry = Entry(rank: nat, key: seq<Byte>, value: U64)

  function MakeEntry(key: seq<Byte>, value: U64): Entry {
    Entry(Rank(key), key, value)
  }

  // ----- the sorted form of a log

  /** Insertion in front of the first entry whose key is not smaller. */
  function InsertBefore(s: seq<Entry>, e: Entry): seq<Entry> {
    if s == [] then [e]
    else if s[0].rank < e.rank then [s[0]] + InsertBefore(s[1..], e)
    else [e] + s
  }

  function SortLog(log: seq<Entry>): seq<Entry> {
    if log == [] then []
    else InsertBefore(SortLog(log[..|log| - 1]), log[|log| - 1])
  }

  ghost predicate Sorted(s: seq<Entry>) {
    |s| < 2 || (s[0].rank <= s[1].rank && Sorted(s[1..]))
  }

  lemma {:induction false} SortedAt(s: seq<Entry>, i: nat, j: nat)
    requires Sorted(s) && i <= j < |s|
    ensures s[i].rank <= s[j].rank
  {
    if i > 0 {
      SortedAt(s[1..], i - 1, j - 1);
    } else if j > 0 {
      SortedAt(s[1..], 0, j - 1);
    }
  }

  function Matching(s: seq<Entry>, rank: nat): seq<Entry> {
    if s == [] then []
    else (if s[0].rank == rank then [s[0]] else []) + Matching(s[1..], rank)
  }

  function Between(s: seq<Entry>, lo: nat, hi: nat): seq<Entry> {
    if s == [] then []
    else (if lo <= s[0].rank < hi then [s[0]] else []) + Between(s[1..], lo, hi)
  }

  function Reverse(s: seq<Entry>): seq<Entry> {
    if s == [] then [] else Reverse(s[1..]) + [s[0]]
  }

  /** The result lists hold 32-bit elements, so values are truncated. */
  function Low32(s: seq<Entry>): seq<U32> {
    if s == [] then [] else [s[0].value % 0x1_0000_0000] + Low32(s[1..])
  }

  lemma {:induction false} Low32Snoc(s: seq<Entry>, e: Entry)
    ensures Low32(s + [e]) == Low32(s) + [e.value % 0x1_0000_0000]
  {
    if s == [] {
      assert [e][1..] == [];
    } else {
      assert (s + [e])[1..] == s[1..] + [e];
      Low32Snoc(s[1..], e);
    }
  }

  lemma {:induction false} InsertBeforeAt(s: seq<Entry>, e: Entry, k: nat)
    requires k <= |s|
    requires forall i :: 0 <= i < k ==> s[i].rank < e.rank
    requires k < |s| ==> s[k].rank >= e.rank
    ensures InsertBefore(s, e) == s[..k] + [e] + s[k..]
  {
    if k == 0 {
    } else {
      InsertBeforeAt(s[1..], e, k - 1);
      assert s == [s[0]] + s[1..];
    }
  }

  lemma {:induction false} MatchingConcat(a: seq<Entry>, b: seq<Entry>, rank: nat)
    ensures Matching(a + b, rank) == Matching(a, rank) + Matching(b, rank)
  {
    if a == [] {
      assert a + b == b;
    } else {
      MatchingConcat(a[1..], b, rank);
      assert (a + b)[1..] == a[1..] + b;
      SeqAssoc(if a[0].rank == rank then [a[0]] else [], Matching(a[1..], rank), Matching(b, rank));
    }
  }

  lemma {:induction false} BetweenConcat(a: seq<Entry>, b: seq<Entry>, lo: nat, hi: nat)
    ensures Between(a + b, lo, hi) == Between(a, lo, hi) + Between(b, lo, hi)
  {
    if a == [] {
      assert a + b == b;
    } else {
      BetweenConcat(a[1..], b, lo, hi);
      assert (a + b)[1..] == a[1..] + b;
      SeqAssoc(if lo <= a[0].rank < hi then [a[0]] else [], Between(a[1..], lo, hi), Between(b, lo, hi));
    }
  }

  // ----- what a scan has answered after the first i entries

  function AnswerUpTo(s: seq<Entry>, lo: nat, hi: nat, i: nat): seq<U32>
    requires i <= |s|
  {
    if i == 0 then []
    else AnswerUpTo(s, lo, hi, i - 1) + if lo <= s[i - 1].rank < hi then [s[i - 1].value % 0x1_0000_0000] else []
  }

  lemma {:induction false} AnswerUpToPrefix(s: seq<Entry>, lo: nat, hi: nat, i: nat)
    requires i <= |s|
    ensures AnswerUpTo(s, lo, hi, i) == Low32(Between(s[..i], lo, hi))
  {
    if i > 0 {
      AnswerUpToPrefix(s, lo, hi, i - 1);
      assert s[..i] == s[..i - 1] + [s[i - 1]];
      BetweenConcat(s[..i - 1], [s[i - 1]], lo, hi);
      assert Between([s[i - 1]], lo, hi) == if lo <= s[i - 1].rank < hi then [s[i - 1]] else [];
      Low32Snoc(Between(s[..i - 1], lo, hi), s[i - 1]);
      assert Between(s[..i - 1], lo, hi) + [] == Between(s[..i - 1], lo, hi);
    }
  }

  /** A scan that passes only unwanted entries answers nothing new. */
  lemma {:induction false} AnswerUpToSkip(s: seq<Entry>, lo: nat, hi: nat, i: nat, j: nat)
    requires i <= j <= |s|
    requires forall m :: i <= m < j ==> !(lo <= s[m].rank < hi)
    ensures AnswerUpTo(s, lo, hi, i) == AnswerUpTo(s, lo, hi, j)
    decreases j
  {
    if i < j {
      AnswerUpToSkip(s, lo, hi, i, j - 1);
    }
  }

  lemma AnswerNothingYet(s: seq<Entry>, lo: nat, hi: nat, i: nat)
    requires i <= |s| && forall m :: 0 <= m < i ==> s[m].rank < lo
    ensures AnswerUpTo(s, lo, hi, i) == []
  {
    AnswerUpToSkip(s, lo, hi, 0, i);
  }

  /** A scan may stop at the first entry past the range. */
  lemma AnswerComplete(s: seq<Entry>, lo: nat, hi: nat, i: nat)
    requires i <= |s| && Sorted(s)
    requires i < |s| ==> s[i].rank >= hi
    ensures AnswerUpTo(s, lo, hi, i) == AnswerUpTo(s, lo, hi, |s|)
  {
    forall m | i <= m < |s|
      ensures s[m].rank >= hi
    {
      SortedAt(s, i, m);
    }
    AnswerUpToSkip(s, lo, hi, i, |s|);
  }

  lemma AnswerAll(s: seq<Entry>, lo: nat, hi: nat)
    ensures AnswerUpTo(s, lo, hi, |s|) == Low32(Between(s, lo, hi))
  {
    AnswerUpToPrefix(s, lo, hi, |s|);
    assert s[..|s|] == s;
  }

  /** A key search is the search of the range holding that one key. */
  lemma {:induction false} BetweenOne(s: seq<Entry>, rank: nat)
    ensures Between(s, rank, rank + 1) == Matching(s, rank)
  {
    if s != [] {
      BetweenOne(s[1..], rank);
    }
  }

  lemma {:induction false} MatchingNone(s: seq<Entry>, rank: nat)
    requires forall i :: 0 <= i < |s| ==> s[i].rank != rank
    ensures Matching(s, rank) == []
  {
    if s != [] {
      MatchingNone(s[1..], rank);
    }
  }

  lemma {:induction false} InsertBeforeSorted(s: seq<Entry>, e: Entry)
    requires Sorted(s)
    ensures Sorted(InsertBefore(s, e))
  {
    if s != [] && s[0].rank < e.rank {
      InsertBeforeSorted(s[1..], e);
      assert InsertBefore(s, e)[1..] == InsertBefore(s[1..], e);
    } else {
      assert InsertBefore(s, e)[1..] == s;
    }
  }

  lemma InsertBeforePermutes(s: seq<Entry>, e: Entry)
    ensures multiset(InsertBefore(s, e)) == multiset(s) + multiset{e}
  {
    var k := FirstNotLess(s, e.rank);
    InsertBeforeAt(s, e, k);
    assert s == s[..k] + s[k..];
  }

  /** Index of the first entry of a sorted sequence with rank at least r. */
  function FirstNotLess(s: seq<Entry>, r: nat): (k: nat)
    ensures k <= |s|
    ensures forall i :: 0 <= i < k ==> s[i].rank < r
    ensures k < |s| ==> s[k].rank >= r
  {
    if s == [] || s[0].rank >= r then 0 else 1 + FirstNotLess(s[1..], r)
  }

  lemma {:induction false} InsertBeforeMatching(s: seq<Entry>, e: Entry, rank: nat)
    ensures Matching(InsertBefore(s, e), rank) == (if e.rank == rank then [e] else []) + Matching(s, rank)
  {
    if s != [] && s[0].rank < e.rank {
      InsertBeforeMatching(s[1..], e, rank);
      MatchingConcat([s[0]], InsertBefore(s[1..], e), rank);
      MatchingConcat([s[0]], s[1..], rank);
      assert s == [s[0]] + s[1..];
      if s[0].rank == rank {
        assert e.rank != rank;
      }
    } else {
      MatchingConcat([e], s, rank);
    }
  }

  lemma {:induction false} ReverseSnoc(s: seq<Entry>, e: Entry)
    ensures Reverse(s + [e]) == [e] + Reverse(s)
  {
    if s != [] {
      ReverseSnoc(s[1..], e);
      assert (s + [e])[1..] == s[1..] + [e];
    }
  }

  lemma {:induction false} SortLogSorted(log: seq<Entry>)
    ensures Sorted(SortLog(log))
  {
    if log != [] {
      SortLogSorted(log[..|log| - 1]);
      InsertBeforeSorted(SortLog(log[..|log| - 1]), log[|log| - 1]);
    }
  }

  lemma {:induction false} SortLogLength(log: seq<Entry>)
    ensures |SortLog(log)| == |log|
  {
    if log != [] {
      var init, e := log[..|log| - 1], log[|log| - 1];
      SortLogLength(init);
      InsertBeforeAt(SortLog(init), e, FirstNotLess(SortLog(init), e.rank));
    }
  }

  /** Sorting keeps exactly the logged entries. */
  lemma {:induction false} SortLogPermutes(log: seq<Entry>)
    ensures multiset(SortLog(log)) == multiset(log)
  {
    if log != [] {
      var init, e := log[..|log| - 1], log[|log| - 1];
      SortLogPermutes(init);
      InsertBeforePermutes(SortLog(init), e);
      assert log == init + [e];
    }
  }

  /** Under each key the sorted form lists the logged entries newest first. */
  lemma {:induction false} SortLogMatching(log: seq<Entry>, r: nat)
    ensures Matching(SortLog(log), r) == Reverse(Matching(log, r))
  {
    if log != [] {
      var init, e := log[..|log| - 1], log[|log| - 1];
      SortLogMatching(init, r);
      InsertBeforeMatching(SortLog(init), e, r);
      assert log == init + [e];
      MatchingConcat(init, [e], r);
      ReverseSnoc(Matching(init, r), e);
      assert Matching([e], r) == if e.rank == r then [e] else [];
      if e.rank != r { assert Matching(init, r) + [] == Matching(init, r); }
    }
  }

  lemma MatchingAbove(s: seq<Entry>, rank: nat)
    requires Sorted(s) && (s != [] ==> s[0].rank > rank)
    ensures Matching(s, rank) == []
  {
    forall i | 0 <= i < |s|
      ensures s[i].rank != rank
    {
      SortedAt(s, 0, i);
    }
    MatchingNone(s, rank);
  }

  lemma SortedHead(s: seq<Entry>, t: seq<Entry>)
    requires Sorted(s) && Sorted(t)
    requires forall r: nat :: Matching(s, r) == Matching(t, r)
    requires s != []
    ensures t != [] && t[0] == s[0]
  {
    var r := s[0].rank;
    assert Matching(s, r)[0] == s[0];
    if t == [] || t[0].rank > r {
      MatchingAbove(t, r);
    } else {
      var q := t[0].rank;
      assert Matching(t, q)[0] == t[0];
      if q < r {
        MatchingAbove(s, q);
      }
    }
  }

  lemma MatchingTail(s: seq<Entry>, t: seq<Entry>, r: nat)
    requires s != [] && t != [] && s[0] == t[0] && Matching(s, r) == Matching(t, r)
    ensures Matching(s[1..], r) == Matching(t[1..], r)
  {
    if s[0].rank == r {
      assert Matching(s[1..], r) == Matching(s, r)[1..];
      assert Matching(t[1..], r) == Matching(t, r)[1..];
    } else {
      assert Matching(s[1..], r) == Matching(s, r);
      assert Matching(t[1..], r) == Matching(t, r);
    }
  }

  /** A sorted sequence is determined by what it lists under each key. */
  lemma {:induction false} SortedUnique(s: seq<Entry>, t: seq<Entry>)
    requires Sorted(s) && Sorted(t)
    requires forall r: nat :: Matching(s, r) == Matching(t, r)
    ensures s == t
  {
    if s == [] {
      if t != [] { SortedHead(t, s); }
    } else {
      SortedHead(s, t);
      forall r: nat
        ensures Matching(s[1..], r) == Matching(t[1..], r)
      {
        MatchingTail(s, t, r);
      }
      SortedUnique(s[1..], t[1..]);
      assert s == [s[0]] + s[1..] && t == [t[0]] + t[1..];
    }
  }

  /** Ordered by key, and newest first within a key. */
  ghost predicate NewestFirstByKey(t: seq<Entry>, log: seq<Entry>) {
    Sorted(t) && forall r: nat :: Matching(t, r) == Reverse(Matching(log, r))
  }

  /** The sorted form is the only sequence ordered by key and newest first within a key. */
  lemma SortLogIsTheOnly(log: seq<Entry>, t: seq<Entry>)
    ensures t == SortLog(log) <==> NewestFirstByKey(t, log)
  {
    SortLogIsOne(log);
    if NewestFirstByKey(t, log) {
      forall r: nat
        ensures Matching(t, r) == Matching(SortLog(log), r)
      {
        assert Matching(t, r) == Reverse(Matching(log, r));
        SortLogMatching(log, r);
      }
      SortedUnique(t, SortLog(log));
    }
  }

  lemma SortLogIsOne(log: seq<Entry>)
    ensures NewestFirstByKey(SortLog(log), log)
  {
    SortLogSorted(log);
    forall r: nat
      ensures Matching(SortLog(log), r) == Reverse(Matching(log, r))
    {
      SortLogMatching(log, r);
    }
  }

  lemma {:induction false} BetweenSorted(s: seq<Entry>, lo: nat, hi: nat)
    requires Sorted(s)
    ensures Sorted(Between(s, lo, hi))
    ensures Between(s, lo, hi) != [] ==> s != [] && s[0].rank <= Between(s, lo, hi)[0].rank
  {
    if s != [] {
      BetweenSorted(s[1..], lo, hi);
      if lo <= s[0].rank < hi {
        assert Between(s, lo, hi)[1..] == Between(s[1..], lo, hi);
      } else {
        assert Between(s, lo, hi) == Between(s[1..], lo, hi);
      }
    }
  }

  /** A range answer lists, under each key of the range, what a key search lists, and nothing else. */
  lemma {:induction false} BetweenMatching(s: seq<Entry>, lo: nat, hi: nat, r: nat)
    ensures Matching(Between(s, lo, hi), r) == if lo <= r < hi then Matching(s, r) else []
  {
    if s != [] {
      BetweenMatching(s[1..], lo, hi, r);
      var head := if lo <= s[0].rank < hi then [s[0]] else [];
      MatchingConcat(head, Between(s[1..], lo, hi), r);
    }
  }

  // ----- serialised forms

  function Flat(s: seq<Entry>, valueLen: nat): seq<Byte> {
    if s == [] then [] else s[0].key + Enc(s[0].value, valueLen) + Flat(s[1..], valueLen)
  }

  function ValueBytes(s: seq<Entry>, valueLen: nat): (r: seq<Byte>)
    ensures |r| == |s| * valueLen
  {
    if s == [] then [] else Enc(s[0].value, valueLen) + ValueBytes(s[1..], valueLen)
  }

  /** One (key, first offset) record per run of equal keys; `last` is the key before s, at position `offset`. */
  function Directory(s: seq<Entry>, last: seq<Byte>, offset: nat): seq<Byte> {
    if s == [] then []
    else (if s[0].key != last then s[0].key + Enc(offset, 4) else []) + Directory(s[1..], s[0].key, offset + 1)
  }

  function Compact(s: seq<Entry>, valueLen: nat): seq<Byte> {
    Enc(|s|, 8) + Directory(s, [], 0) + ValueBytes(s, valueLen)
  }

  // ----- a reader of the compact form

  type Pair = (seq<Byte>, seq<Byte>)

  function Join(ps: seq<Pair>): seq<Byte> {
    if ps == [] then [] else ps[0].0 + ps[0].1 + Join(ps[1..])
  }

  function Pairs(s: seq<Entry>, valueLen: nat): seq<Pair> {
    if s == [] then [] else [(s[0].key, Enc(s[0].value, valueLen))] + Pairs(s[1..], valueLen)
  }

  /** First offset named by a directory, or n when it is empty. */
  function NextOffset(dir: seq<Byte>, keyLen: nat, n: nat): nat {
    if |dir| < keyLen + 4 then n else LE(dir[keyLen..keyLen + 4])
  }

  /** The values at positions off..end, all under one key. */
  function Run(key: seq<Byte>, values: seq<Byte>, off: nat, end: nat, valueLen: nat): seq<Pair>
    decreases end - off
  {
    if off >= end || off * valueLen + valueLen > |values| then []
    else [(key, values[off * valueLen..off * valueLen + valueLen])] + Run(key, values, off + 1, end, valueLen)
  }

  function ExpandDirectory(dir: seq<Byte>, values: seq<Byte>, keyLen: nat, valueLen: nat, n: nat): seq<Pair> {
    if |dir| < keyLen + 4 then []
    else
      var rest := dir[keyLen + 4..];
      Run(dir[..keyLen], values, NextOffset(dir, keyLen, n), NextOffset(rest, keyLen, n), valueLen)
      + ExpandDirectory(rest, values, keyLen, valueLen, n)
  }

  /** The number of directory records follows from the total length alone. */
  function Expand(data: seq<Byte>, keyLen: nat, valueLen: nat): seq<Pair> {
    if |data| < 8 then []
    else
      var n := LE(data[..8]);
      if 8 + n * valueLen > |data| then []
      else
        var split := |data| - n * valueLen;
        ExpandDirectory(data[8..split], data[split..], keyLen, valueLen, n)
  }

  lemma {:induction false} ValueAt(s: seq<Entry>, valueLen: nat, i: nat)
    requires i < |s|
    ensures i * valueLen + valueLen <= |ValueBytes(s, valueLen)|
    ensures ValueBytes(s, valueLen)[i * valueLen..i * valueLen + valueLen] == Enc(s[i].value, valueLen)
  {
    assert (i + 1) * valueLen == i * valueLen + valueLen;
    assert (i + 1) * valueLen <= |s| * valueLen;
    if i > 0 {
      ValueAt(s[1..], valueLen, i - 1);
      var p := (i - 1) * valueLen;
      assert i * valueLen == valueLen + p;
      var v, rest := Enc(s[0].value, valueLen), ValueBytes(s[1..], valueLen);
      assert (v + rest)[valueLen + p..valueLen + p + valueLen] == rest[p..p + valueLen];
    }
  }

  lemma DecodeEncode4(v: nat)
    requires v < 0x1_0000_0000
    ensures LE(Enc(v, 4)) == v
  {
    DecodeEncode(v, 4);
    Pow2Constants();
  }

  lemma DecodeEncode8(v: nat)
    requires v < 0x1_0000_0000_0000_0000
    ensures LE(Enc(v, 8)) == v
  {
    DecodeEncode(v, 8);
    Pow2Constants();
  }

  lemma DirectoryRecord(key: seq<Byte>, i: nat, rest: seq<Byte>, keyLen: nat, n: nat)
    requires |key| == keyLen && i < 0x1_0000_0000
    ensures var dir := key + Enc(i, 4) + rest;
            && |dir| >= keyLen + 4
            && dir[..keyLen] == key
            && dir[keyLen + 4..] == rest
            && NextOffset(dir, keyLen, n) == i
  {
    var dir := key + Enc(i, 4) + rest;
    assert dir[keyLen..keyLen + 4] == Enc(i, 4);
    DecodeEncode4(i);
  }

  lemma {:induction false} NextOffsetBounds(s: seq<Entry>, last: seq<Byte>, i: nat, keyLen: nat)
    requires i <= |s| <= 0x1_0000_0000
    requires forall e :: e in s ==> |e.key| == keyLen
    ensures i <= NextOffset(Directory(s[i..], last, i), keyLen, |s|) <= |s|
    decreases |s| - i
  {
    if i < |s| {
      assert s[i] in s;
      assert s[i..][1..] == s[i + 1..];
      var rest := Directory(s[i + 1..], s[i].key, i + 1);
      NextOffsetBounds(s, s[i].key, i + 1, keyLen);
      if s[i].key != last {
        DirectoryRecord(s[i].key, i, rest, keyLen, |s|);
        assert Directory(s[i..], last, i) == s[i].key + Enc(i, 4) + rest;
      } else {
        assert Directory(s[i..], last, i) == rest;
      }
    }
  }

  lemma RunStep(key: seq<Byte>, s: seq<Entry>, i: nat, end: nat, valueLen: nat)
    requires i < |s| && i < end
    ensures Run(key, ValueBytes(s, valueLen), i, end, valueLen)
         == [(key, Enc(s[i].value, valueLen))] + Run(key, ValueBytes(s, valueLen), i + 1, end, valueLen)
  {
    ValueAt(s, valueLen, i);
  }

  /** The rest of the current run, followed by the rest of the directory, is the rest of the entries. */
  lemma {:induction false} ExpandSuffix(s: seq<Entry>, last: seq<Byte>, i: nat, keyLen: nat, valueLen: nat)
    requires i <= |s| <= 0x1_0000_0000
    requires forall e :: e in s ==> |e.key| == keyLen
    ensures var dir := Directory(s[i..], last, i);
            var values := ValueBytes(s, valueLen);
            Run(last, values, i, NextOffset(dir, keyLen, |s|), valueLen)
            + ExpandDirectory(dir, values, keyLen, valueLen, |s|) == Pairs(s[i..], valueLen)
    decreases |s| - i
  {
    if i < |s| {
      var e, values := s[i], ValueBytes(s, valueLen);
      assert e in s;
      assert s[i..][1..] == s[i + 1..];
      var rest := Directory(s[i + 1..], e.key, i + 1);
      var end := NextOffset(rest, keyLen, |s|);
      NextOffsetBounds(s, e.key, i + 1, keyLen);
      RunStep(e.key, s, i, end, valueLen);
      ExpandSuffix(s, e.key, i + 1, keyLen, valueLen);
      SeqAssoc([(e.key, Enc(e.value, valueLen))], Run(e.key, values, i + 1, end, valueLen),
               ExpandDirectory(rest, values, keyLen, valueLen, |s|));
      if e.key != last {
        DirectoryRecord(e.key, i, rest, keyLen, |s|);
        assert Directory(s[i..], last, i) == e.key + Enc(i, 4) + rest;
      } else {
        assert Directory(s[i..], last, i) == rest;
      }
    }
  }

  /** The compact form is lossless: expanding it gives back every key and value in order. */
  lemma ExpandCompact(s: seq<Entry>, keyLen: nat, valueLen: nat)
    requires |s| <= 0x1_0000_0000
    requires forall e :: e in s ==> |e.key| == keyLen > 0
    ensures Expand(Compact(s, valueLen), keyLen, valueLen) == Pairs(s, valueLen)
  {
    var data, dir, values := Compact(s, valueLen), Directory(s, [], 0), ValueBytes(s, valueLen);
    DecodeEncode8(|s|);
    assert data[..8] == Enc(|s|, 8);
    assert data[8..|data| - |values|] == dir && data[|data| - |values|..] == values;
    ExpandSuffix(s, [], 0, keyLen, valueLen);
    assert s[0..] == s;
    if s == [] {
    } else {
      assert s[0] in s;
      DirectoryRecord(s[0].key, 0, Directory(s[1..], s[0].key, 1), keyLen, |s|);
    }
  }

  /** The plain form is the same pairs written one after the other. */
  lemma {:induction false} JoinPairs(s: seq<Entry>, valueLen: nat)
    ensures Join(Pairs(s, valueLen)) == Flat(s, valueLen)
  {
    if s != [] {
      JoinPairs(s[1..], valueLen);
      assert Pairs(s, valueLen)[1..] == Pairs(s[1..], valueLen);
    }
  }

  lemma {:induction false} FlatConcat(a: seq<Entry>, b: seq<Entry>, valueLen: nat)
    ensures Flat(a + b, valueLen) == Flat(a, valueLen) + Flat(b, valueLen)
  {
    if a == [] {
      assert a + b == b;
    } else {
      FlatConcat(a[1..], b, valueLen);
      assert (a + b)[1..] == a[1..] + b;
      SeqAssoc(a[0].key + Enc(a[0].value, valueLen), Flat(a[1..], valueLen), Flat(b, valueLen));
    }
  }

  lemma {:induction false} FlatLength(s: seq<Entry>, keyLen: nat, valueLen: nat)
    requires forall e :: e in s ==> |e.key| == keyLen
    ensures |Flat(s, valueLen)| == |s| * (keyLen + valueLen)
  {
    if s != [] {
      assert s[0] in s;
      FlatLength(s[1..], keyLen, valueLen);
      MulStep(|s|, keyLen + valueLen);
    }
  }

  lemma {:induction false} ValueBytesConcat(a: seq<Entry>, b: seq<Entry>, valueLen: nat)
    ensures ValueBytes(a + b, valueLen) == ValueBytes(a, valueLen) + ValueBytes(b, valueLen)
  {
    if a == [] {
      assert a + b == b;
    } else {
      ValueBytesConcat(a[1..], b, valueLen);
      assert (a + b)[1..] == a[1..] + b;
      SeqAssoc(Enc(a[0].value, valueLen), ValueBytes(a[1..], valueLen), ValueBytes(b, valueLen));
    }
  }

  // ----- what a writer has written after the first i entries

  function FlatUpTo(s: seq<Entry>, valueLen: nat, i: nat): seq<Byte>
    requires i <= |s|
  {
    if i == 0 then [] else FlatUpTo(s, valueLen, i - 1) + s[i - 1].key + Enc(s[i - 1].value, valueLen)
  }

  lemma {:induction false} FlatUpToPrefix(s: seq<Entry>, valueLen: nat, i: nat)
    requires i <= |s|
    ensures FlatUpTo(s, valueLen, i) == Flat(s[..i], valueLen)
  {
    if i > 0 {
      FlatUpToPrefix(s, valueLen, i - 1);
      assert s[..i] == s[..i - 1] + [s[i - 1]];
      FlatConcat(s[..i - 1], [s[i - 1]], valueLen);
      assert Flat([s[i - 1]], valueLen) == s[i - 1].key + Enc(s[i - 1].value, valueLen);
      SeqAssoc(Flat(s[..i - 1], valueLen), s[i - 1].key, Enc(s[i - 1].value, valueLen));
    }
  }

  lemma FlatUpToLength(s: seq<Entry>, keyLen: nat, valueLen: nat, i: nat)
    requires i <= |s| && forall e :: e in s ==> |e.key| == keyLen
    ensures |FlatUpTo(s, valueLen, i)| == i * (keyLen + valueLen)
  {
    FlatUpToPrefix(s, valueLen, i);
    FlatLength(s[..i], keyLen, valueLen);
  }

  function ValuesUpTo(s: seq<Entry>, valueLen: nat, i: nat): (r: seq<Byte>)
    requires i <= |s|
    ensures |r| == i * valueLen
  {
    if i == 0 then []
    else
      MulStep(i, valueLen);
      ValuesUpTo(s, valueLen, i - 1) + Enc(s[i - 1].value, valueLen)
  }

  lemma {:induction false} ValuesUpToPrefix(s: seq<Entry>, valueLen: nat, i: nat)
    requires i <= |s|
    ensures ValuesUpTo(s, valueLen, i) == ValueBytes(s[..i], valueLen)
  {
    if i > 0 {
      ValuesUpToPrefix(s, valueLen, i - 1);
      assert s[..i] == s[..i - 1] + [s[i - 1]];
      ValueBytesConcat(s[..i - 1], [s[i - 1]], valueLen);
      assert ValueBytes([s[i - 1]], valueLen) == Enc(s[i - 1].value, valueLen);
    }
  }

  /** The key before position i, or the empty string the writer starts from. */
  function LastKey(s: seq<Entry>, i: nat): seq<Byte>
    requires i <= |s|
  {
    if i == 0 then [] else s[i - 1].key
  }

  function DirectoryUpTo(s: seq<Entry>, i: nat): seq<Byte>
    requires i <= |s|
  {
    if i == 0 then []
    else if s[i - 1].key != LastKey(s, i - 1) then DirectoryUpTo(s, i - 1) + s[i - 1].key + Enc(i - 1, 4)
    else DirectoryUpTo(s, i - 1)
  }

  lemma DirectoryStep(s: seq<Entry>, i: nat)
    requires 0 < i <= |s|
    ensures LastKey(s, i) == s[i - 1].key
    ensures DirectoryUpTo(s, i) == if LastKey(s, i - 1) != s[i - 1].key
                                   then DirectoryUpTo(s, i - 1) + s[i - 1].key + Enc(i - 1, 4) else DirectoryUpTo(s, i - 1)
  {
  }

  lemma NothingWritten(s: seq<Entry>, valueLen: nat)
    ensures LastKey(s, 0) == [] && DirectoryUpTo(s, 0) == [] && ValuesUpTo(s, valueLen, 0) == []
  {
  }

  /** The directory, split after the records of the first i entries. */
  function DirectoryAt(s: seq<Entry>, i: nat): seq<Byte>
    requires i <= |s|
  {
    DirectoryUpTo(s, i) + Directory(s[i..], LastKey(s, i), i)
  }

  lemma {:induction false} DirectorySplit(s: seq<Entry>, i: nat)
    requires i <= |s|
    ensures DirectoryAt(s, i) == DirectoryAt(s, 0)
  {
    hide DirectoryAt;
    if i > 0 {
      DirectorySplit(s, i - 1);
      DirectoryShift(s, i - 1);
    }
  }

  /** The record of position i may be counted as written or as still to come. */
  lemma DirectoryShift(s: seq<Entry>, i: nat)
    requires i < |s|
    ensures DirectoryAt(s, i) == DirectoryAt(s, i + 1)
  {
    hide Enc;
    DirectoryUncons(s, i);
    AppendRecord(DirectoryUpTo(s, i), s[i].key, Enc(i, 4), Directory(s[i + 1..], s[i].key, i + 1));
  }

  lemma AppendRecord(written: seq<Byte>, key: seq<Byte>, offset: seq<Byte>, rest: seq<Byte>)
    ensures written + ((key + offset) + rest) == ((written + key) + offset) + rest
    ensures written + ([] + rest) == written + rest
  {
  }

  lemma DirectoryUncons(s: seq<Entry>, i: nat)
    requires i < |s|
    ensures Directory(s[i..], LastKey(s, i), i)
         == (if s[i].key != LastKey(s, i) then s[i].key + Enc(i, 4) else []) + Directory(s[i + 1..], s[i].key, i + 1)
  {
    assert s[i..][1..] == s[i + 1..];
  }

  lemma FlatWritten(s: seq<Entry>, valueLen: nat)
    ensures FlatUpTo(s, valueLen, |s|) == Flat(s, valueLen)
  {
    assert s[..|s|] == s;
    FlatUpToPrefix(s, valueLen, |s|);
  }

  lemma ValuesWritten(s: seq<Entry>, valueLen: nat)
    ensures ValuesUpTo(s, valueLen, |s|) == ValueBytes(s, valueLen)
  {
    assert s[..|s|] == s;
    ValuesUpToPrefix(s, valueLen, |s|);
  }

  lemma DirectoryWritten(s: seq<Entry>)
    ensures DirectoryUpTo(s, |s|) == Directory(s, [], 0)
  {
    hide DirectoryAt;
    DirectorySplit(s, |s|);
    DirectoryEnds(s);
  }

  lemma DirectoryEnds(s: seq<Entry>)
    ensures DirectoryAt(s, |s|) == DirectoryUpTo(s, |s|)
    ensures DirectoryAt(s, 0) == Directory(s, [], 0)
  {
    hide Enc;
    assert s[|s|..] == [];
    assert s[0..] == s;
  }
}
