/**
  The layout of the append-only store (core/pmap/store.go) as pure functions:
  records with a length header and a length trailer, the byte image of a list of
  records, and the "last record wins" reading of such a list.
 */
module Records {
  import opened Bytes

  /** A stored pair; an empty value is a tombstone. */
  datatype Record = Record(key: bytes, val: bytes)

  function RecordSize(r: Record): nat {
    12 + |r.key| + |r.val|
  }

  function RecordBytes(r: Record): (s: bytes)
    ensures |s| == RecordSize(r)
  {
    LE(|r.key|, 4) + LE(|r.val|, 4) + r.key + r.val + LE(|r.key| + |r.val|, 4)
  }

  function LogBytes(log: seq<Record>): bytes {
    if log == [] then [] else LogBytes(log[..|log| - 1]) + RecordBytes(log[|log| - 1])
  }

  /** The byte offset of record `i`; `Offset(log, |log|)` is the length of the image. */
  function Offset(log: seq<Record>, i: nat): nat
    requires i <= |log|
  {
    if i == 0 then 0 else Offset(log, i - 1) + RecordSize(log[i - 1])
  }

  ghost predicate IsBoundary(log: seq<Record>, x: nat) {
    exists i :: 0 <= i < |log| && x == Offset(log, i)
  }

  lemma LogBytesAppend(log: seq<Record>, r: Record)
    ensures LogBytes(log + [r]) == LogBytes(log) + RecordBytes(r)
  {
    assert (log + [r])[..|log|] == log;
  }

  lemma {:induction false} OffsetAppend(log: seq<Record>, r: Record, i: nat)
    requires i <= |log|
    ensures Offset(log + [r], i) == Offset(log, i)
  {
    if i > 0 {
      OffsetAppend(log, r, i - 1);
    }
  }

  lemma {:induction false} OffsetPrefix(log: seq<Record>, n: nat, i: nat)
    requires i <= n <= |log|
    ensures Offset(log[..n], i) == Offset(log, i)
  {
    if i > 0 {
      OffsetPrefix(log, n, i - 1);
    }
  }

  /** Offsets are lengths of images. */
  lemma {:induction false} ImageLength(log: seq<Record>)
    ensures |LogBytes(log)| == Offset(log, |log|)
  {
    if log != [] {
      var n := |log| - 1;
      ImageLength(log[..n]);
      OffsetPrefix(log, n, n);
    }
  }

  lemma {:induction false} OffsetMonotone(log: seq<Record>, i: nat, j: nat)
    requires i < j <= |log|
    ensures Offset(log, i) + RecordSize(log[i]) <= Offset(log, j)
    decreases j
  {
    if i < j - 1 {
      OffsetMonotone(log, i, j - 1);
    }
  }

  lemma OffsetInjective(log: seq<Record>, i: nat, j: nat)
    requires i <= |log| && j <= |log| && Offset(log, i) == Offset(log, j)
    ensures i == j
  {
    if i < j {
      OffsetMonotone(log, i, j);
    } else if j < i {
      OffsetMonotone(log, j, i);
    }
  }

  /** Record `i` sits between offsets `i` and `i + 1`. */
  lemma {:induction false} RecordInImage(log: seq<Record>, i: nat)
    requires i < |log|
    ensures Offset(log, i) + RecordSize(log[i]) == Offset(log, i + 1) <= |LogBytes(log)|
    ensures LogBytes(log)[Offset(log, i)..Offset(log, i + 1)] == RecordBytes(log[i])
    decreases |log|
  {
    var n := |log| - 1;
    var front := log[..n];
    ImageLength(log);
    ImageLength(front);
    OffsetPrefix(log, n, n);
    assert LogBytes(log) == LogBytes(front) + RecordBytes(log[n]);
    if i < n {
      RecordInImage(front, i);
      OffsetPrefix(log, n, i);
      OffsetPrefix(log, n, i + 1);
      SliceOfFirst(LogBytes(front), RecordBytes(log[n]), Offset(log, i), Offset(log, i + 1));
    } else {
      SliceOfSecond(LogBytes(front), RecordBytes(log[n]));
    }
  }

  lemma SliceOfFirst(a: bytes, b: bytes, lo: nat, hi: nat)
    requires lo <= hi <= |a|
    ensures (a + b)[lo..hi] == a[lo..hi]
  {
  }

  lemma SliceOfSecond(a: bytes, b: bytes)
    ensures (a + b)[|a|..|a| + |b|] == b
  {
  }

  /** The image of the first records is the first part of the image. */
  lemma {:induction false} ImagePrefix(log: seq<Record>, i: nat)
    requires i <= |log|
    ensures LogBytes(log[..i]) <= LogBytes(log)
    decreases |log|
  {
    if i == |log| {
      assert log[..i] == log;
    } else {
      var front := log[..|log| - 1];
      ImagePrefix(front, i);
      assert front[..i] == log[..i];
    }
  }

  /** A file that starts with an image has the image of each prefix up to its offset. */
  lemma PrefixInFile(f: bytes, log: seq<Record>, n: nat)
    requires LogBytes(log) <= f && n <= |log|
    ensures Offset(log, n) <= |f| && f[..Offset(log, n)] == LogBytes(log[..n])
  {
    ImagePrefix(log, n);
    ImageLength(log[..n]);
    OffsetPrefix(log, n, n);
  }

  // ---------------------------------------------------------------- reading

  function KeyLenAt(f: bytes, x: nat): u32
    requires x + 4 <= |f|
  {
    UnLE32(f[x..x + 4])
  }

  function ValLenAt(f: bytes, x: nat): u32
    requires x + 8 <= |f|
  {
    UnLE32(f[x + 4..x + 8])
  }

  /** A uint32 sum, so it wraps. */
  function TotalLenAt(f: bytes, x: nat): u32
    requires x + 8 <= |f|
  {
    (KeyLenAt(f, x) + ValLenAt(f, x)) % TWO_32
  }

  /** The slices of `key` and `val` stay inside the file. */
  predicate Readable(f: bytes, x: nat) {
    && x + 8 <= |f|
    && KeyLenAt(f, x) <= TotalLenAt(f, x)
    && x + 8 + TotalLenAt(f, x) <= |f|
  }

  function KeyAt(f: bytes, x: nat): bytes
    requires Readable(f, x)
  {
    f[x + 8..x + 8 + KeyLenAt(f, x)]
  }

  function ValAt(f: bytes, x: nat): bytes
    requires Readable(f, x)
  {
    f[x + 8 + KeyLenAt(f, x)..x + 8 + TotalLenAt(f, x)]
  }

  /** The start of the record that ends at `x`, or -1 at the start of the file. */
  function PrevAt(f: bytes, x: nat): int
    requires x <= |f|
  {
    if x - 4 > 0 then x - 12 - UnLE32(f[x - 4..x]) else -1
  }

  lemma SubSlice(f: bytes, x: nat, s: bytes, lo: nat, hi: nat)
    requires x + |s| <= |f| && f[x..x + |s|] == s
    requires lo <= hi <= |s|
    ensures f[x + lo..x + hi] == s[lo..hi]
  {
    forall i | lo <= i < hi
      ensures f[x + i] == s[i]
    {
      assert f[x..x + |s|][i] == f[x + i];
    }
  }

  ghost predicate HasParts(s: bytes, r: Record)
    requires |s| == RecordSize(r)
  {
    var k, v := |r.key|, |r.val|;
    && s[0..4] == LE(k, 4)
    && s[4..8] == LE(v, 4)
    && s[8..8 + k] == r.key
    && s[8 + k..8 + k + v] == r.val
    && s[8 + k + v..8 + k + v + 4] == LE(k + v, 4)
  }

  lemma RecordParts(r: Record)
    ensures HasParts(RecordBytes(r), r)
  {
  }

  lemma ReadWord(f: bytes, x: nat, s: bytes, lo: nat, n: nat)
    requires x + |s| <= |f| && f[x..x + |s|] == s
    requires lo + 4 <= |s| && s[lo..lo + 4] == LE(n, 4) && n < TWO_32
    ensures UnLE32(f[x + lo..x + lo + 4]) == n
  {
    SubSlice(f, x, s, lo, lo + 4);
    Word32(n);
  }

  lemma ReadLengths(f: bytes, x: nat, s: bytes, r: Record)
    requires |r.key| + |r.val| < TWO_32 && |s| == RecordSize(r)
    requires x + |s| <= |f| && f[x..x + |s|] == s
    requires HasParts(s, r)
    ensures KeyLenAt(f, x) == |r.key| && ValLenAt(f, x) == |r.val|
  {
    ReadWord(f, x, s, 0, |r.key|);
    ReadWord(f, x, s, 4, |r.val|);
  }

  lemma SumOfLengths(f: bytes, x: nat, k: nat, v: nat)
    requires x + 8 <= |f| && KeyLenAt(f, x) == k && ValLenAt(f, x) == v && k + v < TWO_32
    ensures TotalLenAt(f, x) == k + v
  {
  }

  lemma ReadTrailer(f: bytes, x: nat, s: bytes, r: Record)
    requires |r.key| + |r.val| < TWO_32 && |s| == RecordSize(r)
    requires x + |s| <= |f| && f[x..x + |s|] == s
    requires HasParts(s, r)
    ensures PrevAt(f, x + |s|) == x
  {
    ReadWord(f, x, s, |s| - 4, |r.key| + |r.val|);
  }

  lemma ReadSlices(f: bytes, x: nat, s: bytes, r: Record)
    requires |s| == RecordSize(r) && x + |s| <= |f| && f[x..x + |s|] == s
    requires HasParts(s, r)
    requires KeyLenAt(f, x) == |r.key| && TotalLenAt(f, x) == |r.key| + |r.val|
    ensures Readable(f, x) && KeyAt(f, x) == r.key && ValAt(f, x) == r.val
  {
    var k, v := |r.key|, |r.val|;
    SubSlice(f, x, s, 8, 8 + k);
    SubSlice(f, x, s, 8 + k, 8 + k + v);
  }

  lemma ReadRecord(f: bytes, x: nat, s: bytes, r: Record)
    requires |f| <= TWO_32 && |s| == RecordSize(r)
    requires x + |s| <= |f| && f[x..x + |s|] == s
    requires HasParts(s, r)
    ensures Readable(f, x) && |s| == 12 + TotalLenAt(f, x)
    ensures KeyLenAt(f, x) == |r.key| && ValLenAt(f, x) == |r.val|
    ensures KeyAt(f, x) == r.key && ValAt(f, x) == r.val
    ensures PrevAt(f, x + |s|) == x
  {
    ReadLengths(f, x, s, r);
    SumOfLengths(f, x, |r.key|, |r.val|);
    ReadSlices(f, x, s, r);
    ReadTrailer(f, x, s, r);
  }

  lemma Image(f: bytes, log: seq<Record>, i: nat) returns (s: bytes)
    requires i < |log| && LogBytes(log) <= f
    ensures |s| == RecordSize(log[i]) && HasParts(s, log[i])
    ensures Offset(log, i + 1) == Offset(log, i) + |s| <= |LogBytes(log)|
    ensures f[Offset(log, i)..Offset(log, i) + |s|] == s
  {
    RecordInImage(log, i);
    RecordParts(log[i]);
    s := RecordBytes(log[i]);
    assert f[Offset(log, i)..Offset(log, i) + |s|] == LogBytes(log)[Offset(log, i)..Offset(log, i) + |s|];
  }

  /** Every record of an image can be read back, and `PrevAt` undoes the forward step. */
  lemma ReadBack(f: bytes, log: seq<Record>, i: nat)
    requires i < |log| && LogBytes(log) <= f && |f| <= TWO_32
    ensures var x := Offset(log, i);
      && Readable(f, x)
      && KeyLenAt(f, x) == |log[i].key|
      && ValLenAt(f, x) == |log[i].val|
      && TotalLenAt(f, x) == |log[i].key| + |log[i].val|
      && KeyAt(f, x) == log[i].key
      && ValAt(f, x) == log[i].val
      && Offset(log, i + 1) == x + 12 + |log[i].key| + |log[i].val| <= |LogBytes(log)|
      && PrevAt(f, Offset(log, i + 1)) == x
  {
    var x := Offset(log, i);
    var s := Image(f, log, i);
    ReadRecord(f, x, s, log[i]);
  }

  /** A trailer at `y` and the key length after it, read as one word. */
  lemma TombstoneWord(f: bytes, x: nat, y: nat)
    requires 0 < y && y + 8 <= |f| && PrevAt(f, y + 4) == x
    ensures UnLE64(f[y..y + 8]) == (y - 8 - x) + TWO_32 * KeyLenAt(f, y + 4)
  {
    var e := y + 4;
    WordSizes();
    UnLEConcat(f[y..e], f[e..e + 4]);
    assert f[y..y + 8] == f[y..e] + f[e..e + 4];
  }

  /** The key length that follows record `i`; after the log there are zeros. */
  function NextLen(log: seq<Record>, i: nat): nat
    requires i < |log|
  {
    if i + 1 < |log| then |log[i + 1].key| else 0
  }

  // ---------------------------------------------------------------- replay

  /** For each key whose last record is not a tombstone, the number of that record. */
  function LastPos(log: seq<Record>): map<bytes, nat> {
    if log == [] then map[]
    else
      var n := |log| - 1;
      var before := LastPos(log[..n]);
      if log[n].val == [] then before - {log[n].key} else before[log[n].key := n]
  }

  lemma LastPosAppend(log: seq<Record>, r: Record)
    ensures LastPos(log + [r]) ==
      if r.val == [] then LastPos(log) - {r.key} else LastPos(log)[r.key := |log|]
  {
    assert (log + [r])[..|log|] == log;
  }

  /** `LastPos` points at a pair of the key, and no later record names the key. */
  lemma {:induction false} LastPosIsLast(log: seq<Record>, k: bytes)
    requires k in LastPos(log)
    ensures LastPos(log)[k] < |log|
    ensures log[LastPos(log)[k]].key == k && log[LastPos(log)[k]].val != []
    ensures forall j :: LastPos(log)[k] < j < |log| ==> log[j].key != k
    decreases |log|
  {
    var n := |log| - 1;
    if log[n].key != k {
      LastPosIsLast(log[..n], k);
    }
  }

  /** The pairs that a replay of the log leaves. */
  function Fold(log: seq<Record>): map<bytes, bytes> {
    var last := LastPos(log);
    map k | k in last :: (LastPosIsLast(log, k); log[last[k]].val)
  }

  /**
    What every log written through the map operations satisfies: a value carries
    an 8-byte timestamp or is empty, and a tombstone buries a pair of the log.
   */
  ghost predicate WellFormed(log: seq<Record>) {
    forall i :: 0 <= i < |log| ==>
      if log[i].val == [] then log[i].key in LastPos(log[..i]) else |log[i].val| >= 8
  }

  lemma WellFormedAppend(log: seq<Record>, r: Record)
    requires WellFormed(log)
    requires if r.val == [] then r.key in LastPos(log) else |r.val| >= 8
    ensures WellFormed(log + [r])
  {
    var l := log + [r];
    forall i | 0 <= i < |l|
      ensures if l[i].val == [] then l[i].key in LastPos(l[..i]) else |l[i].val| >= 8
    {
      assert if i < |log| then l[..i] == log[..i] && l[i] == log[i] else l[..i] == log;
    }
  }
}
