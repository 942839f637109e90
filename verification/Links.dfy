/**
  How the hash index and the log describe one map: `pos` gives, for each live
  key, the number of its current record, and the live buckets are exactly the
  hashes and offsets of those records.
 */
module Links {
  import opened Bytes
  import opened Hashing
  import opened Records
  import opened Tables
  import opened HashMaps
  import opened Dictionary

  type Positions = map<bytes, nat>

  /** The bucket that indexes record `i`. */
  function BucketOf(log: seq<Record>, i: nat): Bucket
    requires i < |log|
  {
    Bucket(IndexHash(log[i].key), Offset(log, i))
  }

  /** The record at a boundary. */
  ghost function RecordNo(log: seq<Record>, x: nat): (i: nat)
    requires IsBoundary(log, x)
    ensures i < |log| && Offset(log, i) == x
  {
    var i :| 0 <= i < |log| && x == Offset(log, i);
    i
  }

  /** The key that the store holds where a bucket points. */
  ghost function KeyOf(log: seq<Record>, b: Bucket): bytes
    requires IsBoundary(log, b.index)
  {
    log[RecordNo(log, b.index)].key
  }

  /** Non-empty buckets, deleted ones included, point at record starts. */
  ghost predicate OnBoundaries(t: Table, log: seq<Record>) {
    forall b :: b in t && b.hash != EMPTY_BUCKET ==> IsBoundary(log, b.index)
  }

  /** `pos` names the last record of each live key, and it is a pair. */
  ghost predicate Current(log: seq<Record>, pos: Positions) {
    forall k :: k in pos ==>
      && pos[k] < |log|
      && log[pos[k]].key == k
      && |log[pos[k]].val| >= 8
      && k in LastPos(log)
      && LastPos(log)[k] == pos[k]
  }

  /** `b` is the bucket of the current record of `k`. */
  ghost predicate Owns(log: seq<Record>, pos: Positions, k: bytes, b: Bucket) {
    k in pos && pos[k] < |log| && b == BucketOf(log, pos[k])
  }

  /** Every live key has its bucket in the table. */
  ghost predicate Indexed(t: Table, log: seq<Record>, pos: Positions) {
    forall k :: k in pos ==> pos[k] < |log| && BucketOf(log, pos[k]) in t
  }

  /** Every live bucket belongs to a live key. */
  ghost predicate Owned(t: Table, log: seq<Record>, pos: Positions) {
    forall b :: b in t && Live(b) ==> exists k :: Owns(log, pos, k, b)
  }

  /** Record `i` is a pair at `x` that is not the current one of its key. */
  ghost predicate StaleAt(log: seq<Record>, pos: Positions, x: nat, i: nat) {
    && i < |log| && x == Offset(log, i) && |log[i].val| >= 8
    && !(log[i].key in pos && pos[log[i].key] == i)
  }

  /** Deleted buckets point at pairs that are no longer current. */
  ghost predicate Stale(t: Table, log: seq<Record>, pos: Positions) {
    forall b :: b in t && b.hash == DELETED_BUCKET ==> exists i :: StaleAt(log, pos, b.index, i)
  }

  ghost predicate Linked(t: Table, log: seq<Record>, pos: Positions) {
    && Current(log, pos)
    && OnBoundaries(t, log)
    && Stale(t, log, pos)
    && Indexed(t, log, pos)
    && Owned(t, log, pos)
  }

  /** The map that index and log stand for. */
  ghost function Contents(log: seq<Record>, pos: Positions): Dict
    requires Current(log, pos)
  {
    map k | k in pos :: log[pos[k]].val
  }

  lemma KeyOfRecord(log: seq<Record>, b: Bucket, i: nat)
    requires i < |log| && b.index == Offset(log, i)
    ensures IsBoundary(log, b.index) && RecordNo(log, b.index) == i && KeyOf(log, b) == log[i].key
  {
    OffsetInjective(log, RecordNo(log, b.index), i);
  }

  // ------------------------------------------------------------ counting

  /** The buckets of the current records of some keys. */
  ghost function BucketsOf(log: seq<Record>, pos: Positions, ks: set<bytes>): set<Bucket>
    requires forall k :: k in ks ==> k in pos && pos[k] < |log|
  {
    set k | k in ks :: BucketOf(log, pos[k])
  }

  lemma {:induction false} OneBucketPerKey(log: seq<Record>, pos: Positions, ks: set<bytes>)
    requires Current(log, pos) && ks <= pos.Keys
    ensures |BucketsOf(log, pos, ks)| == |ks|
  {
    if ks != {} {
      var k :| k in ks;
      OneBucketPerKey(log, pos, ks - {k});
      var b := BucketOf(log, pos[k]);
      forall k' | k' in ks - {k}
        ensures BucketOf(log, pos[k']) != b
      {
        OtherBucket(log, pos, k, k');
      }
      assert BucketsOf(log, pos, ks) == BucketsOf(log, pos, ks - {k}) + {b};
    }
  }

  lemma ContentsSize(log: seq<Record>, pos: Positions)
    requires Current(log, pos)
    ensures |Contents(log, pos)| == |pos.Keys|
  {
    assert Contents(log, pos).Keys == pos.Keys;
  }

  lemma LiveSetIsOwned(t: Table, log: seq<Record>, pos: Positions)
    requires Indexed(t, log, pos) && Owned(t, log, pos)
    ensures LiveSet(t) == BucketsOf(log, pos, pos.Keys)
  {
    forall b | b in LiveSet(t)
      ensures b in BucketsOf(log, pos, pos.Keys)
    {
      var k :| Owns(log, pos, k, b);
    }
  }

  /** There are as many live buckets as live keys. */
  lemma LiveKeys(t: Table, log: seq<Record>, pos: Positions)
    requires Linked(t, log, pos) && Distinct(t)
    ensures LiveCount(t) == |Contents(log, pos)|
  {
    LiveCountIsSize(t);
    LiveSetIsOwned(t, log, pos);
    OneBucketPerKey(log, pos, pos.Keys);
    ContentsSize(log, pos);
  }

  // ------------------------------------------------------------- lookups

  /** What a probe for hash `h` and key `key` looks for. */
  ghost predicate Matches(log: seq<Record>, b: Bucket, h: nat, key: bytes) {
    b.hash == h && h != EMPTY_BUCKET && IsBoundary(log, b.index) && KeyOf(log, b) == key
  }

  /** The probe from the home of `h` passed no empty and no matching slot before `i`. */
  ghost predicate Searched(t: Table, log: seq<Record>, h: nat, key: bytes, i: nat)
    requires i < |t|
  {
    forall q :: 0 <= q < |t| && Dist(Home(h, |t|), q, |t|) < Dist(Home(h, |t|), i, |t|) ==>
      t[q].hash != EMPTY_BUCKET && !Matches(log, t[q], h, key)
  }

  lemma SearchedUnbroken(t: Table, log: seq<Record>, h: nat, key: bytes, i: nat)
    requires i < |t| && Searched(t, log, h, key, i)
    ensures Unbroken(t, Home(h, |t|), i)
  {
  }

  lemma SearchStep(t: Table, log: seq<Record>, h: nat, key: bytes, i: nat, e: nat)
    requires i < |t| && e < |t| && t[e].hash == EMPTY_BUCKET
    requires Searched(t, log, h, key, i) && t[i].hash != EMPTY_BUCKET && !Matches(log, t[i], h, key)
    requires Dist(Home(h, |t|), i, |t|) <= Dist(Home(h, |t|), e, |t|)
    ensures var i', home := NextSlot(i, |t|), Home(h, |t|);
      && Dist(home, i', |t|) == Dist(home, i, |t|) + 1 <= Dist(home, e, |t|)
      && Searched(t, log, h, key, i')
  {
    var i', home := NextSlot(i, |t|), Home(h, |t|);
    SearchedUnbroken(t, log, h, key, i);
    ProbeStep(t, home, i, e);
    forall q | 0 <= q < |t| && Dist(home, q, |t|) < Dist(home, i', |t|)
      ensures t[q].hash != EMPTY_BUCKET && !Matches(log, t[q], h, key)
    {
      assert q == i || Dist(home, q, |t|) < Dist(home, i, |t|);
    }
  }

  /** A matching live bucket is the bucket of the key's current record. */
  lemma HitIsCurrent(t: Table, log: seq<Record>, pos: Positions, key: bytes, i: nat)
    requires Linked(t, log, pos) && i < |t| && Matches(log, t[i], IndexHash(key), key)
    ensures key in pos && t[i] == BucketOf(log, pos[key])
  {
    var b := t[i];
    assert b in t && Live(b);
    var k :| Owns(log, pos, k, b);
    KeyOfRecord(log, b, pos[k]);
  }

  /** A search that ends at an empty slot proves the key absent. */
  lemma MissIsAbsent(t: Table, log: seq<Record>, pos: Positions, key: bytes, i: nat)
    requires Linked(t, log, pos) && Chained(t) && i < |t|
    requires Searched(t, log, IndexHash(key), key, i) && t[i].hash == EMPTY_BUCKET
    ensures key !in pos
  {
    if key in pos {
      var b := BucketOf(log, pos[key]);
      var p :| 0 <= p < |t| && t[p] == b;
      KeyOfRecord(log, b, pos[key]);
      ProbeReaches(t, p, i);
      assert Matches(log, t[p], IndexHash(key), key);
      assert false;
    }
  }

  // ------------------------------------------------------------- updates

  /** The end of the log is not yet the start of a record. */
  lemma EndIsFree(t: Table, log: seq<Record>)
    requires OnBoundaries(t, log)
    ensures NoIndex(t, Offset(log, |log|))
  {
    forall b | b in t && Live(b)
      ensures b.index != Offset(log, |log|)
    {
      OffsetMonotone(log, RecordNo(log, b.index), |log|);
    }
  }

  /** Appending a record moves no earlier bucket. */
  lemma BucketsStay(log: seq<Record>, r: Record)
    ensures forall i :: 0 <= i < |log| ==> BucketOf(log + [r], i) == BucketOf(log, i)
  {
    forall i | 0 <= i < |log|
      ensures BucketOf(log + [r], i) == BucketOf(log, i)
    {
      OffsetAppend(log, r, i);
    }
  }

  lemma BoundariesStay(t: Table, log: seq<Record>, r: Record)
    requires OnBoundaries(t, log)
    ensures OnBoundaries(t, log + [r])
  {
    forall b | b in t && b.hash != EMPTY_BUCKET
      ensures IsBoundary(log + [r], b.index)
    {
      var i := RecordNo(log, b.index);
      OffsetAppend(log, r, i);
    }
  }

  /** The current bucket of another key differs from that of `k`. */
  lemma OtherBucket(log: seq<Record>, pos: Positions, k: bytes, k': bytes)
    requires Current(log, pos) && k in pos && k' in pos && k != k'
    ensures BucketOf(log, pos[k]) != BucketOf(log, pos[k'])
  {
    if Offset(log, pos[k]) == Offset(log, pos[k']) {
      OffsetInjective(log, pos[k], pos[k']);
    }
  }

  lemma CurrentAfterPut(log: seq<Record>, pos: Positions, k: bytes, v: bytes)
    requires Current(log, pos) && |v| >= 8
    ensures Current(log + [Record(k, v)], pos[k := |log|])
  {
    LastPosAppend(log, Record(k, v));
  }

  lemma CurrentPut(log: seq<Record>, pos: Positions, k: bytes, v: bytes)
    requires Current(log, pos) && |v| >= 8
    ensures Current(log + [Record(k, v)], pos[k := |log|])
    ensures Contents(log + [Record(k, v)], pos[k := |log|]) == Contents(log, pos)[k := v]
  {
    CurrentAfterPut(log, pos, k, v);
    var log', pos' := log + [Record(k, v)], pos[k := |log|];
    forall x | x in pos'
      ensures log'[pos'[x]].val == Contents(log, pos)[k := v][x]
    {
      assert x != k ==> log'[pos[x]] == log[pos[x]];
    }
    assert Contents(log', pos').Keys == Contents(log, pos)[k := v].Keys;
  }

  /** Slot `i` is where a write of `k` goes: its own bucket, or an empty slot if absent. */
  ghost predicate Slot(t: Table, log: seq<Record>, pos: Positions, k: bytes, i: nat) {
    && i < |t| && Current(log, pos)
    && if k in pos then t[i] == BucketOf(log, pos[k]) else t[i].hash == EMPTY_BUCKET
  }

  /** Live buckets that a write of `k` does not touch belong to the other keys. */
  lemma OtherOwner(t: Table, log: seq<Record>, pos: Positions, k: bytes, i: nat, p: nat) returns (k': bytes)
    requires Linked(t, log, pos) && Distinct(t) && Slot(t, log, pos, k, i)
    requires p < |t| && p != i && Live(t[p])
    ensures Owns(log, pos, k', t[p]) && k' != k
  {
    assert t[p] in t;
    k' :| Owns(log, pos, k', t[p]);
  }

  /** The slots of the other keys are not the slot of `k`. */
  lemma OtherSlot(t: Table, log: seq<Record>, pos: Positions, k: bytes, i: nat, k': bytes) returns (p: nat)
    requires Linked(t, log, pos) && Slot(t, log, pos, k, i) && k' in pos && k' != k
    ensures p < |t| && p != i && t[p] == BucketOf(log, pos[k'])
  {
    p :| 0 <= p < |t| && t[p] == BucketOf(log, pos[k']);
    if k in pos {
      OtherBucket(log, pos, k, k');
    }
  }

  /** Writing a pair: append its record and aim the bucket of its key at it. */
  lemma LinkedPut(t: Table, log: seq<Record>, pos: Positions, k: bytes, v: bytes, i: nat)
    requires Linked(t, log, pos) && Distinct(t) && Slot(t, log, pos, k, i) && |v| >= 8
    ensures var log' := log + [Record(k, v)];
      Linked(t[i := BucketOf(log', |log|)], log', pos[k := |log|])
  {
    CurrentPut(log, pos, k, v);
    BoundariesPut(t, log, Record(k, v), i);
    StalePut(t, log, pos, k, v, i);
    IndexedPut(t, log, pos, k, v, i);
    OwnedPut(t, log, pos, k, v, i);
  }

  lemma BoundariesPut(t: Table, log: seq<Record>, r: Record, i: nat)
    requires OnBoundaries(t, log) && i < |t|
    ensures OnBoundaries(t[i := BucketOf(log + [r], |log|)], log + [r])
  {
    BoundariesStay(t, log, r);
    KeyOfRecord(log + [r], BucketOf(log + [r], |log|), |log|);
  }

  /** A later record makes no stale pair current. */
  lemma StaleStays(log: seq<Record>, pos: Positions, pos': Positions, r: Record, x: nat, i: nat)
    requires StaleAt(log, pos, x, i)
    requires forall k :: k in pos' ==> pos'[k] == |log| || (k in pos && pos'[k] == pos[k])
    ensures StaleAt(log + [r], pos', x, i)
  {
    OffsetAppend(log, r, i);
  }

  lemma StalePut(t: Table, log: seq<Record>, pos: Positions, k: bytes, v: bytes, i: nat)
    requires Stale(t, log, pos) && i < |t|
    ensures var log' := log + [Record(k, v)]; Stale(t[i := BucketOf(log', |log|)], log', pos[k := |log|])
  {
    var r, pos' := Record(k, v), pos[k := |log|];
    var t' := t[i := BucketOf(log + [r], |log|)];
    forall b | b in t' && b.hash == DELETED_BUCKET
      ensures exists j :: StaleAt(log + [r], pos', b.index, j)
    {
      assert b in t;
      var j :| StaleAt(log, pos, b.index, j);
      StaleStays(log, pos, pos', r, b.index, j);
    }
  }

  lemma StaleErase(t: Table, log: seq<Record>, pos: Positions, k: bytes, i: nat)
    requires Stale(t, log, pos) && Current(log, pos) && Slot(t, log, pos, k, i) && k in pos
    ensures Stale(t[i := Bucket(DELETED_BUCKET, t[i].index)], log, pos - {k})
  {
    var t', pos' := t[i := Bucket(DELETED_BUCKET, t[i].index)], pos - {k};
    forall b | b in t' && b.hash == DELETED_BUCKET
      ensures exists j :: StaleAt(log, pos', b.index, j)
    {
      if b == Bucket(DELETED_BUCKET, t[i].index) {
        assert StaleAt(log, pos', b.index, pos[k]);
      } else {
        assert b in t;
        var j :| StaleAt(log, pos, b.index, j);
        assert StaleAt(log, pos', b.index, j);
      }
    }
  }

  lemma StaleTombstone(t: Table, log: seq<Record>, pos: Positions, k: bytes)
    requires Stale(t, log, pos)
    ensures Stale(t, log + [Record(k, [])], pos)
  {
    forall b | b in t && b.hash == DELETED_BUCKET
      ensures exists j :: StaleAt(log + [Record(k, [])], pos, b.index, j)
    {
      var j :| StaleAt(log, pos, b.index, j);
      StaleStays(log, pos, pos, Record(k, []), b.index, j);
    }
  }

  lemma IndexedPut(t: Table, log: seq<Record>, pos: Positions, k: bytes, v: bytes, i: nat)
    requires Linked(t, log, pos) && Slot(t, log, pos, k, i)
    ensures var log' := log + [Record(k, v)];
      Indexed(t[i := BucketOf(log', |log|)], log', pos[k := |log|])
  {
    var log', pos' := log + [Record(k, v)], pos[k := |log|];
    var t' := t[i := BucketOf(log', |log|)];
    forall k' | k' in pos'
      ensures pos'[k'] < |log'| && BucketOf(log', pos'[k']) in t'
    {
      if k' != k {
        var p := OtherSlot(t, log, pos, k, i, k');
        OffsetAppend(log, Record(k, v), pos[k']);
        assert t'[p] == t[p];
      } else {
        assert t'[i] == BucketOf(log', |log|);
      }
    }
  }

  lemma OwnedPut(t: Table, log: seq<Record>, pos: Positions, k: bytes, v: bytes, i: nat)
    requires Linked(t, log, pos) && Distinct(t) && Slot(t, log, pos, k, i)
    ensures var log' := log + [Record(k, v)];
      Owned(t[i := BucketOf(log', |log|)], log', pos[k := |log|])
  {
    var log', pos' := log + [Record(k, v)], pos[k := |log|];
    var t' := t[i := BucketOf(log', |log|)];
    forall b | b in t' && Live(b)
      ensures exists k' :: Owns(log', pos', k', b)
    {
      var p :| 0 <= p < |t'| && t'[p] == b;
      if p == i {
        assert Owns(log', pos', k, b);
      } else {
        var k' := OtherOwner(t, log, pos, k, i, p);
        OffsetAppend(log, Record(k, v), pos[k']);
        assert Owns(log', pos', k', b);
      }
    }
  }

  lemma CurrentDrop(log: seq<Record>, pos: Positions, k: bytes)
    requires Current(log, pos)
    ensures Current(log, pos - {k})
    ensures Contents(log, pos - {k}) == Contents(log, pos) - {k}
  {
  }

  lemma IndexedErase(t: Table, log: seq<Record>, pos: Positions, k: bytes, i: nat, b: Bucket)
    requires Linked(t, log, pos) && Slot(t, log, pos, k, i)
    ensures Indexed(t[i := b], log, pos - {k})
  {
    var t', pos' := t[i := b], pos - {k};
    forall k' | k' in pos'
      ensures pos'[k'] < |log| && BucketOf(log, pos'[k']) in t'
    {
      var p := OtherSlot(t, log, pos, k, i, k');
      assert t'[p] == t[p];
    }
  }

  lemma OwnedErase(t: Table, log: seq<Record>, pos: Positions, k: bytes, i: nat, b: Bucket)
    requires Linked(t, log, pos) && Distinct(t) && Slot(t, log, pos, k, i) && !Live(b)
    ensures Owned(t[i := b], log, pos - {k})
  {
    var t', pos' := t[i := b], pos - {k};
    forall x | x in t' && Live(x)
      ensures exists k' :: Owns(log, pos', k', x)
    {
      var p :| 0 <= p < |t'| && t'[p] == x;
      var k' := OtherOwner(t, log, pos, k, i, p);
      assert Owns(log, pos', k', x);
    }
  }

  /** Lazy deletion of a key's bucket. */
  lemma LinkedErase(t: Table, log: seq<Record>, pos: Positions, k: bytes, i: nat)
    requires Linked(t, log, pos) && Distinct(t) && Slot(t, log, pos, k, i) && k in pos
    ensures Linked(t[i := Bucket(DELETED_BUCKET, t[i].index)], log, pos - {k})
  {
    var b := Bucket(DELETED_BUCKET, t[i].index);
    CurrentDrop(log, pos, k);
    StaleErase(t, log, pos, k, i);
    IndexedErase(t, log, pos, k, i, b);
    OwnedErase(t, log, pos, k, i, b);
    assert t[i] in t && t[i].hash != EMPTY_BUCKET;
  }

  /** A tombstone of a key that is not live changes no link. */
  lemma LinkedTombstone(t: Table, log: seq<Record>, pos: Positions, k: bytes)
    requires Linked(t, log, pos) && k !in pos
    ensures Linked(t, log + [Record(k, [])], pos)
    ensures Contents(log + [Record(k, [])], pos) == Contents(log, pos)
  {
    var r := Record(k, []);
    BoundariesStay(t, log, r);
    CurrentTombstone(log, pos, k);
    StaleTombstone(t, log, pos, k);
    LinksStay(t, log, pos, r);
  }

  lemma CurrentTombstone(log: seq<Record>, pos: Positions, k: bytes)
    requires Current(log, pos) && k !in pos
    ensures Current(log + [Record(k, [])], pos)
    ensures Contents(log + [Record(k, [])], pos) == Contents(log, pos)
  {
    LastPosAppend(log, Record(k, []));
  }

  lemma LinksStay(t: Table, log: seq<Record>, pos: Positions, r: Record)
    requires Indexed(t, log, pos) && Owned(t, log, pos)
    ensures Indexed(t, log + [r], pos) && Owned(t, log + [r], pos)
  {
    BucketsStay(log, r);
    forall b | b in t && Live(b)
      ensures exists k :: Owns(log + [r], pos, k, b)
    {
      var k :| Owns(log, pos, k, b);
      assert Owns(log + [r], pos, k, b);
    }
  }

  /** An expanded table is linked to the same log in the same way. */
  lemma LinkedMirror(t: Table, t': Table, log: seq<Record>, pos: Positions)
    requires Linked(t, log, pos) && Mirrors(t', t)
    ensures Linked(t', log, pos)
  {
    forall b | b in t' && b.hash != EMPTY_BUCKET
      ensures IsBoundary(log, b.index)
    {
      assert Live(b) && b in t;
    }
    forall k | k in pos
      ensures BucketOf(log, pos[k]) in t'
    {
      assert Live(BucketOf(log, pos[k]));
    }
    forall b | b in t' && Live(b)
      ensures exists k :: Owns(log, pos, k, b)
    {
      assert b in t;
    }
  }
}

/** The representation invariant of the map, as a relation between values. */
module Representation {
  import opened Bytes
  import Hashing
  import opened Records
  import opened Tables
  import opened HashMaps
  import opened Dictionary
  import opened Links

  datatype Image = Image(t: Table, log: seq<Record>, pos: Positions, m: Dict, deleted: nat, length: nat)

  /**
    Index `t` and `log` stand for the map `m`, whose live keys have their current
    records at `pos`; the log only has well-formed records; and of its `length`
    bytes no more are counted as deleted than are not live.
   */
  ghost predicate Described(s: Image) {
    && Linked(s.t, s.log, s.pos)
    && WellFormed(s.log)
    && s.m == Contents(s.log, s.pos)
    && s.deleted + LiveBytes(s.m) <= s.length
  }

  /** Names an image whose description a proof wants to see; see `Open` and `Close`. */
  ghost predicate Inspected(s: Image) {
    true
  }

  /** The same as `Described`, but instantiated only for inspected images. */
  ghost predicate Represents(s: Image) {
    forall x: Image {:trigger Inspected(x)} :: Inspected(x) && x == s ==> Described(x)
  }

  lemma Open(s: Image)
    requires Represents(s)
    ensures Described(s)
  {
    assert Inspected(s);
  }

  lemma Close(s: Image)
    requires Described(s)
    ensures Represents(s)
  {
  }

  lemma EmptyRepresents(t: Table)
    requires forall b :: b in t ==> b.hash == EMPTY_BUCKET
    ensures Represents(Image(t, [], map[], map[], 0, 0))
  {
    Close(Image(t, [], map[], map[], 0, 0));
  }

  /** The image after appending the pair `k`, `v` and aiming slot `i` at it. */
  ghost function AfterPut(s: Image, k: bytes, v: bytes, i: nat): Image
    requires i < |s.t|
  {
    Image(s.t[i := Bucket(Hashing.IndexHash(k), s.length)], s.log + [Record(k, v)],
          s.pos[k := |s.log|], s.m[k := v], s.deleted, s.length + PairSize(k, v))
  }

  lemma PutRepresents(s: Image, k: bytes, v: bytes, i: nat)
    requires Represents(s) && Probing(s.t) && Slot(s.t, s.log, s.pos, k, i) && |v| >= 8
    requires s.length == Offset(s.log, |s.log|)
    ensures NoIndex(s.t, s.length)
    ensures Represents(AfterPut(s, k, v, i))
    ensures s.pos == LastPos(s.log) ==> s.pos[k := |s.log|] == LastPos(s.log + [Record(k, v)])
  {
    Open(s);
    OpenProbing(s.t);
    EndIsFree(s.t, s.log);
    OffsetAppend(s.log, Record(k, v), |s.log|);
    CurrentPut(s.log, s.pos, k, v);
    LinkedPut(s.t, s.log, s.pos, k, v, i);
    WellFormedAppend(s.log, Record(k, v));
    LiveBytesPut(s.m, k, v);
    LastPosAppend(s.log, Record(k, v));
    Close(AfterPut(s, k, v, i));
  }

  /** Lazy deletion: the bytes of the pair move from live to deleted. */
  ghost function AfterErase(s: Image, k: bytes, i: nat): Image
    requires i < |s.t| && k in s.m
  {
    Image(s.t[i := Bucket(DELETED_BUCKET, s.t[i].index)], s.log, s.pos - {k}, s.m - {k},
          s.deleted + PairSize(k, s.m[k]), s.length)
  }

  lemma EraseRepresents(s: Image, k: bytes, i: nat)
    requires Represents(s) && Probing(s.t) && Slot(s.t, s.log, s.pos, k, i) && k in s.pos
    ensures k in s.m && Represents(AfterErase(s, k, i)) && k in LastPos(s.log)
  {
    Open(s);
    OpenProbing(s.t);
    CurrentDrop(s.log, s.pos, k);
    LinkedErase(s.t, s.log, s.pos, k, i);
    LiveBytesRemove(s.m, k);
    Close(AfterErase(s, k, i));
  }

  ghost function AfterTombstone(s: Image, k: bytes): Image {
    s.(log := s.log + [Record(k, [])], length := s.length + PairSize(k, []))
  }

  lemma TombstoneRepresents(s: Image, k: bytes)
    requires Represents(s) && k !in s.pos && k in LastPos(s.log)
    ensures Represents(AfterTombstone(s, k))
    ensures s.pos == LastPos(s.log) - {k} ==> s.pos == LastPos(s.log + [Record(k, [])])
  {
    Open(s);
    LinkedTombstone(s.t, s.log, s.pos, k);
    WellFormedAppend(s.log, Record(k, []));
    LastPosAppend(s.log, Record(k, []));
    Close(AfterTombstone(s, k));
  }

  lemma MirrorRepresents(s: Image, t: Table)
    requires Represents(s) && Mirrors(t, s.t)
    ensures Represents(s.(t := t))
  {
    Open(s);
    LinkedMirror(s.t, t, s.log, s.pos);
    Close(s.(t := t));
  }

  /** The slot of a live key holds its hash and leads to its value. */
  lemma SlotLeads(s: Image, k: bytes, i: nat)
    requires Represents(s) && Slot(s.t, s.log, s.pos, k, i)
    ensures k in s.pos <==> k in s.m
    ensures k in s.pos ==>
      && s.t[i].hash == Hashing.IndexHash(k) && s.t[i] in s.t
      && IsBoundary(s.log, s.t[i].index)
      && s.log[RecordNo(s.log, s.t[i].index)].val == s.m[k]
      && |s.m[k]| >= 8
  {
    Open(s);
    if k in s.pos {
      KeyOfRecord(s.log, s.t[i], s.pos[k]);
    }
  }

  /** Where a probe with the right hash stops tells whether the key is live. */
  lemma StopDecides(s: Image, k: bytes, i: nat)
    requires Represents(s) && Probing(s.t) && i < |s.t|
    requires Searched(s.t, s.log, Hashing.IndexHash(k), k, i)
    requires s.t[i].hash == EMPTY_BUCKET || Matches(s.log, s.t[i], Hashing.IndexHash(k), k)
    ensures Slot(s.t, s.log, s.pos, k, i)
    ensures k in s.pos <==> s.t[i].hash != EMPTY_BUCKET
  {
    Open(s);
    OpenProbing(s.t);
    if s.t[i].hash == EMPTY_BUCKET {
      MissIsAbsent(s.t, s.log, s.pos, k, i);
    } else {
      HitIsCurrent(s.t, s.log, s.pos, k, i);
    }
  }

  /** The table has as many live buckets as the map has pairs. */
  lemma LiveBuckets(s: Image)
    requires Represents(s) && Probing(s.t)
    ensures LiveCount(s.t) == |s.m|
  {
    Open(s);
    OpenProbing(s.t);
    LiveKeys(s.t, s.log, s.pos);
  }

  lemma PointsAtRecord(s: Image, b: Bucket)
    requires Represents(s) && b in s.t && b.hash != EMPTY_BUCKET
    ensures IsBoundary(s.log, b.index)
  {
    Open(s);
  }

  /** Every byte of the log is either live or counted as deleted. */
  ghost predicate Tight(s: Image) {
    s.deleted + LiveBytes(s.m) == s.length
  }

  /** Count `n` more bytes as deleted. */
  lemma MoreDeleted(s: Image, n: nat)
    requires Represents(s) && s.deleted + n + LiveBytes(s.m) <= s.length
    ensures Represents(s.(deleted := s.deleted + n))
  {
    Open(s);
    Close(s.(deleted := s.deleted + n));
  }

  /** The image after replaying the record of `k` and `v` that the file already holds. */
  ghost function AfterReplay(s: Image, k: bytes, v: bytes, i: nat): Image
    requires i < |s.t| && (v == [] ==> k in s.m)
  {
    if v == [] then
      var e := AfterTombstone(AfterErase(s, k, i), k);
      e.(deleted := e.deleted + PairSize(k, []))
    else
      var p := AfterPut(s, k, v, i);
      p.(deleted := p.deleted + if k in s.m then PairSize(k, s.m[k]) else 0)
  }

  lemma ReplayRepresents(s: Image, k: bytes, v: bytes, i: nat)
    requires Represents(s) && Tight(s) && s.pos == LastPos(s.log)
    requires Probing(s.t) && Slot(s.t, s.log, s.pos, k, i)
    requires s.length == Offset(s.log, |s.log|)
    requires if v == [] then k in s.pos else |v| >= 8
    ensures NoIndex(s.t, s.length) && (v == [] ==> k in s.m)
    ensures var s' := AfterReplay(s, k, v, i);
      Represents(s') && Tight(s') && s'.pos == LastPos(s'.log)
  {
    SlotLeads(s, k, i);
    if v == [] {
      EraseRepresents(s, k, i);
      var e := AfterErase(s, k, i);
      TombstoneRepresents(e, k);
      LiveBytesRemove(s.m, k);
      MoreDeleted(AfterTombstone(e, k), PairSize(k, []));
      NoIndexBeyond(s);
    } else {
      PutRepresents(s, k, v, i);
      LiveBytesPut(s.m, k, v);
      MoreDeleted(AfterPut(s, k, v, i), if k in s.m then PairSize(k, s.m[k]) else 0);
    }
  }

  lemma NoIndexBeyond(s: Image)
    requires Represents(s) && s.length == Offset(s.log, |s.log|)
    ensures NoIndex(s.t, s.length)
  {
    Open(s);
    EndIsFree(s.t, s.log);
  }

  /** When `pos` is what a replay gives, so is the map. */
  lemma FoldIsContents(s: Image)
    requires Represents(s) && s.pos == LastPos(s.log)
    ensures s.m == Fold(s.log)
  {
    Open(s);
  }
}
