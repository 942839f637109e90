/**
  What Get sees of an index: it probes with the hash as it is, so a key whose hash Set
  remaps is looked up elsewhere, and hash 1 is the mark of deleted buckets.
 */
module Views {
  import opened Bytes
  import opened Guards
  import opened Hashing
  import opened Records
  import opened Tables
  import opened Links
  import opened Representation
  import MapSums

  /** The probe of Get for key `k` stops at slot `p`. */
  ghost predicate Finds(t: Table, log: seq<Record>, k: bytes, p: nat) {
    && p < |t|
    && Matches(log, t[p], Low32(FNV1a64(k)), k)
    && Searched(t, log, Low32(FNV1a64(k)), k, p)
  }

  ghost predicate Seen(t: Table, log: seq<Record>, k: bytes) {
    exists p :: Finds(t, log, k, p)
  }

  ghost function SlotSeen(t: Table, log: seq<Record>, k: bytes): (p: nat)
    requires Seen(t, log, k)
    ensures Finds(t, log, k, p)
  {
    var p :| Finds(t, log, k, p);
    p
  }

  ghost function RecordSeen(t: Table, log: seq<Record>, k: bytes): (i: nat)
    requires Seen(t, log, k)
    ensures i < |log| && log[i].key == k
  {
    RecordNo(log, t[SlotSeen(t, log, k)].index)
  }

  ghost function KeysOf(log: seq<Record>): set<bytes> {
    set r | r in log :: r.key
  }

  /** For each key that Get finds, the record it reads. */
  ghost function View(t: Table, log: seq<Record>): Positions {
    map k | k in KeysOf(log) && Seen(t, log, k) :: RecordSeen(t, log, k)
  }

  ghost predicate IsView(v: Positions, t: Table, log: seq<Record>) {
    forall n: int {:trigger Asked(n)} :: Asked(n) ==> v == View(t, log)
  }

  /** The same as `View`, but unfolded only where a proof asks for it. */
  ghost function Sight(t: Table, log: seq<Record>): (v: Positions)
    ensures IsView(v, t, log)
  {
    assert IsView(View(t, log), t, log);
    var v :| IsView(v, t, log);
    v
  }

  lemma SightIsView(t: Table, log: seq<Record>)
    ensures Sight(t, log) == View(t, log)
  {
    assert Asked(0);
  }

  lemma FindsUnique(t: Table, log: seq<Record>, k: bytes, p: nat, q: nat)
    requires Finds(t, log, k, p) && Finds(t, log, k, q)
    ensures p == q
  {
    var home := Home(Low32(FNV1a64(k)), |t|);
    assert Dist(home, p, |t|) == Dist(home, q, |t|);
  }

  lemma InView(t: Table, log: seq<Record>, k: bytes)
    ensures k in View(t, log) <==> Seen(t, log, k)
  {
    if Seen(t, log, k) {
      assert log[RecordSeen(t, log, k)] in log;
    }
  }

  lemma ViewAt(t: Table, log: seq<Record>, k: bytes, p: nat)
    requires Finds(t, log, k, p)
    ensures k in View(t, log) && View(t, log)[k] == RecordNo(log, t[p].index)
  {
    InView(t, log, k);
    FindsUnique(t, log, k, p, SlotSeen(t, log, k));
  }

  /** No probe passes over a match to an empty slot. */
  lemma NotPassed(t: Table, log: seq<Record>, k: bytes, e: nat, p: nat)
    requires e < |t| && t[e].hash == EMPTY_BUCKET && Finds(t, log, k, p)
    ensures !Searched(t, log, Low32(FNV1a64(k)), k, e)
  {
    var home := Home(Low32(FNV1a64(k)), |t|);
    assert t[p].hash != EMPTY_BUCKET && p != e;
    assert Dist(home, p, |t|) < Dist(home, e, |t|);
  }

  lemma ViewNone(t: Table, log: seq<Record>, k: bytes, e: nat)
    requires e < |t| && t[e].hash == EMPTY_BUCKET && Searched(t, log, Low32(FNV1a64(k)), k, e)
    ensures k !in View(t, log)
  {
    InView(t, log, k);
    if Seen(t, log, k) {
      NotPassed(t, log, k, e, SlotSeen(t, log, k));
    }
  }

  /** Where there is a match behind filled slots, there is a first one. */
  lemma {:induction false} FirstMatch(t: Table, log: seq<Record>, k: bytes, p: nat)
    requires p < |t| && Matches(log, t[p], Low32(FNV1a64(k)), k)
    requires Unbroken(t, Home(Low32(FNV1a64(k)), |t|), p)
    ensures Seen(t, log, k)
    decreases Dist(Home(Low32(FNV1a64(k)), |t|), p, |t|)
  {
    var h := Low32(FNV1a64(k));
    if Searched(t, log, h, k, p) {
      assert Finds(t, log, k, p);
    } else {
      var q :| 0 <= q < |t| && Dist(Home(h, |t|), q, |t|) < Dist(Home(h, |t|), p, |t|)
        && (t[q].hash == EMPTY_BUCKET || Matches(log, t[q], h, k));
      FirstMatch(t, log, k, q);
    }
  }

  /** A match that can be reached over filled slots. */
  ghost predicate Reachable(t: Table, log: seq<Record>, k: bytes, p: nat) {
    && p < |t|
    && Matches(log, t[p], Low32(FNV1a64(k)), k)
    && Unbroken(t, Home(Low32(FNV1a64(k)), |t|), p)
  }

  /** Get finds a key exactly when there is one. */
  lemma SeenExact(t: Table, log: seq<Record>, k: bytes)
    ensures k in View(t, log) <==> exists p :: Reachable(t, log, k, p)
  {
    InView(t, log, k);
    if Seen(t, log, k) {
      var p := SlotSeen(t, log, k);
      SearchedUnbroken(t, log, Low32(FNV1a64(k)), k, p);
      assert Reachable(t, log, k, p);
    }
    if p :| Reachable(t, log, k, p) {
      FirstMatch(t, log, k, p);
    }
  }

  // --------------------------------------------------- by kind of hash

  /** The slot of a live plain key is the first match. */
  lemma LiveSlotFound(t: Table, log: seq<Record>, pos: Positions, k: bytes) returns (p: nat)
    requires Linked(t, log, pos) && Chained(t) && Distinct(t) && PlainKey(k) && k in pos
    ensures Finds(t, log, k, p) && t[p] == BucketOf(log, pos[k])
  {
    var b := BucketOf(log, pos[k]);
    p :| 0 <= p < |t| && t[p] == b;
    KeyOfRecord(log, b, pos[k]);
    assert Unbroken(t, Home(b.hash, |t|), p);
    forall q | 0 <= q < |t| && Dist(Home(b.hash, |t|), q, |t|) < Dist(Home(b.hash, |t|), p, |t|)
      ensures !Matches(log, t[q], b.hash, k)
    {
      if Matches(log, t[q], b.hash, k) {
        HitIsCurrent(t, log, pos, k, q);
      }
    }
  }

  /** For a plain key Get sees the map. */
  lemma PlainView(s: Image, k: bytes)
    requires Represents(s) && Probing(s.t) && PlainKey(k)
    ensures k in View(s.t, s.log) <==> k in s.pos
    ensures k in s.pos ==> View(s.t, s.log)[k] == s.pos[k]
  {
    Open(s);
    OpenProbing(s.t);
    if k in s.pos {
      var p := LiveSlotFound(s.t, s.log, s.pos, k);
      ViewAt(s.t, s.log, k, p);
      KeyOfRecord(s.log, s.t[p], s.pos[k]);
    }
    InView(s.t, s.log, k);
    if Seen(s.t, s.log, k) {
      HitIsCurrent(s.t, s.log, s.pos, k, SlotSeen(s.t, s.log, k));
    }
  }

  lemma ZeroView(t: Table, log: seq<Record>, k: bytes)
    requires Low32(FNV1a64(k)) == 0
    ensures k !in View(t, log)
  {
    InView(t, log, k);
  }

  /** For a remapped key Get can only meet a deleted bucket and see a pair that is gone. */
  lemma RemappedView(s: Image, k: bytes)
    requires Represents(s) && !PlainKey(k) && k in View(s.t, s.log)
    ensures Low32(FNV1a64(k)) == 1
    ensures StaleAt(s.log, s.pos, Offset(s.log, View(s.t, s.log)[k]), View(s.t, s.log)[k])
    ensures exists b :: b in s.t && b.hash == DELETED_BUCKET
  {
    if Low32(FNV1a64(k)) == 0 {
      ZeroView(s.t, s.log, k);
    }
    Open(s);
    InView(s.t, s.log, k);
    var p := SlotSeen(s.t, s.log, k);
    ViewAt(s.t, s.log, k, p);
    assert s.t[p] in s.t;
    var i :| StaleAt(s.log, s.pos, s.t[p].index, i);
    KeyOfRecord(s.log, s.t[p], i);
  }

  /** Every key is seen at one of its pairs. */
  ghost predicate Sees(log: seq<Record>, view: Positions) {
    forall k :: k in view ==> view[k] < |log| && log[view[k]].key == k && |log[view[k]].val| >= 8
  }

  lemma CurrentPair(s: Image, k: bytes)
    requires Represents(s) && k in s.pos
    ensures s.pos[k] < |s.log| && s.log[s.pos[k]].key == k && |s.log[s.pos[k]].val| >= 8
  {
    Open(s);
  }

  lemma ViewSees(s: Image)
    requires Represents(s) && Probing(s.t)
    ensures Sees(s.log, View(s.t, s.log))
  {
    var view := View(s.t, s.log);
    forall k | k in view
      ensures view[k] < |s.log| && s.log[view[k]].key == k && |s.log[view[k]].val| >= 8
    {
      if PlainKey(k) {
        PlainView(s, k);
        CurrentPair(s, k);
      } else {
        RemappedView(s, k);
      }
    }
  }

  lemma SightSees(s: Image)
    requires Represents(s) && Probing(s.t)
    ensures Sees(s.log, Sight(s.t, s.log))
  {
    SightIsView(s.t, s.log);
    ViewSees(s);
  }

  /** The hash of every key is one that Get looks up as Set stored it. */
  ghost predicate AllPlain(pos: Positions) {
    forall k :: k in pos ==> PlainKey(k)
  }

  lemma PlainViewIsMap(s: Image)
    requires Represents(s) && Probing(s.t)
    requires AllPlain(s.pos) && AllPlain(View(s.t, s.log))
    ensures View(s.t, s.log) == s.pos
  {
    forall k
      ensures k in View(s.t, s.log) <==> k in s.pos
      ensures k in s.pos ==> View(s.t, s.log)[k] == s.pos[k]
    {
      if PlainKey(k) {
        PlainView(s, k);
      }
    }
    SameMap(View(s.t, s.log), s.pos);
  }

  lemma SameMap(a: Positions, b: Positions)
    requires forall k :: k in a <==> k in b
    requires forall k :: k in b ==> a[k] == b[k]
    ensures a == b
  {
  }

  /** Get sees exactly the map iff no live key is remapped and no deleted one shows through. */
  lemma ViewIsMap(s: Image)
    requires Represents(s) && Probing(s.t)
    ensures View(s.t, s.log) == s.pos <==> AllPlain(s.pos) && AllPlain(View(s.t, s.log))
  {
    if AllPlain(s.pos) && AllPlain(View(s.t, s.log)) {
      PlainViewIsMap(s);
    }
    if k :| k in s.pos && !PlainKey(k) && k in View(s.t, s.log) {
      RemappedView(s, k);
      CurrentPair(s, k);
    }
  }

  /** No deleted pair shows through when the log has plain keys only or the table no deleted bucket. */
  lemma PlainSight(s: Image)
    requires Represents(s) && Probing(s.t)
    requires (forall i :: 0 <= i < |s.log| ==> PlainKey(s.log[i].key)) || forall b :: b in s.t ==> b.hash != DELETED_BUCKET
    ensures AllPlain(Sight(s.t, s.log))
    ensures AllPlain(s.pos) ==> Sight(s.t, s.log) == s.pos
  {
    SightIsView(s.t, s.log);
    forall k | k in View(s.t, s.log)
      ensures PlainKey(k)
    {
      if !PlainKey(k) {
        RemappedView(s, k);
      }
    }
    ViewIsMap(s);
  }

  // ------------------------------------- a deleted pair that shows through

  /** The bucket of `k` in slot `i` was marked as deleted. */
  ghost predicate ErasedAt(t: Table, t': Table, log: seq<Record>, pos: Positions, k: bytes, i: nat) {
    k in pos && Slot(t, log, pos, k, i) && t' == t[i := Bucket(DELETED_BUCKET, t[i].index)]
  }

  /** The home slot of a live bucket is filled. */
  lemma BucketHomeFilled(t: Table, p: nat, home: nat)
    requires Chained(t) && p < |t| && Live(t[p]) && home == Home(t[p].hash, |t|)
    ensures t[home].hash != EMPTY_BUCKET
  {
    assert Unbroken(t, home, p);
    assert Dist(home, home, |t|) == 0;
  }

  lemma HomeFilled(t: Table, log: seq<Record>, pos: Positions, k: bytes, home: nat)
    requires Indexed(t, log, pos) && Current(log, pos) && Chained(t) && k in pos && |t| > 0
    requires home == Home(IndexHash(k), |t|)
    ensures t[home].hash != EMPTY_BUCKET
  {
    var p :| 0 <= p < |t| && t[p] == BucketOf(log, pos[k]);
    BucketHomeFilled(t, p, home);
  }

  /** From slot 1 a probe gets as far as the bucket of a key with hash 1, over slots 1 and 2. */
  lemma ReachedFromOne(t: Table, i: nat)
    requires |t| > 3 && i < |t| && Unbroken(t, 3, i)
    requires t[1].hash != EMPTY_BUCKET && t[2].hash != EMPTY_BUCKET
    ensures Unbroken(t, 1, i)
  {
    forall q | 0 <= q < |t| && Dist(1, q, |t|) < Dist(1, i, |t|)
      ensures t[q].hash != EMPTY_BUCKET
    {
      assert q == 1 || q == 2 || Dist(3, q, |t|) < Dist(3, i, |t|);
    }
  }

  lemma SmallHome(h: nat, n: nat)
    requires h < n
    ensures Home(h, n) == h
  {
  }

  /** The chain of a bucket with hash 3 is still there when its own slot is marked. */
  lemma MarkedReach(t: Table, i: nat)
    requires Chained(t) && |t| > 3 && i < |t| && t[i].hash == 3
    requires t[1].hash != EMPTY_BUCKET && t[2].hash != EMPTY_BUCKET
    ensures Unbroken(t[i := Bucket(DELETED_BUCKET, t[i].index)], 1, i)
  {
    SmallHome(3, |t|);
    assert Unbroken(t, 3, i);
    ReachedFromOne(t, i);
  }

  lemma MarkedMatch(log: seq<Record>, r: Record, b: Bucket, j: nat, k: bytes)
    requires j < |log| && log[j].key == k && b.hash == DELETED_BUCKET && b.index == Offset(log, j)
    ensures Matches(log, b, DELETED_BUCKET, k) && Matches(log + [r], b, DELETED_BUCKET, k)
  {
    KeyOfRecord(log, b, j);
    OffsetAppend(log, r, j);
    KeyOfRecord(log + [r], b, j);
  }

  /** When slots 1 and 2 are filled, Get still finds a deleted key with hash 1. */
  lemma ShowsThrough(t: Table, t': Table, log: seq<Record>, r: Record, pos: Positions, k: bytes, i: nat)
    requires Current(log, pos) && Chained(t) && |t| > 3 && Low32(FNV1a64(k)) == 1
    requires ErasedAt(t, t', log, pos, k, i)
    requires t[1].hash != EMPTY_BUCKET && t[2].hash != EMPTY_BUCKET
    ensures Reachable(t', log, k, i) && Reachable(t', log + [r], k, i)
  {
    SmallHome(1, |t|);
    MarkedReach(t, i);
    MarkedMatch(log, r, t'[i], pos[k], k);
  }

  // ------------------------------------------------------------ counting

  ghost function FilledSlots(t: Table): set<nat> {
    set p | 0 <= p < |t| && t[p].hash != EMPTY_BUCKET
  }

  lemma {:induction false} FilledCount(t: Table)
    ensures |FilledSlots(t)| == Occupied(t)
  {
    if t == [] {
      assert FilledSlots(t) == {};
    } else {
      var n := |t| - 1;
      FilledCount(t[..n]);
      assert FilledSlots(t) == FilledSlots(t[..n]) + if t[n].hash != EMPTY_BUCKET then {n} else {};
    }
  }

  ghost function SlotsSeen(t: Table, log: seq<Record>, ks: set<bytes>): set<nat>
    requires forall k :: k in ks ==> Seen(t, log, k)
  {
    set k | k in ks :: SlotSeen(t, log, k)
  }

  lemma OtherSlotSeen(t: Table, log: seq<Record>, ks: set<bytes>, k: bytes)
    requires (forall x :: x in ks ==> Seen(t, log, x)) && Seen(t, log, k) && k !in ks
    ensures SlotSeen(t, log, k) !in SlotsSeen(t, log, ks)
  {
    forall x | x in ks
      ensures SlotSeen(t, log, x) != SlotSeen(t, log, k)
    {
      assert Finds(t, log, x, SlotSeen(t, log, x));
    }
  }

  lemma SlotsSeenAdd(t: Table, log: seq<Record>, ks: set<bytes>, k: bytes)
    requires (forall x :: x in ks ==> Seen(t, log, x)) && k in ks
    ensures SlotsSeen(t, log, ks) == SlotsSeen(t, log, ks - {k}) + {SlotSeen(t, log, k)}
  {
  }

  lemma {:induction false} OneSlotPerKey(t: Table, log: seq<Record>, ks: set<bytes>)
    requires forall k :: k in ks ==> Seen(t, log, k)
    ensures |SlotsSeen(t, log, ks)| == |ks|
  {
    if ks != {} {
      var k :| k in ks;
      OneSlotPerKey(t, log, ks - {k});
      OtherSlotSeen(t, log, ks - {k}, k);
      SlotsSeenAdd(t, log, ks, k);
    }
  }

  /** Get sees no more keys than there are occupied buckets. */
  lemma ViewSize(t: Table, log: seq<Record>)
    ensures |View(t, log).Keys| <= Occupied(t)
  {
    var ks := View(t, log).Keys;
    forall k | k in ks
      ensures Seen(t, log, k) && SlotSeen(t, log, k) in FilledSlots(t)
    {
      InView(t, log, k);
    }
    OneSlotPerKey(t, log, ks);
    FilledCount(t);
    MapSums.SubsetSize(SlotsSeen(t, log, ks), FilledSlots(t));
  }
}
