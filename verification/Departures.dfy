/** Reachable cases in which the storage engine does not do what its interface promises. */
module Departures {
  import opened Bytes
  import opened Hashing
  import opened Records
  import opened Dictionary
  import opened Tables
  import opened Links
  import opened Representation
  import opened Views
  import opened PMaps
  import opened Iteration
  import opened Defragmentation
  import opened Clients
  import opened Replay
  import opened RemappedKeys

  /**
    The condition on keys is exact: after Set stores a key whose hash `HashReMap` moves,
    the map has it, Get does not find it and defragmentation drops it.
   */
  method RemappedKeyIsLost(size: nat, key: bytes, value: bytes) returns (c: PMap, r: Lookup, d: PMap)
    requires !PlainKey(key) && |value| >= 8 && 12 + |key| + |value| < size <= TWO_32
    ensures c.Valid() && c.Model() == map[key := value] && r == Absent
    ensures d.Valid() && d.Model() == map[]
  {
    c := new PMap(size);
    SetNew(c, key, value);
    r := c.Get(Low32(FNV1a64(key)), key);
    PlainSight(c.image);
    PlainLegible(c);
    LoneRecord(c.st.log, c.Sight(), key, value);
    d := DefragmentSmall(c, map[]);
  }

  lemma LoneRecord(log: seq<Record>, view: Positions, key: bytes, value: bytes)
    requires log == [] + [Record(key, value)] && |value| >= 8 && !PlainKey(key) && AllPlain(view)
    ensures NoFalseTombstone(log, view) && FirstCopies(log, view, 1) == map[]
  {
    assert FirstCopies(log, view, 0) == map[];
  }

  /** There is such a key: a Set of "uuniruc" succeeds and its value is never read again. */
  method LostKey(value: bytes) returns (key: bytes, c: PMap, r: Lookup, d: PMap)
    requires |value| >= 8 && |value| < 1000
    ensures key in c.Model() && c.Model()[key] == value && r == Absent && key !in d.Model()
  {
    key := [117, 117, 110, 105, 114, 117, 99];
    RemappedHash(key);
    c, r, d := RemappedKeyIsLost(2000, key, value);
  }

  // ------------------------------------------------- a deleted pair is read

  /** What the slots around the marks of deleted buckets hold. */
  lemma SlotsFilled(s: Image, k: bytes, a: bytes, b: bytes)
    requires Represents(s) && Probing(s.t) && |s.t| > 3 && a in s.m && b in s.m && k in s.m
    requires Home(IndexHash(a), |s.t|) == 1 && Home(IndexHash(b), |s.t|) == 2
    ensures s.t[1].hash != EMPTY_BUCKET && s.t[2].hash != EMPTY_BUCKET && Linked(s.t, s.log, s.pos) && k in s.pos
  {
    Representation.Open(s);
    OpenProbing(s.t);
    HomeFilled(s.t, s.log, s.pos, a, 1);
    HomeFilled(s.t, s.log, s.pos, b, 2);
  }

  lemma FoundAgain(s: Image, t': Table, log': seq<Record>, k: bytes, a: bytes, b: bytes, i: nat)
    requires Represents(s) && Probing(s.t) && |s.t| > 3 && a in s.m && b in s.m && k in s.m
    requires Home(IndexHash(a), |s.t|) == 1 && Home(IndexHash(b), |s.t|) == 2 && Low32(FNV1a64(k)) == 1
    requires ErasedAt(s.t, t', s.log, s.pos, k, i) && (log' == s.log || log' == s.log + [Record(k, [])])
    ensures k in Sight(t', log')
  {
    SlotsFilled(s, k, a, b);
    OpenProbing(s.t);
    ShowsThrough(s.t, t', s.log, Record(k, []), s.pos, k, i);
    SightIsView(t', log');
    SeenExact(t', log', k);
  }

  /** Once slots 1 and 2 are filled, a deleted key with hash 1 is still found by Get. */
  method DeletedPairIsRead(c: PMap, k: bytes, w: bytes, ghost a: bytes, ghost b: bytes) returns (r: Lookup)
    requires c.Valid() && a in c.Model() && b in c.Model() && k in c.Model() && Low32(FNV1a64(k)) == 1
    requires Home(IndexHash(a), c.hm.size) == 1 && Home(IndexHash(b), c.hm.size) == 2
    requires |w| >= 8 && Stamp(w) >= Stamp(c.Model()[k])
    modifies c, c.hm`table, c.hm.mem, c.st`log, c.st`length, c.st`deleted, c.st.file, c.ck
    ensures c.Valid() && c.Model() == old(c.Model()) - {k}
    ensures r.Found? && |r.value| >= 8 && Record(k, r.value) in c.st.log
    ensures c.st.log == old(c.st.log) || c.st.log == old(c.st.log) + [Record(k, [])]
  {
    ghost var s := c.image;
    var err := c.Del(FNV1a64(k), k, w);
    ghost var i :| ErasedAt(s.t, c.hm.table, s.log, s.pos, k, i);
    FoundAgain(s, c.hm.table, c.st.log, k, a, b, i);
    SightSees(c.image);
    r := c.Get(Low32(FNV1a64(k)), k);
  }

  /** Three records of different keys and a tombstone: the only pair of the third is its own. */
  lemma OnlyPair(log: seq<Record>, a: Record, b: Record, k: bytes, v: bytes, value: bytes)
    requires log == [] + [a] + [b] + [Record(k, v)] || log == [] + [a] + [b] + [Record(k, v)] + [Record(k, [])]
    requires a.key != k && b.key != k && value != [] && Record(k, value) in log
    ensures value == v
  {
    var i :| 0 <= i < |log| && log[i] == Record(k, value);
  }

  /** Set of three keys and Del of the third: its value is read again. */
  method DeleteThird(a: bytes, b: bytes, k: bytes, v: bytes, w: bytes) returns (c: PMap, r: Lookup)
    requires Home(IndexHash(a), 65536) == 1 && Home(IndexHash(b), 65536) == 2 && Low32(FNV1a64(k)) == 1
    requires a != b && a != k && b != k && |v| >= 8 && |w| == 8 && Stamp(w) >= Stamp(v)
    requires PairSize(a, v) + PairSize(b, v) + PairSize(k, v) < 1000
    ensures c.Valid() && k !in c.Model() && r == Found(v)
  {
    c := SetThree(a, b, k, v);
    r := DeletedPairIsRead(c, k, w, a, b);
    OnlyPair(c.st.log, Record(a, v), Record(b, v), k, v, r.value);
  }

  method SetThree(a: bytes, b: bytes, k: bytes, v: bytes) returns (c: PMap)
    requires a != b && a != k && b != k && |v| >= 8 && PairSize(a, v) + PairSize(b, v) + PairSize(k, v) < 1000
    ensures c.Valid() && c.Model() == map[a := v, b := v, k := v] && c.hm.size == 65536
    ensures c.st.log == [] + [Record(a, v)] + [Record(b, v)] + [Record(k, v)]
    ensures fresh(c) && fresh(c.hm) && fresh(c.hm.mem) && fresh(c.st) && fresh(c.st.file) && fresh(c.ck)
  {
    c := new PMap(1000);
    SetNew(c, a, v);
    SetNew(c, b, v);
    SetNew(c, k, v);
  }

  /** Such keys exist. */
  method GhostKey(v: bytes, w: bytes) returns (k: bytes, c: PMap, r: Lookup)
    requires |v| == 8 && |w| == 8 && Stamp(w) >= Stamp(v)
    ensures c.Valid() && k !in c.Model() && r == Found(v)
  {
    var a, b := [52, 152], [218, 187];
    k := [66, 8, 111, 147];
    SlotHashes(a, b);
    GhostHash(k);
    assert a[0] != b[0];
    c, r := DeleteThird(a, b, k, v, w);
  }

  // ---------------------------------------------------------- imitation

  /** The log of Set, Del and Set at one time. */
  function SameTimeLog(k: bytes, w: bytes, a: bytes, b: bytes): seq<Record> {
    [Record(k, w + a), Record(k, []), Record(k, w + b)]
  }

  lemma SameTimePos(k: bytes, w: bytes, a: bytes, b: bytes)
    requires |w| == 8
    ensures LastPos(SameTimeLog(k, w, a, b)) == map[k := 2]
    ensures SameTimeLog(k, w, a, b) == [] + [Record(k, w + a)] + [Record(k, [])] + [Record(k, w + b)]
  {
    var r, t, r' := Record(k, w + a), Record(k, []), Record(k, w + b);
    LastPosAppend([], r);
    LastPosAppend([r], t);
    LastPosAppend([r, t], r');
    assert [] + [r] == [r] && [r] + [t] == [r, t] && [r, t] + [r'] == SameTimeLog(k, w, a, b);
    assert w + b != [] && w + a != [];
  }

  /** The old value imitates the new one, and leads; the tombstone may imitate too. */
  lemma OldValueLeads(k: bytes, w: bytes, a: bytes, b: bytes)
    requires |w| == 8 && a != b
    ensures var log := SameTimeLog(k, w, a, b);
      && Imitates(log, LastPos(log), 0)
      && (NoFalseTombstone(log, LastPos(log)) <==> UnLE64(w) != |k| + TWO_32 * |k|)
      && (UnLE64(w) != |k| + TWO_32 * |k| ==> FirstCopies(log, LastPos(log), 3) == map[k := w + a])
    ensures w + a != w + b
  {
    var log, pos: Positions := SameTimeLog(k, w, a, b), map[k := 2];
    SameTimePos(k, w, a, b);
    assert (w + a)[8..] == a && (w + b)[8..] == b;
    assert (w + a)[..8] == w && (w + b)[..8] == w;
    assert IsPresent(log, pos, 0) && (IsPresent(log, pos, 1) <==> UnLE64(w) == |k| + TWO_32 * |k|);
    assert Imitates(log, pos, 1) <==> IsPresent(log, pos, 1);
    assert FirstCopies(log, pos, 1) == map[k := w + a];
    if !IsPresent(log, pos, 1) {
      assert FirstCopies(log, pos, 2) == map[k := w + a];
    }
  }

  lemma SameStamp(w: bytes, a: bytes)
    requires |w| == 8
    ensures Stamp(w + a) == Stamp(w)
  {
    assert (w + a)[..8] == w && w[..8] == w;
  }

  /** Set of an absent key in a small map. */
  method SetNew(c: PMap, k: bytes, v: bytes)
    requires c.Valid() && c.Durable() && k !in c.Model() && |v| >= 8
    requires c.st.length + PairSize(k, v) < c.st.size && c.hm.size == 65536 && c.hm.numStoredKeys < 9
    modifies c, c.hm, c.hm.mem, c.st`log, c.st`length, c.st.file, c.ck
    ensures c.Valid() && c.Durable() && c.Model() == old(c.Model())[k := v]
    ensures c.st.log == old(c.st.log) + [Record(k, v)] && c.st.length == old(c.st.length) + PairSize(k, v)
    ensures c.hm.size == 65536 && c.hm.numStoredKeys == old(c.hm.numStoredKeys) + 1
    ensures c.hm.mem == old(c.hm.mem) || fresh(c.hm.mem)
    ensures old(NoMarkers(c.hm.table)) ==> NoMarkers(c.hm.table)
    ensures old(c.Summed()) ==> c.Summed()
  {
    var err := c.Set(FNV1a64(k), k, v);
  }

  /** Del of the only key. */
  method DelLone(c: PMap, k: bytes, v: bytes, w: bytes)
    requires c.Valid() && c.Durable() && c.Model() == map[k := v] && |w| == 8 && Stamp(w) == Stamp(v)
    requires c.st.length + PairSize(k, []) < c.st.size
    modifies c, c.hm`table, c.hm.mem, c.st`log, c.st`length, c.st`deleted, c.st.file, c.ck
    ensures c.Valid() && c.Durable() && c.Model() == map[]
    ensures c.st.log == old(c.st.log) + [Record(k, [])] && c.st.length == old(c.st.length) + PairSize(k, [])
  {
    assert map[k := v] - {k} == map[];
    var err := c.Del(FNV1a64(k), k, w);
  }

  method SetDelSet(size: nat, k: bytes, w: bytes, a: bytes, b: bytes) returns (c: PMap)
    requires |w| == 8
    requires PairSize(k, w + a) + PairSize(k, []) + PairSize(k, w + b) < size <= TWO_32
    ensures c.Valid() && c.Durable() && c.Model() == map[k := w + b] && c.st.log == SameTimeLog(k, w, a, b)
    ensures c.hm.size == 65536
  {
    SameStamp(w, a);
    SameTimePos(k, w, a, b);
    c := new PMap(size);
    SetNew(c, k, w + a);
    DelLone(c, k, w + a, w);
    SetNew(c, k, w + b);
  }

  /** Of one plain key Get sees the current record. */
  lemma OneKeySight(c: PMap, k: bytes)
    requires c.Valid() && c.Durable() && PlainKey(k) && forall i :: 0 <= i < |c.st.log| ==> c.st.log[i].key == k
    ensures Legible(c) && c.Sight() == LastPos(c.st.log)
  {
    forall x | x in c.image.pos
      ensures PlainKey(x)
    {
      LastPosIsLast(c.st.log, x);
    }
    PlainSight(c.image);
    PlainLegible(c);
  }

  /**
    Set, Del and Set of one key at one time: the map has the second value, and
    defragmentation brings the first one back.
   */
  method DeletedValueReturns(size: nat, k: bytes, w: bytes, a: bytes, b: bytes) returns (c: PMap, d: PMap)
    requires |w| == 8 && PlainKey(k) && UnLE64(w) != |k| + TWO_32 * |k| && a != b
    requires PairSize(k, w + a) + PairSize(k, []) + PairSize(k, w + b) < size <= TWO_32
    ensures c.Valid() && c.Model() == map[k := w + b]
    ensures d.Valid() && d.Model() == map[k := w + a] && w + a != w + b
  {
    OldValueLeads(k, w, a, b);
    c := SetDelSet(size, k, w, a, b);
    OneKeySight(c, k);
    d := DefragmentSmall(c, map[k := w + a]);
  }

  /** At the time that the lengths of the tombstone spell, defragmentation panics. */
  method TombstonePanics(size: nat, k: bytes, w: bytes, a: bytes, b: bytes) returns (c: PMap, ok: bool)
    requires |w| == 8 && PlainKey(k) && UnLE64(w) == |k| + TWO_32 * |k| && a != b
    requires PairSize(k, w + a) + PairSize(k, []) + PairSize(k, w + b) < size <= TWO_32
    ensures c.Valid() && c.Model() == map[k := w + b] && !ok
  {
    OldValueLeads(k, w, a, b);
    c := SetDelSet(size, k, w, a, b);
    OneKeySight(c, k);
    var d;
    ok, d := Defragment(c);
  }

  method DefragmentSmall(c: PMap, ghost firsts: Dict) returns (d: PMap)
    requires c.Valid() && Legible(c) && c.hm.size == 65536
    requires NoFalseTombstone(c.st.log, c.Sight())
    requires FirstCopies(c.st.log, c.Sight(), |c.st.log|) == firsts
    ensures d.Valid() && d.Model() == firsts
  {
    SightBounds(c);
    var ok;
    ok, d := Defragment(c);
  }

  // --------------------------------------------------------------- CAS

  /** A CAS that names another old value than the absent pair's is accepted. */
  lemma WrongOldValueAccepted(m: Dict, k: bytes, t: int, payload: bytes) returns (oldPayload: bytes)
    requires Int64(t) && k !in m
    ensures FNV1a64(oldPayload) != FNV1a64([])
    ensures var arg := CasArgument(0, oldPayload, t, payload);
      CasAccepts(m, k, arg) && !CasDocumented(m, k, arg)
  {
    oldPayload := [117];
    var none: bytes := [];
    FnvCons(OFFSET_64, 117, oldPayload);
    assert oldPayload[1..] == none;
    StepOne(OFFSET_64);
    MismatchedCasCreates(m, k, oldPayload, t, payload);
  }

  // ---------------------------------------------------------- full stores

  lemma LoneChecksum(k: bytes, v: bytes)
    ensures StateChecksum(map[k := v]) == Element(k, v) && StateChecksum(map[]) == 0
  {
    var none: Dict := map[];
    ChecksumEmpty();
    ChecksumPut(none, k, v);
    assert none[k := v] == map[k := v];
  }

  /** A CAS refused by a full store: the map is the same, the checksum is that of the empty one. */
  method RefusedCasDrifts(k: bytes, t: int, p: bytes, t': int, q: bytes) returns (c: PMap, err: Error)
    requires Int64(t) && Int64(t') && PairSize(k, Stamped(t, p)) < TWO_32
    ensures c.Valid() && c.Model() == map[k := Stamped(t, p)] && err == StoreFull
    ensures c.ck.newSum == 0 && (c.Summed() <==> Element(k, Stamped(t, p)) == 0)
  {
    ghost var m := map[k := Stamped(t, p)];
    StampedFields(t, p);
    CasArgumentMeans(m, k, t, p, t', q);
    LoneChecksum(k, Stamped(t, p));
    c := new PMap(PairSize(k, Stamped(t, p)) + 1);
    SetNew(c, k, Stamped(t, p));
    err := CasLone(c, k, Stamped(t, p), CasArgument(t, p, t', q));
  }

  /** CAS of the only pair, without room for another record. */
  method CasLone(c: PMap, k: bytes, v: bytes, arg: bytes) returns (err: Error)
    requires c.Valid() && c.Summed() && c.Model() == map[k := v] && |v| >= 8 && |arg| >= 24
    requires CasAccepts(map[k := v], k, arg) && c.st.length + 1 == c.st.size
    requires c.hm.size == 65536 && c.hm.numStoredKeys == 1
    modifies c, c.hm, c.hm.mem, c.st`log, c.st`length, c.st.file, c.ck
    ensures c.Valid() && c.Model() == map[k := v] && err == StoreFull
    ensures c.ck.newSum == StateChecksum(map[])
  {
    assert map[k := v] - {k} == map[];
    err := c.CAS(FNV1a64(k), k, arg);
  }

  lemma LoneRestored(log: seq<Record>, k: bytes, v: bytes)
    requires log == [] + [Record(k, v)] && k != [] && |v| >= 8
    ensures Replayable(log) == log && Restorable(log) && Fold(log) == map[k := v]
  {
    assert log[..0] == [];
    FewInsertionsRestorable(log);
    LastPosAppend([], Record(k, v));
  }

  lemma LoneOpened(d: PMap, log: seq<Record>, k: bytes, v: bytes)
    requires Opened(d, Replayable(log)) && log == [] + [Record(k, v)] && k != [] && |v| >= 8
    ensures d.Valid() && d.Model() == map[k := v]
  {
    LoneRestored(log, k, v);
    WhatOpened(d, log);
  }

  /** A Del whose tombstone finds no room: the pair is gone, and is there again after reopening. */
  method UnburiedPairReturns(k: bytes, v: bytes, w: bytes) returns (c: PMap, err: Error, d: PMap)
    requires k != [] && |v| >= 8 && |w| == 8 && Stamp(w) >= Stamp(v) && PairSize(k, v) + 4 <= TWO_32
    ensures c.Valid() && c.Model() == map[] && err == StoreFull
    ensures d.Valid() && d.Model() == map[k := v]
  {
    c, err := Unburied(k, v, w);
    d := Reopen(c);
    LoneOpened(d, c.st.log, k, v);
  }

  method Unburied(k: bytes, v: bytes, w: bytes) returns (c: PMap, err: Error)
    requires |v| >= 8 && |w| == 8 && Stamp(w) >= Stamp(v) && PairSize(k, v) + 4 <= TWO_32
    ensures c.Valid() && c.st.Blank() && c.Model() == map[] && err == StoreFull
    ensures c.st.log == [] + [Record(k, v)] && c.st.length + 4 == c.st.size
  {
    c := new PMap(PairSize(k, v) + 4);
    SetNew(c, k, v);
    err := DelRefused(c, k, v, w);
  }

  /** Del of the only key, without room for its tombstone. */
  method DelRefused(c: PMap, k: bytes, v: bytes, w: bytes) returns (err: Error)
    requires c.Valid() && c.st.Blank() && c.Model() == map[k := v] && |w| == 8 && Stamp(w) >= Stamp(v)
    requires c.st.length + 4 == c.st.size
    modifies c, c.hm`table, c.hm.mem, c.st`log, c.st`length, c.st`deleted, c.st.file, c.ck
    ensures c.Valid() && c.st.Blank() && c.Model() == map[] && err == StoreFull
    ensures c.st.log == old(c.st.log) && c.st.length == old(c.st.length)
  {
    assert map[k := v] - {k} == map[];
    err := c.Del(FNV1a64(k), k, w);
  }
}
