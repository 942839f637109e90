/** Opening a stored map (core/pmap/pmap.go, Open and restorePair). */
module Replay {
  import opened Bytes
  import opened Guards
  import opened Hashing
  import opened Records
  import opened Stores
  import opened Tables
  import opened HashMaps
  import opened Dictionary
  import opened Checksums
  import opened Links
  import opened Representation
  import opened PMaps
  import Bits

  /** The first 8 bytes from `x` on, whatever they belong to. */
  function HeaderAt(f: bytes, x: nat): u64
    requires x + 8 <= |f|
  {
    UnLE64(f[x..x + 8])
  }

  /** What `RestorePair` leaves of the image: one more record, all bytes accounted for. */
  ghost predicate Restored(s: Image, s': Image, k: bytes, v: bytes) {
    && Tight(s') && s'.pos == LastPos(s'.log)
    && s'.log == s.log + [Record(k, v)]
    && s'.length == s.length + PairSize(k, v)
  }

  /** The bytes of a tombstone, which `Open` itself counts as deleted. */
  function TombstoneSize(key: bytes, value: bytes): nat {
    if value == [] then 12 + |key| else 0
  }

  /** What a restored record does to the checksum windows at time `t`. */
  function Replayed(w: Windows, m: Dict, k: bytes, v: bytes, t: int): Windows {
    if v == [] then Without(w, m, k, t) else With(Without(w, m, k, t), k, v)
  }

  /** The record is the first of its key. */
  method RestoreNew(c: PMap, index: nat, h64: u64, key: bytes, value: bytes, storeIndex: u32)
    requires c.Valid() && Tight(c.image) && c.image.pos == LastPos(c.image.log)
    requires h64 == FNV1a64(key) && |value| >= 8 && storeIndex == c.st.length
    requires Slot(c.image.t, c.image.log, c.image.pos, key, index) && key !in c.image.pos && key !in c.Model()
    requires c.hm.numStoredKeys < c.hm.numKeysToExpand
    requires Unbroken(c.hm.table, Home(IndexHash(key), c.hm.size), index)
    modifies c`image, c.hm`table, c.hm`numStoredKeys, c.hm.mem, c.ck
    ensures c.Ahead() && Restored(old(c.image), c.image, key, value)
    ensures c.image.deleted == c.st.deleted
    ensures old(c.Summed()) ==> c.Summed()
    ensures c.IndexLoad() == Taken(old(c.IndexLoad()), true)
    ensures c.ck.View() == With(old(c.ck.View()), key, value)
  {
    c.st.Ends();
    ReplayRepresents(c.image, key, value, index);
    ghost var before := c.Model();
    c.hm.Occupy(index, HashReMap(Low32(h64)), storeIndex);
    c.image := AfterReplay(c.image, key, value, index);
    c.TakeOut(h64, key, Absent, 0, before);
    c.AddIn(h64, key, value, before);
  }

  /** The record replaces or buries an earlier pair `v` of its key. */
  method RestoreOver(c: PMap, index: nat, h64: u64, key: bytes, value: bytes, storeIndex: u32, v: bytes, t: int)
    requires c.Valid() && Tight(c.image) && c.image.pos == LastPos(c.image.log)
    requires h64 == FNV1a64(key) && (value == [] || |value| >= 8) && storeIndex == c.st.length
    requires Slot(c.image.t, c.image.log, c.image.pos, key, index) && key in c.image.pos
    requires LookupIn(c.Model(), key) == Found(v) && c.hm.table[index].hash == IndexHash(key)
    modifies c`image, c.hm`table, c.hm.mem, c.st`deleted, c.ck
    ensures c.Ahead() && Restored(old(c.image), c.image, key, value)
    ensures c.image.deleted == c.st.deleted + TombstoneSize(key, value)
    ensures old(c.Summed()) ==> c.Summed()
    ensures c.IndexLoad() == old(c.IndexLoad())
    ensures c.ck.View() == Replayed(old(c.ck.View()), old(c.Model()), key, value, t)
  {
    c.st.Ends();
    ReplayRepresents(c.image, key, value, index);
    ghost var before := c.Model();
    c.TakeOut(h64, key, Found(v), t, before);
    c.st.deleted := c.st.deleted + 12 + |key| + |v|;
    c.image := AfterReplay(c.image, key, value, index);
    if |value| > 0 {
      c.hm.Redirect(index, HashReMap(Low32(h64)), storeIndex);
      c.AddIn(h64, key, value, before);
    } else {
      c.hm.Erase(index);
    }
  }

  /**
    Index one record of the file; `t` is the time that its first eight value bytes spell. For
    a tombstone those run into the trailer and the next header (`TombstoneTime`). Without
    room the record is dropped, and so is every later one, since the load stays as it is.
   */
  method RestorePair(c: PMap, key: bytes, value: bytes, storeIndex: u32, t: int) returns (ok: bool)
    requires c.Valid() && Tight(c.image) && c.image.pos == LastPos(c.image.log)
    requires storeIndex == c.st.length
    requires if value == [] then key in c.image.pos else |value| >= 8 && t == Stamp(value)
    modifies c, c.hm, c.hm.mem, c.st`deleted, c.ck
    ensures ok == old(c.HasRoom())
    ensures !ok ==> c.Valid()
    ensures ok ==> c.Ahead() && Restored(old(c.image), c.image, key, value)
    ensures ok ==> c.image.deleted == c.st.deleted + TombstoneSize(key, value)
    ensures old(c.Summed()) ==> c.Summed()
    ensures c.hm.mem == old(c.hm.mem) || fresh(c.hm.mem)
    ensures ok ==> c.IndexLoad() == Taken(Grown(old(c.IndexLoad()), |old(c.Model())|), key !in old(c.image.pos))
    ensures !ok ==> c.Model() == old(c.Model()) && c.IndexLoad() == old(c.IndexLoad())
    ensures ok ==> c.ck.View() == Replayed(old(c.ck.View()), old(c.Model()), key, value, t)
  {
    ok := c.EnsureRoom();
    if ok {
      RestoreWithRoom(c, key, value, storeIndex, t);
    }
  }

  method RestoreWithRoom(c: PMap, key: bytes, value: bytes, storeIndex: u32, t: int)
    requires c.Valid() && Tight(c.image) && c.image.pos == LastPos(c.image.log)
    requires storeIndex == c.st.length
    requires if value == [] then key in c.image.pos else |value| >= 8 && t == Stamp(value)
    requires c.hm.numStoredKeys < c.hm.numKeysToExpand
    modifies c`image, c.hm`table, c.hm`numStoredKeys, c.hm.mem, c.st`deleted, c.ck
    ensures c.Ahead() && Restored(old(c.image), c.image, key, value)
    ensures c.image.deleted == c.st.deleted + TombstoneSize(key, value)
    ensures old(c.Summed()) ==> c.Summed()
    ensures c.IndexLoad() == Taken(old(c.IndexLoad()), key !in old(c.image.pos))
    ensures c.ck.View() == Replayed(old(c.ck.View()), old(c.Model()), key, value, t)
  {
    var h64 := FNV1a64(key);
    var found, index := c.Find(HashReMap(Low32(h64)), key);
    if !found {
      RestoreNew(c, index, h64, key, value, storeIndex);
    } else {
      var v := c.CurrentValue(index, key);
      RestoreOver(c, index, h64, key, value, storeIndex, v, t);
    }
  }

  // ------------------------------------------------- the load of a replay

  /** The load of the index after replaying a log; only first records of a key take a bucket. */
  function ReplayLoad(log: seq<Record>): Load {
    if log == [] then Load(65536, 0)
    else
      var n := |log| - 1;
      var before := LastPos(log[..n]);
      Taken(Grown(ReplayLoad(log[..n]), |before|), log[n].key !in before)
  }

  /** The index has room for every record when its turn comes. */
  ghost predicate Restorable(log: seq<Record>) {
    forall i :: 0 <= i < |log| ==> Room(ReplayLoad(log[..i]))
  }

  /** The number of records that the index takes before it runs out of room. */
  function Covered(log: seq<Record>): (n: nat)
    ensures n <= |log|
  {
    if log == [] then 0
    else
      var k := |log| - 1;
      var n := Covered(log[..k]);
      if n == k && Room(ReplayLoad(log[..k])) then k + 1 else n
  }

  lemma RestorableFront(log: seq<Record>, k: nat)
    requires k <= |log| && Restorable(log)
    ensures Restorable(log[..k])
  {
    forall i | 0 <= i < k
      ensures Room(ReplayLoad(log[..k][..i]))
    {
      assert log[..k][..i] == log[..i];
    }
  }

  lemma RoomAt(log: seq<Record>, k: nat, i: nat)
    requires i < k <= |log| && Restorable(log[..k])
    ensures Room(ReplayLoad(log[..i]))
  {
    assert log[..k][..i] == log[..i];
  }

  lemma RestorableLast(log: seq<Record>, k: nat)
    requires |log| == k + 1 && Restorable(log[..k]) && Room(ReplayLoad(log[..k]))
    ensures Restorable(log)
  {
    forall i | 0 <= i < |log|
      ensures Room(ReplayLoad(log[..i]))
    {
      if i < k {
        RoomAt(log, k, i);
      }
    }
  }

  lemma {:induction false} RestorableCovered(log: seq<Record>)
    ensures Restorable(log) <==> Covered(log) == |log|
  {
    if log != [] {
      var k := |log| - 1;
      RestorableCovered(log[..k]);
      if Restorable(log) {
        RestorableFront(log, k);
      }
      if Covered(log) == |log| {
        RestorableLast(log, k);
      }
    }
  }

  lemma CoveredNext(log: seq<Record>, i: nat)
    requires i < |log|
    ensures Covered(log[..i + 1]) ==
      if Covered(log[..i]) == i && Room(ReplayLoad(log[..i])) then i + 1 else Covered(log[..i])
  {
    assert log[..i + 1][..i] == log[..i];
  }

  /** The records that find their key without a pair and take a new bucket. */
  function Insertions(log: seq<Record>): nat {
    if log == [] then 0
    else
      var n := |log| - 1;
      Insertions(log[..n]) + if log[n].key !in LastPos(log[..n]) then 1 else 0
  }

  lemma {:induction false} LoadBound(log: seq<Record>)
    ensures Regular(ReplayLoad(log))
    ensures |LastPos(log)| <= Insertions(log) && ReplayLoad(log).stored <= Insertions(log)
  {
    if log == [] {
      Bits.Pow2Of16();
    } else {
      var n := |log| - 1;
      LoadBound(log[..n]);
      GrownRegular(ReplayLoad(log[..n]), |LastPos(log[..n])|);
      LivePosStep(LastPos(log[..n]), log[n], n);
    }
  }

  lemma LivePosStep(before: map<bytes, nat>, r: Record, n: nat)
    ensures |before - {r.key}| == |before| - if r.key in before then 1 else 0
    ensures |before[r.key := n]| == |before| + if r.key in before then 0 else 1
  {
    assert before[r.key := n].Keys == before.Keys + {r.key};
    assert (before - {r.key}).Keys == before.Keys - {r.key};
  }

  /** Overwrites cost nothing: fewer insertions than the largest load limit are enough. */
  lemma FewInsertionsRestorable(log: seq<Record>)
    requires forall i :: 0 <= i < |log| ==> Insertions(log[..i]) < LoadLimit(DEFAULT_SIZE_LIMIT)
    ensures Restorable(log)
  {
    forall i | 0 <= i < |log|
      ensures Room(ReplayLoad(log[..i]))
    {
      LoadBound(log[..i]);
      RoomBelowLimit(ReplayLoad(log[..i]));
    }
  }

  lemma RestorableNext(log: seq<Record>, i: nat)
    requires i < |log|
    ensures ReplayLoad(log[..i + 1]) ==
      Taken(Grown(ReplayLoad(log[..i]), |LastPos(log[..i])|), log[i].key !in LastPos(log[..i]))
  {
    assert log[..i + 1][..i] == log[..i];
  }

  /** The time taken for a tombstone: its trailer and the next key length, read as one word. */
  function TombstoneTime(log: seq<Record>, i: nat): int
    requires i < |log|
  {
    var n := |log[i].key| + TWO_32 * NextLen(log, i);
    if n < TWO_63 then n else n - TWO_64
  }

  /** The checksum windows after replaying the first `n` records. */
  function ReplayWindows(log: seq<Record>, n: nat): Windows
    requires n <= |log|
  {
    if n == 0 then START
    else
      var r := log[n - 1];
      Replayed(ReplayWindows(log, n - 1), Fold(log[..n - 1]), r.key, r.val,
               if r.val == [] then TombstoneTime(log, n - 1) else Stamp(r.val))
  }

  /** The part of a replayed log that the index has, and what the store must look like. */
  ghost predicate Replaying(c: PMap, disk: bytes, log: seq<Record>, i: nat)
    reads c, c.hm, c.hm.mem, c.st, c.st.file, c.ck
  {
    && c.Valid() && c.Summed() && Tight(c.image)
    && i <= |log| && c.image.log == log[..i] && c.image.pos == LastPos(c.image.log)
    && c.IndexLoad() == ReplayLoad(log[..i]) && c.ck.View() == ReplayWindows(log, i)
    && c.st.file[..] == disk && c.st.length == Offset(log, i)
  }

  /** The store counts in the record that `RestorePair` has just indexed. */
  method CountIn(c: PMap, value: bytes, key: bytes, index: nat, ghost log: seq<Record>, ghost i: nat)
    requires c.Ahead() && c.hm.mem as object != c.st.file as object && c.Summed()
    requires c.st.file.Length == c.st.size <= TWO_32 && index < c.st.size
    requires i < |log| && LogBytes(log) <= c.st.file[..] && index == Offset(log, i + 1)
    requires c.image.log == log[..i + 1] && c.image.length == index
    requires c.image.deleted == c.st.deleted + TombstoneSize(key, value)
    requires c.image.pos == LastPos(c.image.log) && Tight(c.image)
    requires c.IndexLoad() == ReplayLoad(log[..i + 1]) && c.ck.View() == ReplayWindows(log, i + 1)
    modifies c.st`deleted, c.st`length, c.st`log
    ensures Replaying(c, old(c.st.file[..]), log, i + 1)
  {
    PrefixInFile(c.st.file[..], log, i + 1);
    assert c.st.file[..index] == c.st.file[..][..index];
    c.st.CountTo(index, if |value| == 0 then 12 + |key| else 0, log[..i + 1]);
  }

  lemma LiveSize(s: Image)
    requires Represents(s)
    ensures |s.m| == |s.pos|
  {
    Representation.Open(s);
    ContentsSize(s.log, s.pos);
  }

  /** The file starts with the image of a well-formed log, and goes on with a key length of zero. */
  ghost predicate DiskHolds(disk: bytes, log: seq<Record>) {
    && |disk| <= TWO_32 && LogBytes(log) <= disk && WellFormed(log)
    && |LogBytes(log)| + 4 <= |disk| && KeyLenAt(disk, |LogBytes(log)|) == 0
  }

  ghost predicate OnDisk(disk: bytes, log: seq<Record>) {
    forall n: int {:trigger Asked(n)} :: Asked(n) ==> DiskHolds(disk, log)
  }

  lemma OpenDisk(disk: bytes, log: seq<Record>)
    requires OnDisk(disk, log)
    ensures DiskHolds(disk, log)
  {
    assert Asked(0);
  }

  /** A key length at a record boundary is that of the record, or zero at the end. */
  lemma NextOnDisk(disk: bytes, log: seq<Record>, i: nat, index: nat)
    requires OnDisk(disk, log) && i <= |log| && index == Offset(log, i)
    ensures index + 4 <= |disk| && |disk| <= TWO_32
    ensures i < |log| ==>
      && Readable(disk, index) && KeyLenAt(disk, index) == |log[i].key|
      && KeyAt(disk, index) == log[i].key && ValAt(disk, index) == log[i].val
      && TotalLenAt(disk, index) == |log[i].key| + |log[i].val|
      && Offset(log, i + 1) == index + RecordSize(log[i]) <= |disk| - 4
    ensures i == |log| ==> KeyLenAt(disk, index) == 0
  {
    OpenDisk(disk, log);
    ImageLength(log);
    if i < |log| {
      ReadBack(disk, log, i);
    }
  }

  /** The record at `index` and the index of the next one. */
  method ReadAt(c: PMap, ghost disk: bytes, ghost log: seq<Record>, ghost i: nat, index: nat)
    returns (key: bytes, value: bytes, next: nat)
    requires c.st.file[..] == disk && OnDisk(disk, log)
    requires i <= |log| && index == Offset(log, i) && index + 4 <= |disk| && KeyLenAt(disk, index) > 0
    ensures i < |log| && log[i] == Record(key, value)
    ensures next == Offset(log, i + 1) == index + PairSize(key, value) <= |disk| - 4
  {
    NextOnDisk(disk, log, i, index);
    key, value := KeyAt(c.st.file[..], index), ValAt(c.st.file[..], index);
    next := index + 12 + TotalLenAt(c.st.file[..], index);
  }

  /** The index took `n` records, ran out of room and drops the others. */
  ghost predicate Dropping(c: PMap, disk: bytes, log: seq<Record>, n: nat, i: nat)
    reads c, c.hm, c.hm.mem, c.st, c.st.file, c.ck
  {
    && c.hm.Valid() && c.hm.sizeLimit == DEFAULT_SIZE_LIMIT && !c.HasRoom()
    && Represents(c.image) && c.Summed()
    && n < i <= |log| && c.image.log == log[..n] && c.image.pos == LastPos(c.image.log)
    && c.st.file[..] == disk && c.st.length == Offset(log, i) && c.ck.View() == ReplayWindows(log, n)
  }

  ghost predicate TakenOrDropped(c: PMap, disk: bytes, log: seq<Record>, i: nat)
    reads c, c.hm, c.hm.mem, c.st, c.st.file, c.ck
  {
    && i <= |log|
    && if Covered(log[..i]) == i then Replaying(c, disk, log, i) else Dropping(c, disk, log, Covered(log[..i]), i)
  }

  /** Where the replay is after `i` records. */
  ghost predicate Progress(c: PMap, disk: bytes, log: seq<Record>, i: nat)
    reads c, c.hm, c.hm.mem, c.st, c.st.file, c.ck
  {
    && i <= |log| && c.st.file[..] == disk
    && forall n: int {:trigger Asked(n)} :: Asked(n) ==> TakenOrDropped(c, disk, log, i)
  }

  lemma OpenProgress(c: PMap, disk: bytes, log: seq<Record>, i: nat)
    requires Progress(c, disk, log, i)
    ensures TakenOrDropped(c, disk, log, i)
  {
    assert Asked(0);
  }

  lemma CloseProgress(c: PMap, disk: bytes, log: seq<Record>, i: nat)
    requires TakenOrDropped(c, disk, log, i) && c.st.file[..] == disk
    ensures Progress(c, disk, log, i)
  {
  }

  /** A record that finds no room is dropped; a tombstone is still counted as deleted. */
  method DropOne(c: PMap, key: bytes, value: bytes, next: nat, ghost log: seq<Record>, ghost n: nat, ghost i: nat)
    requires Dropping(c, c.st.file[..], log, n, i) || (n == i && Replaying(c, c.st.file[..], log, i) && !c.HasRoom())
    requires i < |log| && next == Offset(log, i + 1)
    modifies c.hm, c.st`deleted, c.st`length
    ensures Dropping(c, old(c.st.file[..]), log, n, i + 1)
    ensures c.hm.mem == old(c.hm.mem)
  {
    var ok := c.hm.Expand();
    if |value| == 0 {
      c.st.deleted := c.st.deleted + 12 + |key|;
    }
    c.st.length := next;
  }

  /** One turn of the replay loop. */
  method ReplayOne(c: PMap, ghost disk: bytes, ghost log: seq<Record>, ghost i: nat, index: nat)
    returns (ghost i': nat, index': nat)
    requires OnDisk(disk, log)
    requires Progress(c, disk, log, i) && index == Offset(log, i) && index + 4 <= |disk|
    requires KeyLenAt(disk, index) > 0
    modifies c, c.hm, c.hm.mem, c.st, c.ck
    ensures i' == i + 1 && Progress(c, disk, log, i') && c.st.file[..] == disk && index' == Offset(log, i') && index' + 4 <= |disk|
    ensures c.hm.mem == old(c.hm.mem) || fresh(c.hm.mem)
  {
    var key, value, next := ReadAt(c, disk, log, i, index);
    if c.HasRoom() {
      Take(c, key, value, next, disk, log, i);
    } else {
      Leave(c, key, value, next, disk, log, i);
    }
    return i + 1, next;
  }

  method Take(c: PMap, key: bytes, value: bytes, next: nat, ghost disk: bytes, ghost log: seq<Record>, ghost i: nat)
    requires OnDisk(disk, log) && Progress(c, disk, log, i) && i < |log| && log[i] == Record(key, value)
    requires c.HasRoom() && next == Offset(log, i + 1) == Offset(log, i) + PairSize(key, value) <= |disk| - 4
    modifies c, c.hm, c.hm.mem, c.st, c.ck
    ensures Progress(c, disk, log, i + 1) && c.st.file[..] == disk
    ensures c.hm.mem == old(c.hm.mem) || fresh(c.hm.mem)
  {
    OpenProgress(c, disk, log, i);
    CoveredNext(log, i);
    IndexAndCount(c, key, value, next, log, i);
    CloseProgress(c, disk, log, i + 1);
  }

  method Leave(c: PMap, key: bytes, value: bytes, next: nat, ghost disk: bytes, ghost log: seq<Record>, ghost i: nat)
    requires Progress(c, disk, log, i) && i < |log| && !c.HasRoom() && next == Offset(log, i + 1)
    modifies c.hm, c.st`deleted, c.st`length
    ensures Progress(c, disk, log, i + 1) && c.st.file[..] == disk
    ensures c.hm.mem == old(c.hm.mem)
  {
    OpenProgress(c, disk, log, i);
    CoveredNext(log, i);
    DropOne(c, key, value, next, log, Covered(log[..i]), i);
    CloseProgress(c, disk, log, i + 1);
  }

  /** Index the record that was read and let the store count it in. */
  method IndexAndCount(c: PMap, key: bytes, value: bytes, next: nat, ghost log: seq<Record>, ghost i: nat)
    requires i < |log| && c.HasRoom() && log[i] == Record(key, value)
    requires OnDisk(c.st.file[..], log) && Replaying(c, c.st.file[..], log, i)
    requires next == Offset(log, i + 1) == c.st.length + PairSize(key, value) <= c.st.size - 4
    modifies c, c.hm, c.hm.mem, c.st, c.ck
    ensures Replaying(c, old(c.st.file[..]), log, i + 1)
    ensures c.hm.mem == old(c.hm.mem) || fresh(c.hm.mem)
  {
    IndexOne(c, key, value, log, i);
    CountIn(c, value, key, next, log, i);
  }

  /** The checksum windows after one more record. */
  lemma WindowsNext(s: Image, log: seq<Record>, i: nat, t: int)
    requires i < |log| && Represents(s) && s.log == log[..i] && s.pos == LastPos(s.log)
    requires t == if log[i].val == [] then TombstoneTime(log, i) else Stamp(log[i].val)
    ensures ReplayWindows(log, i + 1) == Replayed(ReplayWindows(log, i), s.m, log[i].key, log[i].val, t)
  {
    FoldIsContents(s);
  }

  method IndexOne(c: PMap, key: bytes, value: bytes, ghost log: seq<Record>, ghost i: nat)
    requires i < |log| && c.HasRoom() && log[i] == Record(key, value)
    requires OnDisk(c.st.file[..], log) && Replaying(c, c.st.file[..], log, i)
    modifies c, c.hm, c.hm.mem, c.st`deleted, c.ck
    ensures c.Ahead() && c.Summed() && Restored(old(c.image), c.image, key, value) && c.image.log == log[..i + 1]
    ensures c.image.deleted == c.st.deleted + TombstoneSize(key, value)
    ensures c.IndexLoad() == ReplayLoad(log[..i + 1]) && c.ck.View() == ReplayWindows(log, i + 1)
    ensures c.hm.mem == old(c.hm.mem) || fresh(c.hm.mem)
    ensures LogBytes(log) <= c.st.file[..]
  {
    var t := TimeAt(c.st.file, key, value, c.st.length, log, i);
    ReplayedRecord(c.st.file[..], log, i);
    RestorableNext(log, i);
    LiveSize(c.image);
    WindowsNext(c.image, log, i, t);
    var ok := RestorePair(c, key, value, c.st.length, t);
  }

  /** The reading of value[:8], which for a tombstone goes on behind the value. */
  method TimeAt(file: array<byte>, key: bytes, value: bytes, index: nat, ghost log: seq<Record>, ghost i: nat)
    returns (t: int)
    requires i < |log| && log[i] == Record(key, value) && index == Offset(log, i) && OnDisk(file[..], log)
    ensures t == if value == [] then TombstoneTime(log, i) else Stamp(value)
  {
    if |value| > 0 {
      return Stamp(value);
    }
    TombstoneOnDisk(file[..], log, i, index + 8 + |key|);
    return Signed64(HeaderAt(file[..], index + 8 + |key|));
  }

  /** The key length behind record `i`. */
  lemma NextLenOnDisk(disk: bytes, log: seq<Record>, i: nat, next: nat)
    requires i < |log| && OnDisk(disk, log) && next == Offset(log, i) + RecordSize(log[i])
    ensures next + 4 <= |disk| && KeyLenAt(disk, next) == NextLen(log, i) && PrevAt(disk, next) == Offset(log, i)
  {
    OpenDisk(disk, log);
    ReadBack(disk, log, i);
    NextOnDisk(disk, log, i + 1, next);
  }

  /** The bytes behind the key of a tombstone spell its time. */
  lemma TombstoneOnDisk(disk: bytes, log: seq<Record>, i: nat, y: nat)
    requires i < |log| && OnDisk(disk, log) && log[i].val == [] && y == Offset(log, i) + 8 + |log[i].key|
    ensures y + 8 <= |disk| && Signed64(HeaderAt(disk, y)) == TombstoneTime(log, i)
  {
    NextLenOnDisk(disk, log, i, y + 4);
    TombstoneWord(disk, Offset(log, i), y);
  }

  lemma ReplayedRecord(disk: bytes, log: seq<Record>, i: nat)
    requires i < |log| && OnDisk(disk, log)
    ensures LogBytes(log) <= disk && log[..i + 1] == log[..i] + [log[i]]
    ensures if log[i].val == [] then log[i].key in LastPos(log[..i]) else |log[i].val| >= 8
  {
    OpenDisk(disk, log);
  }

  /** What the replay of `log` ends in. */
  ghost predicate Rebuilt(c: PMap, log: seq<Record>)
    reads c, c.hm, c.hm.mem, c.st, c.st.file, c.ck
  {
    && c.Summed() && c.Model() == Fold(log[..Covered(log)]) && c.st.length == |LogBytes(log)|
    && c.ck.View() == ReplayWindows(log, Covered(log))
    && (Restorable(log) ==>
          && c.Valid() && c.st.log == log && c.image.pos == LastPos(log) && c.Model() == Fold(log)
          && c.st.deleted + LiveBytes(c.Model()) == c.st.length)
  }

  ghost predicate Opened(c: PMap, log: seq<Record>)
    reads c, c.hm, c.hm.mem, c.st, c.st.file, c.ck
  {
    forall n: int {:trigger Asked(n)} :: Asked(n) ==> Rebuilt(c, log)
  }

  lemma WhatOpened(c: PMap, log: seq<Record>)
    requires Opened(c, log)
    ensures Rebuilt(c, log)
  {
    assert Asked(0);
  }

  lemma CloseOpened(c: PMap, log: seq<Record>)
    requires Rebuilt(c, log)
    ensures Opened(c, log)
  {
  }

  lemma CloseDisk(disk: bytes, log: seq<Record>)
    requires DiskHolds(disk, log)
    ensures OnDisk(disk, log)
  {
  }

  lemma ReplayDone(c: PMap, disk: bytes, log: seq<Record>)
    requires Progress(c, disk, log, |log|)
    ensures Rebuilt(c, log) && c.st.file[..] == disk
  {
    OpenProgress(c, disk, log, |log|);
    assert log[..|log|] == log;
    RestorableCovered(log);
    ImageLength(log);
    FoldIsContents(c.image);
  }

  lemma ReplayStarts(c: PMap, disk: bytes, log: seq<Record>)
    requires c.Valid() && c.Summed() && c.Model() == map[] && c.image.pos == map[] && c.image.log == []
    requires c.st.file[..] == disk && c.st.length == 0 && c.st.deleted == 0 && c.IndexLoad() == Load(65536, 0)
    requires c.ck.View() == START
    ensures Progress(c, disk, log, 0)
  {
    assert log[..0] == [];
    CloseProgress(c, disk, log, 0);
  }

  /**
    Replay the records of `log` from the file, up to the first key length of zero. The
    index is rebuilt as the last-record-wins reading of the records it has room for, and
    the checksum follows it. With room for all of them that is the whole log, and every
    byte of it is live or counted as deleted.
   */
  method Open(disk: bytes, ghost log: seq<Record>) returns (c: PMap)
    requires |disk| <= TWO_32 && OnDisk(disk, log) && forall i :: 0 <= i < |log| ==> log[i].key != []
    ensures fresh(c) && fresh(c.hm) && fresh(c.hm.mem) && fresh(c.st) && fresh(c.st.file) && fresh(c.ck)
    ensures c.st.file[..] == disk && Opened(c, log)
  {
    c := new PMap.FromDisk(disk);
    var index := 0;
    ghost var i := 0;
    ReplayStarts(c, disk, log);
    NextOnDisk(disk, log, 0, 0);
    while KeyLenAt(c.st.file[..], index) > 0
      invariant Progress(c, disk, log, i) && c.st.file[..] == disk && index == Offset(log, i) && index + 4 <= |disk|
      invariant fresh(c) && fresh(c.hm) && fresh(c.hm.mem) && fresh(c.st) && fresh(c.st.file) && fresh(c.ck)
      decreases |log| - i
    {
      i, index := ReplayOne(c, disk, log, i, index);
    }
    NextOnDisk(disk, log, i, index);
    ReplayDone(c, disk, log);
    CloseOpened(c, log);
  }

  /** The records before the first empty key: a zero key length ends the replay. */
  function Replayable(log: seq<Record>): (r: seq<Record>)
    ensures r <= log
    ensures forall i :: 0 <= i < |r| ==> r[i].key != []
    ensures r == log || log[|r|].key == []
  {
    if log == [] then []
    else
      var n := |log| - 1;
      var r := Replayable(log[..n]);
      if |r| == n && log[n].key != [] then log else r
  }

  lemma WellFormedPrefix(log: seq<Record>, n: nat)
    requires WellFormed(log) && n <= |log|
    ensures WellFormed(log[..n])
  {
    forall i | 0 <= i < n
      ensures log[..n][..i] == log[..i]
    {
    }
  }

  lemma ZeroLength(f: bytes, x: nat)
    requires x + 4 <= |f| && forall i :: x <= i < x + 4 ==> f[i] == 0
    ensures KeyLenAt(f, x) == 0
  {
    var w := f[x..x + 4];
    assert w == [0, 0, 0, 0] && w[1..] == [0, 0, 0] && w[1..][1..] == [0, 0] && w[1..][1..][1..] == [0];
    assert UnLE([0]) == 0 && UnLE([0, 0]) == 0 && UnLE([0, 0, 0]) == 0;
  }

  /** Right after the replayable records the file has a zero key length. */
  lemma ReplayStops(disk: bytes, log: seq<Record>)
    requires |disk| <= TWO_32 && LogBytes(log) <= disk && |LogBytes(log)| + 4 <= |disk|
    requires forall i :: |LogBytes(log)| <= i < |disk| ==> disk[i] == 0
    ensures var r := Replayable(log);
      && LogBytes(r) <= disk && |LogBytes(r)| + 4 <= |disk|
      && KeyLenAt(disk, |LogBytes(r)|) == 0
  {
    var r := Replayable(log);
    assert log[..|r|] == r;
    ImagePrefix(log, |r|);
    if r == log {
      ZeroLength(disk, |LogBytes(r)|);
    } else {
      ReadBack(disk, log, |r|);
      ImageLength(r);
      OffsetPrefix(log, |r|, |r|);
    }
  }

  /** The table invariants of a represented image also bound what a replay needs. */
  lemma OpenLog(s: Image)
    requires Represents(s)
    ensures WellFormed(s.log)
  {
    Representation.Open(s);
  }

  lemma SameTail(a: Store, b: Store)
    requires a.Blank() && a.file[..] == b.file[..] && a.length == b.length
    ensures b.Blank()
  {
    assert forall i :: 0 <= i < b.file.Length ==> b.file[i] == b.file[..][i] == a.file[..][i] == a.file[i];
  }

  /**
    Close and open again. The reopened map is the replay of the records before the first
    empty key, as far as the index has room; for a durable map without empty keys and with
    room for its records it is the same map.
   */
  method Reopen(p: PMap) returns (c: PMap)
    requires p.Valid() && p.st.Blank() && p.st.length + 4 <= p.st.size
    ensures fresh(c) && Opened(c, Replayable(p.st.log))
    ensures p.Durable() && Restorable(p.st.log) && (forall i :: 0 <= i < |p.st.log| ==> p.st.log[i].key != []) ==>
      c.Valid() && c.Model() == p.Model() && c.Durable()
  {
    ghost var log := p.st.log;
    var disk := p.st.file[..];
    OpenLog(p.image);
    ReplayableOnDisk(p);
    c := Open(disk, Replayable(log));
    if p.Durable() && Replayable(log) == log && Restorable(log) {
      FoldIsContents(p.image);
      WhatOpened(c, log);
      p.st.Ends();
      SameTail(p.st, c.st);
    }
  }

  lemma ReplayableOnDisk(p: PMap)
    requires p.Valid() && p.st.Blank() && p.st.length + 4 <= p.st.size
    ensures OnDisk(p.st.file[..], Replayable(p.st.log))
  {
    var log, r := p.st.log, Replayable(p.st.log);
    p.st.Ends();
    assert log[..|r|] == r;
    OpenLog(p.image);
    WellFormedPrefix(log, |r|);
    ReplayStops(p.st.file[..], log);
    CloseDisk(p.st.file[..], r);
  }
}
