/** The persistent map of core/pmap/pmap.go: hash index plus append-only store. */
module PMaps {
  import opened Bytes
  import opened Hashing
  import opened Records
  import opened Stores
  import opened Tables
  import opened HashMaps
  import opened Dictionary
  import opened Checksums
  import opened Links
  import opened Representation
  import opened Views
  import Bits
  import MapSums

  datatype Error =
    | NoError
    | ValueTooShort
    | TableFull
    | StoreFull
    | CasEmptyPair
    | CasStampMismatch
    | CasHashMismatch

  datatype Lookup = Absent | Found(value: bytes)

  ghost function LookupIn(m: Dict, k: bytes): Lookup {
    if k in m then Found(m[k]) else Absent
  }

  /** What the record at a position of the log holds. */
  ghost function LookupAt(log: seq<Record>, view: Positions, k: bytes): Lookup {
    if k in view && view[k] < |log| then Found(log[view[k]].val) else Absent
  }

  lemma SightAt(t: Table, log: seq<Record>, k: bytes, p: nat)
    requires Finds(t, log, k, p)
    ensures LookupAt(log, Sight(t, log), k) == Found(log[RecordNo(log, t[p].index)].val)
  {
    SightIsView(t, log);
    ViewAt(t, log, k, p);
  }

  lemma SightNone(t: Table, log: seq<Record>, k: bytes, e: nat)
    requires e < |t| && t[e].hash == EMPTY_BUCKET && Searched(t, log, Low32(FNV1a64(k)), k, e)
    ensures LookupAt(log, Sight(t, log), k) == Absent
  {
    SightIsView(t, log);
    ViewNone(t, log, k, e);
  }

  /** Get's view by kind of hash. */
  lemma ViewLookup(s: Image, k: bytes)
    requires Represents(s) && Probing(s.t)
    ensures PlainKey(k) ==> LookupAt(s.log, Sight(s.t, s.log), k) == LookupIn(s.m, k)
    ensures !PlainKey(k) && (Low32(FNV1a64(k)) == 0 || NoMarkers(s.t)) ==>
      LookupAt(s.log, Sight(s.t, s.log), k) == Absent
  {
    SightIsView(s.t, s.log);
    if PlainKey(k) {
      PlainView(s, k);
      Representation.Open(s);
    } else if k in Sight(s.t, s.log) {
      RemappedView(s, k);
    }
  }

  /** The tests of CAS against the pair that the index led to. */
  function CasTest(v: Lookup, value: bytes): Error
    requires |value| >= 24 && (v.Found? ==> |v.value| >= 8)
  {
    var providedTime, hv := Stamp(value[..8]), UnLE64(value[8..16]);
    match v
    case Absent =>
      if providedTime != 0 && hv != FNV1a64([]) then CasEmptyPair else NoError
    case Found(stored) =>
      if Stamp(stored) != providedTime then CasStampMismatch
      else if hv != FNV1a64(stored[8..]) then CasHashMismatch
      else NoError
  }

  /** The error of the CAS tests against a map. */
  ghost function CasRefusal(m: Dict, k: bytes, value: bytes): Error
    requires |value| >= 24
  {
    if k in m && |m[k]| < 8 then CasHashMismatch else CasTest(LookupIn(m, k), value)
  }

  lemma CasTestDecides(m: Dict, k: bytes, value: bytes)
    requires |value| >= 24 && (k in m ==> |m[k]| >= 8)
    ensures CasRefusal(m, k, value).NoError? <==> CasAccepts(m, k, value)
  {
  }

  class PMap {
    const hm: HashMap
    const st: Store
    const ck: SyncChecksum
    ghost var image: Image

    /** The abstract map. */
    ghost function Model(): Dict
      reads this
    {
      image.m
    }

    ghost predicate Valid()
      reads this, hm, hm.mem, st, st.file
    {
      && hm.mem as object != st.file as object
      && hm.Valid() && st.Valid()
      && hm.sizeLimit == DEFAULT_SIZE_LIMIT && hm.size >= 65536
      && hm.table == image.t && st.log == image.log
      && st.deleted == image.deleted && st.length == image.length
      && Represents(image)
    }

    /** As `Valid`, while the store has yet to count in the record that the index already has. */
    ghost predicate Ahead()
      reads this, hm, hm.mem, st
    {
      && hm.Valid()
      && hm.sizeLimit == DEFAULT_SIZE_LIMIT && hm.size >= 65536
      && hm.table == image.t
      && Represents(image)
    }

    /** Replaying the log gives the live map, and nothing is written after the log. */
    ghost predicate Durable()
      reads this, st, st.file
    {
      image.pos == LastPos(image.log) && st.Blank()
    }

    /** The newest checksum is the checksum of the live map. */
    ghost predicate Summed()
      reads this, ck
    {
      ck.newSum == StateChecksum(Model())
    }

    /** The record that Get reads for each key it finds. */
    ghost function Sight(): Positions
      reads hm, st
    {
      Views.Sight(hm.table, st.log)
    }

    function IndexLoad(): Load
      reads hm
    {
      Load(hm.size, hm.numStoredKeys)
    }

    predicate HasRoom()
      reads hm
    {
      Room(IndexLoad())
    }

    constructor (size: nat)
      requires size <= TWO_32
      ensures Valid() && Model() == map[] && Durable() && Summed() && image.pos == map[]
      ensures fresh(hm) && fresh(hm.mem) && fresh(st) && fresh(st.file) && fresh(ck)
      ensures st.size == size && st.length == 0 && st.deleted == 0 && st.log == []
      ensures IndexLoad() == Load(65536, 0) && ck.View() == START
      ensures NoMarkers(hm.table)
    {
      Bits.Pow2Of16();
      hm := new HashMap(DEFAULT_INITIAL_LOG2_SIZE, DEFAULT_SIZE_LIMIT);
      st := new Store(size);
      ck := new SyncChecksum();
      new;
      image := Image(hm.table, [], map[], map[], 0, 0);
      EmptyRepresents(hm.table);
      ChecksumEmpty();
    }

    /** An empty index over the bytes found on disk. */
    constructor FromDisk(disk: bytes)
      requires |disk| <= TWO_32
      ensures Valid() && Model() == map[] && Summed() && image.pos == map[] && image.log == []
      ensures fresh(hm) && fresh(hm.mem) && fresh(st) && fresh(st.file) && fresh(ck)
      ensures st.file[..] == disk && st.length == 0 && st.deleted == 0
      ensures IndexLoad() == Load(65536, 0) && ck.View() == START
    {
      Bits.Pow2Of16();
      hm := new HashMap(DEFAULT_INITIAL_LOG2_SIZE, DEFAULT_SIZE_LIMIT);
      st := new Store.FromDisk(disk);
      ck := new SyncChecksum();
      new;
      image := Image(hm.table, [], map[], map[], 0, 0);
      EmptyRepresents(hm.table);
      ChecksumEmpty();
    }

    /** Any non-empty bucket, live or deleted, points at a readable record. */
    lemma Stored(b: Bucket)
      requires Valid() && b in hm.table && b.hash != EMPTY_BUCKET
      ensures IsBoundary(st.log, b.index) && Readable(st.file[..], b.index)
      ensures KeyAt(st.file[..], b.index) == KeyOf(st.log, b)
      ensures ValAt(st.file[..], b.index) == st.log[RecordNo(st.log, b.index)].val
    {
      PointsAtRecord(image, b);
      st.Reads(RecordNo(st.log, b.index));
    }

    /**
      The probe loop of Get, Set, CAS, Del and restorePair: walk from the home slot
      of `h` until an empty bucket or a bucket of hash `h` whose record has the key.
     */
    method Probe(h: u32, key: bytes) returns (found: bool, index: nat)
      requires Valid()
      ensures index < hm.size
      ensures found ==> Matches(st.log, hm.table[index], h, key)
      ensures !found ==> hm.table[index].hash == EMPTY_BUCKET
      ensures Searched(hm.table, st.log, h, key, index)
    {
      ghost var e := EmptySlot(hm.table);
      ghost var home := Home(h, hm.size);
      hm.Masks(h, 0);
      index := Bits.And(h, hm.sizeMask);
      while true
        invariant index < hm.size
        invariant Searched(hm.table, st.log, h, key, index)
        invariant Dist(home, index, hm.size) <= Dist(home, e, hm.size)
        decreases hm.size - Dist(home, index, hm.size)
      {
        hm.Registers(index);
        var storedHash := hm.GetHash(index);
        if storedHash == EMPTY_BUCKET {
          return false, index;
        }
        Stored(hm.table[index]);
        if h == storedHash {
          var stIndex := hm.GetStoreIndex(index);
          if KeyAt(st.file[..], stIndex) == key {
            return true, index;
          }
        }
        hm.Masks(h, index);
        SearchStep(hm.table, st.log, h, key, index, e);
        index := Bits.And(index + 1, hm.sizeMask);
      }
    }

    /** The probe with the remapped hash decides membership. */
    method Find(h: u32, key: bytes) returns (found: bool, index: nat)
      requires Valid() && h == IndexHash(key)
      ensures index < hm.size && found == (key in image.pos) == (key in Model())
      ensures Slot(image.t, image.log, image.pos, key, index)
      ensures found ==> hm.table[index].hash == h
      ensures !found ==> Unbroken(hm.table, Home(h, hm.size), index)
    {
      found, index := Probe(h, key);
      StopDecides(image, key, index);
      SearchedUnbroken(hm.table, st.log, h, key, index);
      SlotLeads(image, key, index);
    }

    /** The value that a slot of the index points at. */
    method ValueAt(index: nat) returns (v: bytes)
      requires Valid() && index < hm.size && hm.table[index].hash != EMPTY_BUCKET
      ensures IsBoundary(st.log, hm.table[index].index)
      ensures v == st.log[RecordNo(st.log, hm.table[index].index)].val
    {
      Stored(hm.table[index]);
      hm.Registers(index);
      v := ValAt(st.file[..], hm.GetStoreIndex(index));
    }

    method CurrentValue(index: nat, ghost key: bytes) returns (v: bytes)
      requires Valid() && key in image.pos && Slot(image.t, image.log, image.pos, key, index)
      ensures key in Model() && v == Model()[key] && |v| >= 8
    {
      SlotLeads(image, key, index);
      v := ValueAt(index);
    }

    /**
      Get probes with the hash as given, so it returns what its view of the index holds.
      For a hash of at least 2 that is the map; hash 0 finds nothing, and hash 1 finds
      nothing either unless deleted buckets show through.
     */
    method Get(h32: u32, key: bytes) returns (r: Lookup)
      requires Valid() && h32 == Low32(FNV1a64(key))
      ensures r == LookupAt(st.log, Sight(), key)
      ensures h32 >= 2 ==> r == LookupIn(Model(), key)
      ensures h32 == 0 || (h32 == 1 && NoMarkers(hm.table)) ==> r == Absent
    {
      r := Look(h32, key);
      ViewLookup(image, key);
    }

    /** The probe of Get and the copy of the value. */
    method Look(h32: u32, key: bytes) returns (r: Lookup)
      requires Valid() && h32 == Low32(FNV1a64(key))
      ensures r == LookupAt(st.log, Sight(), key)
    {
      var found, index := Probe(h32, key);
      if !found {
        SightNone(hm.table, st.log, key, index);
        return Absent;
      }
      var v := ValueAt(index);
      SightAt(hm.table, st.log, key, index);
      return Found(v);
    }

    /** The load check at the head of Set, CAS and restorePair. */
    method EnsureRoom() returns (ok: bool)
      requires Valid()
      modifies this, hm
      ensures Valid() && image == old(image).(t := hm.table)
      ensures ok == old(HasRoom())
      ensures ok ==> hm.numStoredKeys < hm.numKeysToExpand
      ensures hm.mem == old(hm.mem) || fresh(hm.mem)
      ensures IndexLoad() == Grown(old(IndexLoad()), |Model()|)
      ensures old(NoMarkers(hm.table)) ==> NoMarkers(hm.table)
    {
      ok := true;
      if hm.numStoredKeys >= hm.numKeysToExpand {
        LiveBuckets(image);
        ok := hm.Expand();
        if ok {
          MirrorRepresents(image, hm.table);
          image := image.(t := hm.table);
        }
      }
    }

    /** Append the record, then aim the given slot at it; an empty slot counts as a new key. */
    method PutAt(index: nat, h: u32, key: bytes, value: bytes) returns (ok: bool)
      requires hm.mem as object != st.file as object && hm.Valid() && st.Valid()
      requires index < hm.size && h > DELETED_BUCKET && NoIndex(hm.table, st.length)
      requires hm.table[index].hash == EMPTY_BUCKET ==>
        hm.numStoredKeys < hm.numKeysToExpand && Unbroken(hm.table, Home(h, hm.size), index)
      requires hm.table[index].hash != EMPTY_BUCKET ==> hm.table[index].hash == h
      modifies hm`table, hm`numStoredKeys, hm.mem, st`log, st`length, st.file
      ensures hm.Valid() && st.Valid() && ok == st.Fits(old(st.length), key, value)
      ensures !ok ==> hm.table == old(hm.table) && st.log == old(st.log) && st.length == old(st.length)
      ensures ok ==>
        && hm.table == old(hm.table)[index := Bucket(h, old(st.length))]
        && st.log == old(st.log) + [Record(key, value)]
        && st.length == old(st.length) + PairSize(key, value)
      ensures old(st.Blank()) ==> st.Blank()
      ensures hm.numStoredKeys ==
        old(hm.numStoredKeys) + (if ok && old(hm.table[index].hash) == EMPTY_BUCKET then 1 else 0)
      ensures old(NoMarkers(hm.table)) ==> NoMarkers(hm.table)
    {
      if NoMarkers(hm.table) {
        NoMarkersPut(hm.table, index, Bucket(h, st.length));
      }
      var r := st.Put(key, value);
      if r.Denied? {
        return false;
      }
      hm.Registers(index);
      if hm.GetHash(index) == EMPTY_BUCKET {
        hm.Occupy(index, h, r.index);
      } else {
        hm.Redirect(index, h, r.index);
      }
      return true;
    }

    /** Write a pair through the slot of its key. */
    method Write(index: nat, h: u32, key: bytes, value: bytes) returns (err: Error)
      requires Valid() && h == IndexHash(key) && |value| >= 8
      requires Slot(image.t, image.log, image.pos, key, index)
      requires if key in image.pos then hm.table[index].hash == h
        else hm.numStoredKeys < hm.numKeysToExpand && Unbroken(hm.table, Home(h, hm.size), index)
      modifies this, hm`table, hm`numStoredKeys, hm.mem, st`log, st`length, st.file
      ensures Valid() && err == if st.Fits(old(st.length), key, value) then NoError else StoreFull
      ensures Written(old(Model()), Model(), old(st.log), st.log, key, value, err)
      ensures st.length == old(st.length) + (if err.NoError? then PairSize(key, value) else 0)
      ensures old(Durable()) ==> Durable()
      ensures IndexLoad() == Taken(old(IndexLoad()), err.NoError? && key !in old(image.pos))
      ensures old(NoMarkers(hm.table)) ==> NoMarkers(hm.table)
    {
      st.Ends();
      PutRepresents(image, key, value, index);
      var ok := PutAt(index, h, key, value);
      if !ok {
        return StoreFull;
      }
      image := AfterPut(image, key, value, index);
      return NoError;
    }

    /** Take the stored pair of the key, if any, out of the checksum. */
    method TakeOut(h64: u64, ghost key: bytes, v: Lookup, t: int, ghost before: Dict)
      requires h64 == FNV1a64(key) && v == LookupIn(before, key)
      modifies ck
      ensures old(ck.newSum) == StateChecksum(before) ==> ck.newSum == StateChecksum(before - {key})
      ensures ck.View() == Without(old(ck.View()), before, key, t)
    {
      if v.Found? {
        ChecksumRemove(before, key);
        ck.Sub(Xor64(h64, StampWord(v.value)), t);
      } else {
        MapSums.AbsentRemove(before, key);
      }
    }

    /** Add a written pair to the checksum of the other pairs. */
    method AddIn(h64: u64, ghost key: bytes, value: bytes, ghost before: Dict)
      requires h64 == FNV1a64(key)
      modifies ck
      ensures old(ck.newSum) == StateChecksum(before - {key}) ==> ck.newSum == StateChecksum(before[key := value])
      ensures ck.View() == With(old(ck.View()), key, value)
    {
      ChecksumPut(before - {key}, key, value);
      assert (before - {key})[key := value] == before[key := value];
      ck.Sum(Xor64(h64, StampWord(value)), Stamp(value));
    }

    /** Set: last writer wins. Every outcome, and what it leaves, is exact. */
    method Set(h64: u64, key: bytes, value: bytes) returns (err: Error)
      requires Valid() && h64 == FNV1a64(key)
      modifies this, hm, hm.mem, st`log, st`length, st.file, ck
      ensures Valid()
      ensures err ==
        if |value| < 8 then ValueTooShort
        else if !old(HasRoom()) then TableFull
        else if Newer(old(Model()), key, value) && !st.Fits(old(st.length), key, value) then StoreFull
        else NoError
      ensures Model() == if err.NoError? then SetSpec(old(Model()), key, value) else old(Model())
      ensures old(Durable()) ==> Durable()
      ensures old(Summed()) ==> Summed()
      ensures ck.View() == if err.NoError? && Newer(old(Model()), key, value)
        then With(Without(old(ck.View()), old(Model()), key, Stamp(value)), key, value) else old(ck.View())
      ensures hm.mem == old(hm.mem) || fresh(hm.mem)
      ensures st.log == if err.NoError? && Newer(old(Model()), key, value)
        then old(st.log) + [Record(key, value)] else old(st.log)
      ensures st.length == old(st.length) +
        (if err.NoError? && Newer(old(Model()), key, value) then PairSize(key, value) else 0)
      ensures old(NoMarkers(hm.table)) ==> NoMarkers(hm.table)
      ensures IndexLoad() ==
        if |value| < 8 then old(IndexLoad())
        else Taken(Grown(old(IndexLoad()), |old(Model())|), err.NoError? && key !in old(Model()))
    {
      if |value| < 8 {
        return ValueTooShort;
      }
      var ok := EnsureRoom();
      if !ok {
        return TableFull;
      }
      err := SetWithRoom(h64, key, value);
    }

    method SetWithRoom(h64: u64, key: bytes, value: bytes) returns (err: Error)
      requires Valid() && h64 == FNV1a64(key) && |value| >= 8
      requires hm.numStoredKeys < hm.numKeysToExpand
      modifies this, hm`table, hm`numStoredKeys, hm.mem, st`log, st`length, st.file, ck
      ensures Valid()
      ensures err == if Newer(old(Model()), key, value) && !st.Fits(old(st.length), key, value)
        then StoreFull else NoError
      ensures Model() == if err.NoError? then SetSpec(old(Model()), key, value) else old(Model())
      ensures old(Durable()) ==> Durable()
      ensures old(Summed()) ==> Summed()
      ensures ck.View() == if err.NoError? && Newer(old(Model()), key, value)
        then With(Without(old(ck.View()), old(Model()), key, Stamp(value)), key, value) else old(ck.View())
      ensures st.log == if err.NoError? && Newer(old(Model()), key, value)
        then old(st.log) + [Record(key, value)] else old(st.log)
      ensures st.length == old(st.length) +
        (if err.NoError? && Newer(old(Model()), key, value) then PairSize(key, value) else 0)
      ensures old(NoMarkers(hm.table)) ==> NoMarkers(hm.table)
      ensures IndexLoad() == Taken(old(IndexLoad()), err.NoError? && key !in old(Model()))
    {
      var h := HashReMap(Low32(h64));
      var found, index := Find(h, key);
      var v := Absent;
      if found {
        var stored := CurrentValue(index, key);
        if Stamp(stored) >= Stamp(value) {
          return NoError;
        }
        v := Found(stored);
      }
      ghost var before := Model();
      err := Write(index, h, key, value);
      if err.NoError? {
        TakeOut(h64, key, v, Stamp(value), before);
        AddIn(h64, key, value, before);
      }
    }

    /**
      Compare-and-swap. A mismatch changes nothing; on a full store the map is kept but
      the checksum of the old pair has already been taken out.
     */
    method CAS(h64: u64, key: bytes, value: bytes) returns (err: Error)
      requires Valid() && h64 == FNV1a64(key)
      modifies this, hm, hm.mem, st`log, st`length, st.file, ck
      ensures Valid()
      ensures err ==
        if |value| < 24 then ValueTooShort
        else if !old(HasRoom()) then TableFull
        else if CasAccepts(old(Model()), key, value) && !st.Fits(old(st.length), key, CasNew(value)) then StoreFull
        else CasRefusal(old(Model()), key, value)
      ensures Model() == if err.NoError? then old(Model())[key := value[16..]] else old(Model())
      ensures old(Durable()) ==> Durable()
      ensures old(Summed()) && !(err.StoreFull? && key in old(Model())) ==> Summed()
      ensures old(Summed()) && err.StoreFull? && key in old(Model()) ==>
        ck.newSum == StateChecksum(Model() - {key})
      ensures ck.View() ==
        if err.NoError? then With(Without(old(ck.View()), old(Model()), key, Stamp(value[16..])), key, value[16..])
        else if err.StoreFull? then Without(old(ck.View()), old(Model()), key, Stamp(value[16..]))
        else old(ck.View())
      ensures hm.mem == old(hm.mem) || fresh(hm.mem)
      ensures st.length == old(st.length) + (if err.NoError? then PairSize(key, value[16..]) else 0)
      ensures st.log == if err.NoError? then old(st.log) + [Record(key, value[16..])] else old(st.log)
      ensures old(NoMarkers(hm.table)) ==> NoMarkers(hm.table)
      ensures IndexLoad() ==
        if |value| < 24 then old(IndexLoad())
        else Taken(Grown(old(IndexLoad()), |old(Model())|), err.NoError? && key !in old(Model()))
    {
      if |value| < 24 {
        return ValueTooShort;
      }
      var ok := EnsureRoom();
      if !ok {
        return TableFull;
      }
      err := CasWithRoom(h64, key, value);
    }

    method CasWithRoom(h64: u64, key: bytes, value: bytes) returns (err: Error)
      requires Valid() && h64 == FNV1a64(key) && |value| >= 24
      requires hm.numStoredKeys < hm.numKeysToExpand
      modifies this, hm`table, hm`numStoredKeys, hm.mem, st`log, st`length, st.file, ck
      ensures Valid()
      ensures err ==
        if CasAccepts(old(Model()), key, value) && !st.Fits(old(st.length), key, CasNew(value)) then StoreFull
        else CasRefusal(old(Model()), key, value)
      ensures Model() == if err.NoError? then old(Model())[key := value[16..]] else old(Model())
      ensures old(Durable()) ==> Durable()
      ensures old(Summed()) && !(err.StoreFull? && key in old(Model())) ==> Summed()
      ensures old(Summed()) && err.StoreFull? && key in old(Model()) ==>
        ck.newSum == StateChecksum(Model() - {key})
      ensures ck.View() ==
        if err.NoError? then With(Without(old(ck.View()), old(Model()), key, Stamp(value[16..])), key, value[16..])
        else if err.StoreFull? then Without(old(ck.View()), old(Model()), key, Stamp(value[16..]))
        else old(ck.View())
      ensures st.length == old(st.length) + (if err.NoError? then PairSize(key, value[16..]) else 0)
      ensures st.log == if err.NoError? then old(st.log) + [Record(key, value[16..])] else old(st.log)
      ensures old(NoMarkers(hm.table)) ==> NoMarkers(hm.table)
      ensures IndexLoad() == Taken(old(IndexLoad()), err.NoError? && key !in old(Model()))
    {
      var h := HashReMap(Low32(h64));
      var found, index := Find(h, key);
      var v := Absent;
      if found {
        var stored := CurrentValue(index, key);
        v := Found(stored);
      }
      err := CasTest(v, value);
      CasTestDecides(Model(), key, value);
      if err.NoError? {
        err := Swap(h64, index, h, key, value[16..], v);
      }
    }

    /** The writing half of CAS: the checksum loses the old pair before the store may refuse. */
    method Swap(h64: u64, index: nat, h: u32, key: bytes, value: bytes, v: Lookup) returns (err: Error)
      requires Valid() && h64 == FNV1a64(key) && h == IndexHash(key) && |value| >= 8
      requires Slot(image.t, image.log, image.pos, key, index)
      requires if key in image.pos then hm.table[index].hash == h
        else hm.numStoredKeys < hm.numKeysToExpand && Unbroken(hm.table, Home(h, hm.size), index)
      requires key in image.pos <==> key in Model()
      requires v == LookupIn(Model(), key)
      modifies this, hm`table, hm`numStoredKeys, hm.mem, st`log, st`length, st.file, ck
      ensures Valid() && err == if st.Fits(old(st.length), key, value) then NoError else StoreFull
      ensures Model() == if err.NoError? then old(Model())[key := value] else old(Model())
      ensures old(Durable()) ==> Durable()
      ensures old(Summed()) && (err.NoError? || v.Absent?) ==> Summed()
      ensures old(Summed()) && !err.NoError? && v.Found? ==> ck.newSum == StateChecksum(Model() - {key})
      ensures var w := Without(old(ck.View()), old(Model()), key, Stamp(value));
        ck.View() == if err.NoError? then With(w, key, value) else w
      ensures st.length == old(st.length) + (if err.NoError? then PairSize(key, value) else 0)
      ensures st.log == if err.NoError? then old(st.log) + [Record(key, value)] else old(st.log)
      ensures old(NoMarkers(hm.table)) ==> NoMarkers(hm.table)
      ensures IndexLoad() == Taken(old(IndexLoad()), err.NoError? && key !in old(Model()))
    {
      ghost var before := Model();
      if v.Absent? {
        MapSums.AbsentRemove(before, key);
      }
      TakeOut(h64, key, v, Stamp(value), before);
      err := Write(index, h, key, value);
      if err.NoError? {
        AddIn(h64, key, value, before);
      }
    }

    /**
      Del: remove the pair unless it is newer. The pair is gone even when the store has
      no room for the tombstone; then, and only then, the log no longer tells so.
     */
    method Del(h64: u64, key: bytes, value: bytes) returns (err: Error)
      requires Valid() && h64 == FNV1a64(key) && (key in Model() ==> |value| >= 8)
      modifies this, hm`table, hm.mem, st`log, st`length, st`deleted, st.file, ck
      ensures Valid()
      ensures Model() == DelSpec(old(Model()), key, value)
      ensures err == if Deletes(old(Model()), key, value) && !st.Fits(old(st.length), key, [])
        then StoreFull else NoError
      ensures old(Durable()) ==> (Durable() <==> err.NoError?)
      ensures old(Summed()) ==> Summed()
      ensures ck.View() == if Deletes(old(Model()), key, value)
        then Without(old(ck.View()), old(Model()), key, Stamp(value)) else old(ck.View())
      ensures st.length == old(st.length) +
        (if Deletes(old(Model()), key, value) && err.NoError? then PairSize(key, []) else 0)
      ensures st.log == if Deletes(old(Model()), key, value) && err.NoError?
        then old(st.log) + [Record(key, [])] else old(st.log)
      ensures old(st.Blank()) ==> st.Blank()
      ensures st.deleted == old(st.deleted) +
        (if Deletes(old(Model()), key, value) then PairSize(key, old(Model())[key]) else 0)
      ensures Deletes(old(Model()), key, value) ==>
        exists i :: ErasedAt(old(hm.table), hm.table, old(st.log), old(image.pos), key, i)
    {
      var h := HashReMap(Low32(h64));
      var found, index := Find(h, key);
      if !found {
        return NoError;
      }
      var v := CurrentValue(index, key);
      if Stamp(value) < Stamp(v) {
        return NoError;
      }
      TakeOut(h64, key, Found(v), Stamp(value), Model());
      Unlink(index, key, v);
      err := Bury(key);
    }

    /** Count the pair as deleted and mark its bucket. */
    method Unlink(index: nat, key: bytes, v: bytes)
      requires Valid() && key in image.pos && Slot(image.t, image.log, image.pos, key, index)
      requires key in Model() && v == Model()[key] && Live(hm.table[index])
      modifies this, hm`table, hm.mem, st`deleted
      ensures Valid() && Model() == old(Model()) - {key}
      ensures image.pos == old(image.pos) - {key} && key in LastPos(image.log)
      ensures st.log == old(st.log) && st.length == old(st.length)
      ensures ErasedAt(old(hm.table), hm.table, st.log, old(image.pos), key, index)
      ensures st.deleted == old(st.deleted) + PairSize(key, v)
    {
      EraseRepresents(image, key, index);
      st.deleted := st.deleted + 12 + |key| + |v|;
      hm.Erase(index);
      image := AfterErase(image, key, index);
    }

    /** Append the tombstone of an unlinked key. */
    method Bury(key: bytes) returns (err: Error)
      requires Valid() && key !in image.pos && key in LastPos(image.log)
      modifies this, st`log, st`length, st.file
      ensures Valid() && Model() == old(Model())
      ensures err == if st.Fits(old(st.length), key, []) then NoError else StoreFull
      ensures old(st.Blank()) ==> st.Blank()
      ensures image.pos == old(image.pos)
      ensures err.NoError? && image.pos == LastPos(old(image.log)) - {key} ==> image.pos == LastPos(image.log)
      ensures !err.NoError? ==> image.log == old(image.log)
      ensures st.length == old(st.length) + (if err.NoError? then PairSize(key, []) else 0)
      ensures err.NoError? ==> st.log == old(st.log) + [Record(key, [])]
    {
      TombstoneRepresents(image, key);
      var r := st.Put(key, []);
      if r.Denied? {
        return StoreFull;
      }
      image := AfterTombstone(image, key);
      return NoError;
    }
  }

  /** The outcome of a write: done, or refused without a trace. */
  ghost predicate Written(m: Dict, m': Dict, log: seq<Record>, log': seq<Record>, k: bytes, v: bytes, err: Error) {
    if err.NoError?
    then m' == m[k := v] && log' == log + [Record(k, v)]
    else m' == m && log' == log
  }

  /** The table holds no deleted markers. */
  ghost predicate NoMarkers(t: Table) {
    forall b :: b in t ==> b.hash != DELETED_BUCKET
  }

  lemma NoMarkersPut(t: Table, i: nat, b: Bucket)
    requires NoMarkers(t) && i < |t| && b.hash != DELETED_BUCKET
    ensures NoMarkers(t[i := b])
  {
  }
}
