/** The in-memory hash index of core/pmap/hashmap.go. */
module HashMaps {
  import opened Bytes
  import opened Guards
  import opened Tables
  import Bits

  const DEFAULT_INITIAL_LOG2_SIZE := 16
  const DEFAULT_SIZE_LIMIT := 1024 * 1024 * 64
  const MAX_SIZE := 0x1000_0000

  /** The largest number of stored keys: floor(0.7 * size). */
  function LoadLimit(size: nat): (r: nat)
    ensures size > 0 ==> r < size
  {
    size * 7 / 10
  }

  /** The size of an index and the number of its non-empty buckets. */
  datatype Load = Load(size: nat, stored: nat)

  /** The index can take one more key, if need be by doubling. */
  predicate Room(l: Load) {
    l.stored < LoadLimit(l.size) || 2 * l.size <= DEFAULT_SIZE_LIMIT
  }

  /** The load check: an index at its limit doubles and keeps only its live buckets. */
  function Grown(l: Load, live: nat): Load {
    if l.stored >= LoadLimit(l.size) && 2 * l.size <= DEFAULT_SIZE_LIMIT
    then Load(2 * l.size, live)
    else l
  }

  /** A new key takes a bucket. */
  function Taken(l: Load, isNew: bool): Load {
    if isNew then l.(stored := l.stored + 1) else l
  }

  /** Sizes are powers of two up to the limit. */
  ghost predicate Regular(l: Load) {
    l.size <= DEFAULT_SIZE_LIMIT && exists k: nat :: l.size == Bits.Pow2(k)
  }

  lemma GrownRegular(l: Load, live: nat)
    requires Regular(l)
    ensures Regular(Grown(l, live))
  {
    var k: nat :| l.size == Bits.Pow2(k);
    assert 2 * l.size == Bits.Pow2(k + 1);
  }

  /** With fewer buckets in use than the largest table can take, an expansion never fails. */
  lemma RoomBelowLimit(l: Load)
    requires Regular(l) && l.stored < LoadLimit(DEFAULT_SIZE_LIMIT)
    ensures Room(l)
  {
    var k: nat :| l.size == Bits.Pow2(k);
    Bits.Pow2Of26();
    if 2 * l.size > DEFAULT_SIZE_LIMIT {
      Bits.LastDoubling(k, 26);
    }
  }

  /** Seven tenths, for the first table and the largest one. */
  lemma LoadLimits()
    ensures LoadLimit(65536) == 45875 && LoadLimit(DEFAULT_SIZE_LIMIT) == 46976204
  {
  }

  /** Two 32-bit registers per bucket: the hash at 2i and the store index at 2i + 1. */
  ghost predicate Layout(m: seq<u32>, t: Table) {
    && |m| == 8 * |t|
    && forall i :: 0 <= i < |t| ==> m[2 * i] == t[i].hash && m[2 * i + 1] == t[i].index
  }

  ghost predicate Holds(m: seq<u32>, t: Table) {
    |m| == 8 * |t| && forall n: int {:trigger Asked(n)} :: Asked(n) ==> Layout(m, t)
  }

  lemma HeldAt(m: seq<u32>, t: Table, i: nat)
    requires Holds(m, t) && i < |t|
    ensures m[2 * i] == t[i].hash && m[2 * i + 1] == t[i].index
  {
    assert Asked(0);
  }

  lemma HoldsHash(m: seq<u32>, t: Table, i: nat, h: u32)
    requires Holds(m, t) && i < |t|
    ensures Holds(m[2 * i := h], t[i := t[i].(hash := h)])
  {
    assert Asked(0);
  }

  lemma HoldsIndex(m: seq<u32>, t: Table, i: nat, x: u32)
    requires Holds(m, t) && i < |t|
    ensures Holds(m[2 * i + 1 := x], t[i := t[i].(index := x)])
  {
    assert Asked(0);
  }

  /** Exact count of the non-empty buckets, bounded load, unbroken chains. */
  ghost predicate IndexInvariant(t: Table, stored: nat, limit: nat) {
    && stored == Occupied(t) <= limit
    && Probing(t)
  }

  class HashMap {
    const sizeLimit: nat
    var size: nat
    var sizeMask: nat
    var sizelog2: nat
    var numKeysToExpand: nat
    var numStoredKeys: nat
    var mem: array<u32>
    ghost var table: Table

    ghost predicate Sized()
      reads this
    {
      && size == Bits.Pow2(sizelog2)
      && sizeMask == size - 1
      && numKeysToExpand == LoadLimit(size)
      && size <= sizeLimit <= MAX_SIZE
    }

    /** `table` is what `mem` holds. */
    ghost predicate Shaped()
      reads this, mem
    {
      Sized() && |table| == size && Holds(mem[..], table)
    }

    ghost predicate Valid()
      reads this, mem
    {
      Shaped() && IndexInvariant(table, numStoredKeys, numKeysToExpand)
    }

    constructor (initialLog2Size: nat, sizeLimit: nat)
      requires Bits.Pow2(initialLog2Size) <= sizeLimit <= MAX_SIZE
      ensures Valid() && fresh(mem)
      ensures sizelog2 == initialLog2Size && this.sizeLimit == sizeLimit
      ensures numStoredKeys == 0
      ensures forall b :: b in table ==> b.hash == EMPTY_BUCKET
    {
      this.sizeLimit := sizeLimit;
      numStoredKeys := 0;
      mem := new u32[0];
      new;
      SetSize(initialLog2Size);
      mem := new u32[size * 8](_ => 0);
      table := seq(size, _ => Bucket(EMPTY_BUCKET, 0));
      ZeroMemory(mem[..], table);
    }

    /** Sets sizelog2, size, sizeMask and numKeysToExpand. */
    method SetSize(log2Size: nat)
      requires Bits.Pow2(log2Size) <= sizeLimit <= MAX_SIZE
      modifies `sizelog2, `size, `sizeMask, `numKeysToExpand
      ensures Sized() && sizelog2 == log2Size
    {
      sizelog2 := log2Size;
      size := Bits.Pow2(log2Size);
      sizeMask := 0;
      for i := 0 to log2Size
        invariant sizeMask == Bits.Pow2(i) - 1
        invariant sizelog2 == log2Size && size == Bits.Pow2(log2Size)
      {
        Bits.OrNextBit(i);
        sizeMask := Bits.Or(sizeMask, Bits.Pow2(i));
      }
      numKeysToExpand := LoadLimit(size);
    }

    function GetHash(i: nat): u32
      requires 2 * i < mem.Length
      reads this, mem
    {
      mem[2 * i]
    }

    function GetStoreIndex(i: nat): u32
      requires 2 * i + 1 < mem.Length
      reads this, mem
    {
      mem[2 * i + 1]
    }

    method SetHash(i: nat, hash: u32)
      requires Shaped() && i < size
      modifies `table, mem
      ensures Shaped() && table == old(table)[i := old(table)[i].(hash := hash)]
    {
      HoldsHash(mem[..], table, i, hash);
      ghost var m := mem[..];
      mem[2 * i] := hash;
      assert mem[..] == m[2 * i := hash];
      table := table[i := table[i].(hash := hash)];
    }

    method SetStoreIndex(i: nat, index: u32)
      requires Shaped() && i < size
      modifies `table, mem
      ensures Shaped() && table == old(table)[i := old(table)[i].(index := index)]
    {
      HoldsIndex(mem[..], table, i, index);
      ghost var m := mem[..];
      mem[2 * i + 1] := index;
      assert mem[..] == m[2 * i + 1 := index];
      table := table[i := table[i].(index := index)];
    }

    /** The registers of a bucket. */
    lemma Registers(i: nat)
      requires Shaped() && i < size
      ensures 2 * i + 1 < mem.Length && GetHash(i) == table[i].hash && GetStoreIndex(i) == table[i].index
    {
      HeldAt(mem[..], table, i);
    }

    /** The bitwise masks are the cyclic arithmetic of the table. */
    lemma Masks(h: u32, i: nat)
      requires Sized() && i < size
      ensures Bits.And(h, sizeMask) == Home(h, size)
      ensures Bits.And(i + 1, sizeMask) == NextSlot(i, size)
    {
      Bits.AndMask(h, sizelog2);
      Bits.AndMask(i + 1, sizelog2);
      if i + 1 < size {
        Bits.RemainderUnique(i + 1, size, 0, i + 1);
      } else {
        Bits.RemainderUnique(i + 1, size, 1, 0);
      }
    }

    /** First empty slot in the probe order of `h`. */
    method FindEmpty(h: u32) returns (index: nat)
      requires Valid() && numStoredKeys < size
      ensures index < size && table[index].hash == EMPTY_BUCKET
      ensures Unbroken(table, Home(h, size), index)
    {
      ghost var e := EmptySlot(table);
      ghost var home := Home(h, size);
      Masks(h, 0);
      index := Bits.And(h, sizeMask);
      Registers(index);
      while GetHash(index) != EMPTY_BUCKET
        invariant index < size && GetHash(index) == table[index].hash
        invariant Unbroken(table, home, index)
        invariant Dist(home, index, size) <= Dist(home, e, size)
        decreases size - Dist(home, index, size)
      {
        Masks(h, index);
        ProbeStep(table, home, index, e);
        index := Bits.And(index + 1, sizeMask);
        Registers(index);
      }
    }

    /** Put a live bucket in the empty slot that ends its probe. */
    method Occupy(index: nat, h: u32, storeIndex: u32)
      requires Valid() && numStoredKeys < numKeysToExpand && h > DELETED_BUCKET
      requires index < size && table[index].hash == EMPTY_BUCKET
      requires Unbroken(table, Home(h, size), index)
      requires NoIndex(table, storeIndex)
      modifies `table, `numStoredKeys, mem
      ensures Valid() && numStoredKeys == old(numStoredKeys) + 1
      ensures table == old(table)[index := Bucket(h, storeIndex)]
    {
      ghost var t, b := table, Bucket(h, storeIndex);
      OpenProbing(t);
      SetHash(index, h);
      SetStoreIndex(index, storeIndex);
      numStoredKeys := numStoredKeys + 1;
      assert table == t[index := b];
      PlaceKeepsChains(t, index, b);
      OccupiedUpdate(t, index, b);
      CloseProbing(table);
    }

    /** Point a live bucket at another record. */
    method Redirect(index: nat, h: u32, storeIndex: u32)
      requires Valid() && index < size && table[index].hash == h > DELETED_BUCKET
      requires NoIndex(table, storeIndex)
      modifies `table, mem
      ensures Valid() && table == old(table)[index := Bucket(h, storeIndex)]
    {
      ghost var t, b := table, Bucket(h, storeIndex);
      OpenProbing(t);
      SetHash(index, h);
      SetStoreIndex(index, storeIndex);
      assert table == t[index := b];
      PlaceKeepsChains(t, index, b);
      OccupiedUpdate(t, index, b);
      CloseProbing(table);
    }

    /** Lazy deletion: the slot stays non-empty, so no chain breaks. */
    method Erase(index: nat)
      requires Valid() && index < size && Live(table[index])
      modifies `table, mem
      ensures Valid()
      ensures table == old(table)[index := Bucket(DELETED_BUCKET, old(table)[index].index)]
    {
      ghost var t, b := table, Bucket(DELETED_BUCKET, table[index].index);
      OpenProbing(t);
      SetHash(index, DELETED_BUCKET);
      assert table == t[index := b];
      PlaceKeepsChains(t, index, b);
      OccupiedUpdate(t, index, b);
      CloseProbing(table);
    }

    /** The inner search of `Expand`, placing one more live bucket of the old table. */
    method Insert(h: u32, storeIndex: u32, ghost done: Table)
      requires Valid() && numStoredKeys < numKeysToExpand && h > DELETED_BUCKET
      requires Mirrors(table, done) && NoIndex(done, storeIndex)
      modifies `table, `numStoredKeys, mem
      ensures Valid() && numStoredKeys == old(numStoredKeys) + 1
      ensures Mirrors(table, done + [Bucket(h, storeIndex)])
    {
      var index := FindEmpty(h);
      ghost var t, b := table, Bucket(h, storeIndex);
      MirrorsIndex(t, done, storeIndex);
      Occupy(index, h, storeIndex);
      MirrorsAdd(t, done, index, b);
    }

    /** The outer loop of `Expand`: copy the live buckets of `src`. */
    method Fill(src: HashMap)
      requires Valid() && src.Valid() && src != this && src.mem != mem
      requires numStoredKeys == 0 && Occupied(src.table) <= numKeysToExpand
      requires forall b :: b in table ==> b.hash == EMPTY_BUCKET
      modifies `table, `numStoredKeys, mem
      ensures Valid() && numStoredKeys == LiveCount(src.table)
      ensures Mirrors(table, src.table)
    {
      ghost var t := src.table;
      LiveAtMostOccupied(t);
      for i := 0 to src.size
        invariant Valid() && numStoredKeys == LiveCount(t[..i])
        invariant Mirrors(table, t[..i])
      {
        TakeOneMore(t, i);
        src.Registers(i);
        var h := src.GetHash(i);
        if h > DELETED_BUCKET {
          OpenProbing(t);
          DistinctPrefix(t, i);
          Insert(h, src.GetStoreIndex(i), t[..i]);
        } else {
          MirrorsSkip(table, t[..i], t[i]);
        }
      }
      assert t[..src.size] == t;
    }

    /** The struct assignment `*m = *newHM`. */
    method Become(other: HashMap)
      requires other.Valid() && other.sizeLimit == sizeLimit
      modifies this
      ensures Valid() && size == other.size && mem == other.mem && table == other.table
      ensures numStoredKeys == other.numStoredKeys && numKeysToExpand == other.numKeysToExpand
    {
      size, sizeMask, sizelog2 := other.size, other.sizeMask, other.sizelog2;
      numKeysToExpand, numStoredKeys := other.numKeysToExpand, other.numStoredKeys;
      mem, table := other.mem, other.table;
    }

    /**
      Double the table and re-insert the live buckets; deleted markers are dropped.
      It fails exactly when the doubled size would pass the limit.
     */
    method Expand() returns (ok: bool)
      requires Valid()
      modifies this
      ensures Valid()
      ensures ok <==> 2 * old(size) <= sizeLimit
      ensures !ok ==> unchanged(this)
      ensures ok ==> size == 2 * old(size) && fresh(mem)
      ensures ok ==> numStoredKeys == LiveCount(old(table)) < numKeysToExpand
      ensures ok ==> Mirrors(table, old(table))
    {
      if size * 2 > sizeLimit {
        return false;
      }
      var newHM := new HashMap(sizelog2 + 1, sizeLimit);
      LiveAtMostOccupied(table);
      newHM.Fill(this);
      Become(newHM);
      return true;
    }
  }

  /** Zeroed memory is a table of empty buckets. */
  lemma ZeroMemory(m: seq<u32>, t: Table)
    requires |m| == 8 * |t| && (forall i :: 0 <= i < |m| ==> m[i] == 0)
    requires forall i :: 0 <= i < |t| ==> t[i] == Bucket(EMPTY_BUCKET, 0)
    ensures Holds(m, t) && IndexInvariant(t, 0, LoadLimit(|t|))
    ensures forall b :: b in t ==> b.hash == EMPTY_BUCKET
  {
    EmptyTable(t);
    CloseProbing(t);
  }

  /** No live bucket points at `x`. */
  ghost predicate NoIndex(t: Table, x: nat) {
    forall b :: b in t && Live(b) ==> b.index != x
  }

  /** `t` holds exactly the live buckets of `u` and no deleted marker. */
  ghost predicate Mirrors(t: Table, u: Table) {
    && (forall b :: Live(b) ==> (b in t <==> b in u))
    && (forall b :: b in t ==> b.hash != DELETED_BUCKET)
  }

  lemma MirrorsIndex(t: Table, u: Table, x: nat)
    requires Mirrors(t, u) && NoIndex(u, x)
    ensures NoIndex(t, x)
  {
  }

  lemma MirrorsAdd(t: Table, u: Table, i: nat, b: Bucket)
    requires Mirrors(t, u) && Live(b)
    requires i < |t| && t[i].hash == EMPTY_BUCKET
    ensures Mirrors(t[i := b], u + [b])
  {
    var t' := t[i := b];
    forall x | Live(x)
      ensures x in t' <==> x in u + [b]
    {
      if x in t {
        var j :| 0 <= j < |t| && t[j] == x;
        assert t'[j] == x;
      }
      assert t'[i] == b;
    }
  }

  lemma MirrorsSkip(t: Table, u: Table, b: Bucket)
    requires Mirrors(t, u) && !Live(b)
    ensures Mirrors(t, u + [b])
  {
  }

  lemma TakeOneMore(t: Table, i: nat)
    requires i < |t|
    ensures t[..i + 1] == t[..i] + [t[i]]
    ensures LiveCount(t[..i + 1]) == LiveCount(t[..i]) + (if Live(t[i]) then 1 else 0) <= LiveCount(t)
  {
    assert t[..i + 1][..i] == t[..i];
    LiveCountPrefix(t, i + 1);
  }

  lemma DistinctPrefix(t: Table, i: nat)
    requires i < |t| && Distinct(t) && Live(t[i])
    ensures NoIndex(t[..i], t[i].index)
  {
  }

  /** One more probe step over a non-empty slot; an empty slot `e` is not passed. */
  lemma ProbeStep(t: Table, home: nat, i: nat, e: nat)
    requires home < |t| && i < |t| && e < |t|
    requires Unbroken(t, home, i) && t[i].hash != EMPTY_BUCKET && t[e].hash == EMPTY_BUCKET
    requires Dist(home, i, |t|) <= Dist(home, e, |t|)
    ensures var i' := NextSlot(i, |t|);
      && Dist(home, i', |t|) == Dist(home, i, |t|) + 1 <= Dist(home, e, |t|)
      && Unbroken(t, home, i')
  {
    var i' := NextSlot(i, |t|);
    assert Dist(home, i', |t|) == Dist(home, i, |t|) + 1;
    forall q | 0 <= q < |t| && Dist(home, q, |t|) < Dist(home, i', |t|)
      ensures t[q].hash != EMPTY_BUCKET
    {
      assert q == i || Dist(home, q, |t|) < Dist(home, i, |t|);
    }
  }
}
