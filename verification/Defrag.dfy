/** Defragmentation (core/defrag.go): copy the present pairs into a fresh map. */
module Defragmentation {
  import opened Bytes
  import opened Guards
  import opened Hashing
  import opened Records
  import opened Tables
  import opened HashMaps
  import opened Dictionary
  import opened Links
  import opened Representation
  import opened Views
  import opened PMaps
  import opened Replay
  import opened Iteration
  import Capacity
  import MapSums
  import Bits

  // ---------------------------------------------------- what the copy holds

  /** The first record of each key that isPresent selects, among the records before `n`. */
  function FirstCopies(log: seq<Record>, view: Positions, n: nat): Dict
    requires n <= |log|
  {
    if n == 0 then map[]
    else
      var m, r := FirstCopies(log, view, n - 1), log[n - 1];
      if IsPresent(log, view, n - 1) && r.key !in m then m[r.key := r.val] else m
  }

  /** The first record of each key. */
  function Firsts(ps: seq<Record>): Dict {
    if ps == [] then map[]
    else
      var m, r := Firsts(ps[..|ps| - 1]), ps[|ps| - 1];
      if r.key !in m then m[r.key := r.val] else m
  }

  lemma FirstsSnoc(ps: seq<Record>, r: Record)
    ensures Firsts(ps + [r]) == if r.key in Firsts(ps) then Firsts(ps) else Firsts(ps)[r.key := r.val]
    ensures Offset(ps + [r], |ps + [r]|) == Offset(ps, |ps|) + RecordSize(r)
  {
    assert (ps + [r])[..|ps|] == ps;
    OffsetAppend(ps, r, |ps|);
  }

  lemma {:induction false} FirstsOfPresent(log: seq<Record>, view: Positions, n: nat)
    requires n <= |log|
    ensures Firsts(PresentUpTo(log, view, n)) == FirstCopies(log, view, n)
    ensures var ps := PresentUpTo(log, view, n); Offset(ps, |ps|) <= Offset(log, n)
  {
    if n > 0 {
      FirstsOfPresent(log, view, n - 1);
      var ps := PresentUpTo(log, view, n - 1);
      if IsPresent(log, view, n - 1) {
        FirstsSnoc(ps, log[n - 1]);
      } else {
        assert ps + [] == ps;
      }
    }
  }

  /** isPresent selects record `i` and no earlier record of its key. */
  ghost predicate Leads(log: seq<Record>, view: Positions, i: nat)
    requires i < |log|
  {
    && IsPresent(log, view, i)
    && forall j :: 0 <= j < i && log[j].key == log[i].key ==> !IsPresent(log, view, j)
  }

  lemma {:induction false} CopiedFrom(log: seq<Record>, view: Positions, n: nat, k: bytes)
    requires n <= |log|
    ensures k in FirstCopies(log, view, n) <==> exists i :: 0 <= i < n && IsPresent(log, view, i) && log[i].key == k
    ensures k in FirstCopies(log, view, n) ==>
      exists i :: 0 <= i < n && Leads(log, view, i) && log[i] == Record(k, FirstCopies(log, view, n)[k])
  {
    if n > 0 {
      CopiedFrom(log, view, n - 1, k);
      if IsPresent(log, view, n - 1) && log[n - 1].key == k && k !in FirstCopies(log, view, n - 1) {
        assert Leads(log, view, n - 1);
      }
    }
  }

  lemma LeadIsCopied(log: seq<Record>, view: Positions, i: nat)
    requires i < |log| && Leads(log, view, i)
    ensures var c := FirstCopies(log, view, |log|); log[i].key in c && c[log[i].key] == log[i].val
  {
    var k := log[i].key;
    CopiedFrom(log, view, |log|, k);
    var j :| 0 <= j < |log| && Leads(log, view, j) && log[j] == Record(k, FirstCopies(log, view, |log|)[k]);
    assert i == j;
  }

  /** The first selected record of every key has the value of its current one. */
  ghost predicate LeadersAgree(log: seq<Record>, view: Positions, pos: Positions) {
    forall i :: 0 <= i < |log| && Leads(log, view, i) ==>
      log[i].key in pos && pos[log[i].key] < |log| && log[i].val == log[pos[log[i].key]].val
  }

  lemma SeenIsCopied(log: seq<Record>, view: Positions, k: bytes)
    requires Sees(log, view)
    ensures k in FirstCopies(log, view, |log|) <==> k in view
  {
    CopiedFrom(log, view, |log|, k);
    if k in view {
      assert IsPresent(log, view, view[k]);
    }
  }

  lemma CopyOfLeaders(log: seq<Record>, view: Positions, pos: Positions)
    requires Current(log, pos) && Sees(log, view) && pos.Keys <= view.Keys && LeadersAgree(log, view, pos)
    ensures FirstCopies(log, view, |log|) == Contents(log, pos)
  {
    var c, m := FirstCopies(log, view, |log|), Contents(log, pos);
    forall k
      ensures k in c <==> k in m
      ensures k in c && k in m ==> c[k] == m[k]
    {
      SeenIsCopied(log, view, k);
      CopiedFrom(log, view, |log|, k);
    }
  }

  /** The copy is the map if and only if Get sees every live key and those values agree. */
  lemma CopyExact(log: seq<Record>, view: Positions, pos: Positions)
    requires Current(log, pos) && Sees(log, view)
    ensures FirstCopies(log, view, |log|) == Contents(log, pos) <==> pos.Keys <= view.Keys && LeadersAgree(log, view, pos)
  {
    if pos.Keys <= view.Keys && LeadersAgree(log, view, pos) {
      CopyOfLeaders(log, view, pos);
    }
    if FirstCopies(log, view, |log|) == Contents(log, pos) {
      forall k | k in pos
        ensures k in view
      {
        assert k in Contents(log, pos);
        SeenIsCopied(log, view, k);
      }
      forall i | 0 <= i < |log| && Leads(log, view, i)
        ensures log[i].key in pos && log[i].val == log[pos[log[i].key]].val
      {
        LeadIsCopied(log, view, i);
        assert log[i].key in Contents(log, pos);
      }
    }
  }

  /** Without imitation the leaders are the records that Get sees. */
  lemma HonestLeaders(log: seq<Record>, pos: Positions)
    requires Current(log, pos) && WellFormed(log) && NoImitation(log, pos)
    ensures LeadersAgree(log, pos, pos)
  {
    CurrentSees(log, pos);
    forall i | 0 <= i < |log| && Leads(log, pos, i)
      ensures log[i].key in pos && log[i].val == log[pos[log[i].key]].val
    {
      PresentMeans(log, pos, i);
    }
  }

  // ------------------------------------------------------------- the copy

  /** What an iteration hands out: the pairs, the live keys, and the sizes of the old map. */
  datatype Haul = Haul(ps: seq<Record>, keys: set<bytes>, fileSize: nat, tableLog2: nat)

  /** Records of one key have one timestamp; keys and bytes are within the old map's. */
  ghost predicate Bounded(h: Haul) {
    && (forall i :: 0 <= i < |h.ps| ==> h.ps[i].key in h.keys && (h.ps[i].val == [] || |h.ps[i].val| >= 8))
    && (forall i, j :: 0 <= i < j < |h.ps| && h.ps[i].key == h.ps[j].key && h.ps[i].val != [] && h.ps[j].val != [] ==>
          StampWord(h.ps[i].val) == StampWord(h.ps[j].val))
    && |h.keys| <= LoadLimit(Bits.Pow2(h.tableLog2)) && Bits.Pow2(h.tableLog2) <= DEFAULT_SIZE_LIMIT
    && (h.ps != [] ==> Offset(h.ps, |h.ps|) < h.fileSize)
  }

  ghost predicate Sound(h: Haul) {
    forall n: int {:trigger Asked(n)} :: Asked(n) ==> Bounded(h)
  }

  lemma CloseHaul(h: Haul)
    requires Bounded(h)
    ensures Sound(h)
  {
  }

  lemma OpenHaul(h: Haul)
    requires Sound(h)
    ensures Bounded(h)
  {
    assert Asked(0);
  }

  /** No value of the first `n` is empty, which Set would refuse. */
  ghost predicate PairsOnly(ps: seq<Record>, n: nat) {
    forall i :: 0 <= i < n && i < |ps| ==> ps[i].val != []
  }

  ghost predicate NoTombstone(ps: seq<Record>) {
    PairsOnly(ps, |ps|)
  }

  ghost predicate NoRepeat(ps: seq<Record>) {
    forall i, j :: 0 <= i < j < |ps| ==> ps[i].key != ps[j].key
  }

  lemma {:induction false} FirstsFrom(ps: seq<Record>, k: bytes)
    ensures k in Firsts(ps) ==> exists i :: 0 <= i < |ps| && ps[i] == Record(k, Firsts(ps)[k])
  {
    if ps != [] {
      FirstsFrom(ps[..|ps| - 1], k);
    }
  }

  /** Later records of a copied key are not newer, so Set leaves the copy alone. */
  lemma CopiedNotNewer(h: Haul, n: nat)
    requires Sound(h) && n < |h.ps| && PairsOnly(h.ps, n + 1) && h.ps[n].key in Firsts(h.ps[..n])
    ensures !Newer(Firsts(h.ps[..n]), h.ps[n].key, h.ps[n].val)
  {
    OpenHaul(h);
    var m, r := Firsts(h.ps[..n]), h.ps[n];
    FirstsFrom(h.ps[..n], r.key);
    var i :| 0 <= i < n && h.ps[..n][i] == Record(r.key, m[r.key]);
    assert h.ps[i] == Record(r.key, m[r.key]);
  }

  lemma CopyIsSet(h: Haul, n: nat)
    requires Sound(h) && n < |h.ps| && PairsOnly(h.ps, n + 1)
    ensures var m, r := Firsts(h.ps[..n]), h.ps[n];
      && Firsts(h.ps[..n + 1]) == SetSpec(m, r.key, r.val)
      && (Newer(m, r.key, r.val) <==> r.key !in m)
  {
    assert h.ps[..n + 1] == h.ps[..n] + [h.ps[n]];
    FirstsSnoc(h.ps[..n], h.ps[n]);
    if h.ps[n].key in Firsts(h.ps[..n]) {
      CopiedNotNewer(h, n);
    }
  }

  /** Copied keys are live, so there are fewer of them while one is still to come. */
  lemma CopySize(h: Haul, n: nat)
    requires Sound(h) && n < |h.ps|
    ensures |Firsts(h.ps[..n])| <= |h.keys|
    ensures h.ps[n].key !in Firsts(h.ps[..n]) ==> |Firsts(h.ps[..n])| < |h.keys|
  {
    OpenHaul(h);
    var c := Firsts(h.ps[..n]);
    forall k | k in c
      ensures k in h.keys
    {
      FirstsFrom(h.ps[..n], k);
      var i :| 0 <= i < n && h.ps[..n][i].key == k;
    }
    MapSums.SubsetSize(c.Keys, h.keys);
  }

  lemma NoRepeatIsNew(h: Haul, n: nat)
    requires n < |h.ps| && NoRepeat(h.ps)
    ensures h.ps[n].key !in Firsts(h.ps[..n])
  {
    FirstsFrom(h.ps[..n], h.ps[n].key);
  }

  /** No byte is wasted and no bucket. */
  ghost predicate Compact(c: PMap)
    reads c, c.hm, c.hm.mem, c.st, c.st.file, c.ck
  {
    && c.Valid() && c.Durable() && c.Summed() && c.st.deleted == 0
    && c.st.length == LiveBytes(c.Model()) && c.hm.numStoredKeys == |c.Model()|
  }

  /** The copy of the first `n` pairs. */
  ghost predicate Copying(c: PMap, h: Haul, n: nat)
    reads c, c.hm, c.hm.mem, c.st, c.st.file, c.ck
  {
    && Compact(c) && n <= |h.ps| && c.st.size == h.fileSize && PairsOnly(h.ps, n)
    && c.Model() == Firsts(h.ps[..n]) && c.st.length <= Offset(h.ps, n)
    && (n > 0 ==> |Firsts(h.ps[..n - 1])| < LoadLimit(DEFAULT_SIZE_LIMIT))
    && (NoRepeat(h.ps) ==> c.hm.size <= Bits.Pow2(h.tableLog2))
  }

  lemma {:induction false} FirstsGrow(ps: seq<Record>, n: nat)
    requires n <= |ps|
    ensures |Firsts(ps[..n])| <= |Firsts(ps)|
  {
    if n == |ps| {
      assert ps[..n] == ps;
    } else {
      var q := ps[..|ps| - 1];
      FirstsGrow(q, n);
      assert q[..n] == ps[..n];
      Capacity.SizeAfterPut(Firsts(q), ps[|ps| - 1].key, ps[|ps| - 1].val);
    }
  }

  /** No Set of the copy is refused: no value is empty, and the index is not full before the last one. */
  ghost predicate Copyable(ps: seq<Record>) {
    NoTombstone(ps) && (ps != [] ==> |Firsts(ps[..|ps| - 1])| < LoadLimit(DEFAULT_SIZE_LIMIT))
  }

  lemma NotCopyableAt(ps: seq<Record>, n: nat)
    requires n < |ps| && (ps[n].val == [] || |Firsts(ps[..n])| >= LoadLimit(DEFAULT_SIZE_LIMIT))
    ensures !Copyable(ps)
  {
    var q := ps[..|ps| - 1];
    FirstsGrow(q, n);
    assert q[..n] == ps[..n];
  }

  /** A compact map has room exactly while its pairs are fewer than the largest load limit. */
  lemma CompactRoom(c: PMap)
    requires Compact(c)
    ensures c.HasRoom() <==> |c.Model()| < LoadLimit(DEFAULT_SIZE_LIMIT)
  {
    assert c.hm.size == Bits.Pow2(c.hm.sizelog2);
    if c.hm.numStoredKeys < LoadLimit(DEFAULT_SIZE_LIMIT) {
      RoomBelowLimit(c.IndexLoad());
    }
  }

  /** A pair still to be copied meets room, and no table larger than the old one. */
  lemma NewHasRoom(c: PMap, h: Haul, n: nat)
    requires Sound(h) && Copying(c, h, n) && n < |h.ps|
    requires h.ps[n].key !in c.Model() && c.hm.size <= Bits.Pow2(h.tableLog2)
    ensures c.HasRoom() && Grown(c.IndexLoad(), |c.Model()|).size <= Bits.Pow2(h.tableLog2)
  {
    OpenHaul(h);
    CopySize(h, n);
    if c.hm.numStoredKeys >= LoadLimit(c.hm.size) {
      Bits.RoomToDouble(c.hm.sizelog2, h.tableLog2);
    }
  }

  lemma NewSizeBound(c: PMap, h: Haul, n: nat)
    requires Sound(h) && Copying(c, h, n) && n < |h.ps| && NoRepeat(h.ps)
    ensures Grown(c.IndexLoad(), |c.Model()|).size <= Bits.Pow2(h.tableLog2)
  {
    NoRepeatIsNew(h, n);
    NewHasRoom(c, h, n);
  }

  /** The record fits: the copy is never longer than the records it stems from. */
  lemma RecordFits(h: Haul, n: nat, used: nat)
    requires Sound(h) && n < |h.ps| && used <= Offset(h.ps, n)
    ensures h.ps[n].val == [] || |h.ps[n].val| >= 8
    ensures used + RecordSize(h.ps[n]) <= Offset(h.ps, n + 1) <= Offset(h.ps, |h.ps|) < h.fileSize
  {
    OpenHaul(h);
    if n + 1 < |h.ps| {
      OffsetMonotone(h.ps, n + 1, |h.ps|);
    }
  }

  lemma CompactStep(m: Dict, k: bytes, v: bytes)
    requires |v| >= 8 && k in m ==> !Newer(m, k, v)
    ensures |v| >= 8 ==> LiveBytes(SetSpec(m, k, v)) == LiveBytes(m) + if Newer(m, k, v) then PairSize(k, v) else 0
    ensures |v| >= 8 ==> |SetSpec(m, k, v)| == |m| + if k !in m then 1 else 0
  {
    LiveBytesPut(m, k, v);
    Capacity.SizeAfterPut(m, k, v);
  }

  /** Set of a pair that fits the file. */
  method SetFitting(c: PMap, pair: Record) returns (ok: bool)
    requires c.Valid() && c.st.length + RecordSize(pair) < c.st.size
    modifies c, c.hm, c.hm.mem, c.st`log, c.st`length, c.st.file, c.ck
    ensures c.Valid() && (old(c.Durable()) ==> c.Durable()) && (old(c.Summed()) ==> c.Summed())
    ensures ok <==> |pair.val| >= 8 && old(c.HasRoom())
    ensures ok ==> c.Model() == SetSpec(old(c.Model()), pair.key, pair.val)
    ensures ok ==>
      c.st.length == old(c.st.length) + if Newer(old(c.Model()), pair.key, pair.val) then RecordSize(pair) else 0
    ensures ok ==> c.IndexLoad() == Taken(Grown(old(c.IndexLoad()), |old(c.Model())|), pair.key !in old(c.Model()))
    ensures c.hm.mem == old(c.hm.mem) || fresh(c.hm.mem)
  {
    var err := c.Set(FNV1a64(pair.key), pair.key, pair.val);
    return err.NoError?;
  }

  /** Set in a compact map, of a pair that is new or not newer. */
  method SetCompact(c: PMap, pair: Record) returns (ok: bool)
    requires Compact(c) && c.st.length + RecordSize(pair) < c.st.size
    requires |pair.val| >= 8 && pair.key in c.Model() ==> !Newer(c.Model(), pair.key, pair.val)
    modifies c, c.hm, c.hm.mem, c.st`log, c.st`length, c.st.file, c.ck
    ensures ok <==> |pair.val| >= 8 && old(c.HasRoom())
    ensures ok ==> Compact(c) && c.Model() == SetSpec(old(c.Model()), pair.key, pair.val)
    ensures ok ==> c.st.length <= old(c.st.length) + RecordSize(pair)
    ensures ok ==> c.hm.size == Grown(old(c.IndexLoad()), |old(c.Model())|).size
    ensures c.hm.mem == old(c.hm.mem) || fresh(c.hm.mem)
  {
    CompactStep(c.Model(), pair.key, pair.val);
    ok := SetFitting(c, pair);
  }

  /** The callback of the copy; it panics when Set returns an error. */
  method CopyOne(c: PMap, pair: Record, ghost h: Haul, ghost n: nat) returns (ok: bool)
    requires Sound(h) && Copying(c, h, n) && n < |h.ps| && pair == h.ps[n]
    modifies c, c.hm, c.hm.mem, c.st`log, c.st`length, c.st.file, c.ck
    ensures ok <==> pair.val != [] && |old(c.Model())| < LoadLimit(DEFAULT_SIZE_LIMIT)
    ensures ok ==> Copying(c, h, n + 1)
    ensures c.hm.mem == old(c.hm.mem) || fresh(c.hm.mem)
  {
    RecordFits(h, n, c.st.length);
    CompactRoom(c);
    if pair.val != [] {
      CopyIsSet(h, n);
    }
    if NoRepeat(h.ps) {
      NewSizeBound(c, h, n);
    }
    ok := SetCompact(c, pair);
  }

  /** Set every pair in a fresh map. */
  method CopyAll(pairs: seq<Record>, size: nat, ghost h: Haul) returns (ok: bool, c: PMap)
    requires size <= TWO_32 && Sound(h) && h.ps == pairs && h.fileSize == size && h.tableLog2 >= 16
    ensures fresh(c) && c.st.size == size
    ensures ok <==> Copyable(pairs)
    ensures ok ==> Compact(c) && c.st.size == size && c.Model() == Firsts(pairs)
    ensures ok ==> c.st.length <= Offset(pairs, |pairs|)
    ensures ok && NoRepeat(pairs) ==> c.hm.size <= Bits.Pow2(h.tableLog2)
  {
    c := new PMap(size);
    EmptyCopy(c, h);
    for j := 0 to |pairs|
      invariant fresh(c) && fresh(c.hm) && fresh(c.hm.mem) && fresh(c.st) && fresh(c.st.file) && fresh(c.ck)
      invariant Copying(c, h, j)
    {
      ok := CopyOne(c, pairs[j], h, j);
      if !ok {
        NotCopyableAt(pairs, j);
        return;
      }
    }
    ok := true;
    CopyDone(c, h);
  }

  lemma CopyDone(c: PMap, h: Haul)
    requires Copying(c, h, |h.ps|)
    ensures c.Model() == Firsts(h.ps) && Copyable(h.ps)
  {
    assert h.ps[..|h.ps|] == h.ps;
  }

  lemma EmptyCopy(c: PMap, h: Haul)
    requires c.Valid() && c.Durable() && c.Summed() && c.Model() == map[]
    requires c.st.size == h.fileSize && c.st.length == 0 && c.st.deleted == 0 && c.IndexLoad() == Load(65536, 0)
    requires h.tableLog2 >= 16
    ensures Copying(c, h, 0)
  {
    Bits.Pow2Of16();
    Bits.Pow2Monotone(16, h.tableLog2);
  }

  // ----------------------------------------------------- the whole of it

  /** isPresent selects no tombstone. */
  ghost predicate NoFalseTombstone(log: seq<Record>, view: Positions) {
    forall i :: 0 <= i < |log| && log[i].val == [] ==> !Imitates(log, view, i)
  }

  /** What a full iteration hands out. */
  ghost function Selection(c: PMap): seq<Record>
    reads c.hm, c.st
  {
    PresentUpTo(c.st.log, c.Sight(), |c.st.log|)
  }

  ghost function HaulOf(c: PMap): Haul
    reads c.hm, c.st
  {
    Haul(Selection(c), c.Sight().Keys, c.st.size, c.hm.sizelog2)
  }

  lemma SelectedSound(log: seq<Record>, view: Positions)
    requires Sees(log, view) && WellFormed(log)
    ensures var ps := PresentUpTo(log, view, |log|);
      && (forall i :: 0 <= i < |ps| ==> ps[i].key in view && (ps[i].val == [] || |ps[i].val| >= 8))
      && (forall i, j :: 0 <= i < j < |ps| && ps[i].key == ps[j].key && ps[i].val != [] && ps[j].val != [] ==>
            StampWord(ps[i].val) == StampWord(ps[j].val))
  {
    var ps := PresentUpTo(log, view, |log|);
    forall j | 0 <= j < |ps|
      ensures ps[j].key in view && (ps[j].val == [] || |ps[j].val| >= 8)
      ensures ps[j].val != [] ==> StampWord(ps[j].val) == StampWord(log[view[ps[j].key]].val)
    {
      var i := SelectedFrom(log, view, |log|, j);
    }
  }

  /** A tombstone among the selected records is one that imitates. */
  lemma SelectedTombstones(log: seq<Record>, view: Positions)
    requires Sees(log, view) && WellFormed(log)
    ensures NoTombstone(PresentUpTo(log, view, |log|)) <==> NoFalseTombstone(log, view)
  {
    var ps := PresentUpTo(log, view, |log|);
    if NoTombstone(ps) {
      forall i | 0 <= i < |log| && log[i].val == []
        ensures !Imitates(log, view, i)
      {
        PresentMeans(log, view, i);
        if IsPresent(log, view, i) {
          var j := SelectedAt(log, view, |log|, i);
        }
      }
    }
    if NoFalseTombstone(log, view) {
      forall j | 0 <= j < |ps|
        ensures ps[j].val != []
      {
        var i := SelectedFrom(log, view, |log|, j);
        PresentMeans(log, view, i);
      }
    }
  }

  /** Without imitation every key is selected once. */
  lemma HonestSelection(log: seq<Record>, view: Positions)
    requires Sees(log, view) && WellFormed(log) && NoImitation(log, view)
    ensures NoRepeat(PresentUpTo(log, view, |log|))
  {
    var ps := PresentUpTo(log, view, |log|);
    forall a, b | 0 <= a < b < |ps|
      ensures ps[a].key != ps[b].key
    {
      var i := SelectedFrom(log, view, |log|, a);
      var j := SelectedFrom(log, view, |log|, b);
      PresentMeans(log, view, i);
      PresentMeans(log, view, j);
    }
  }

  /** The keys of a selection that never repeats are fewer than any bound on its keys. */
  lemma HonestCopyable(h: Haul)
    requires Sound(h) && NoTombstone(h.ps)
    requires NoRepeat(h.ps) || |h.keys| < LoadLimit(DEFAULT_SIZE_LIMIT)
    ensures Copyable(h.ps)
  {
    OpenHaul(h);
    if h.ps != [] {
      var n := |h.ps| - 1;
      CopySize(h, n);
      if NoRepeat(h.ps) {
        NoRepeatIsNew(h, n);
      }
    }
  }

  lemma SightBounds(c: PMap)
    requires c.Valid()
    ensures |c.Sight().Keys| <= LoadLimit(c.hm.size) && c.hm.size == Bits.Pow2(c.hm.sizelog2)
    ensures c.hm.sizelog2 >= 16
  {
    SightIsView(c.hm.table, c.st.log);
    ViewSize(c.hm.table, c.st.log);
    Bits.Pow2Of16();
    if c.hm.sizelog2 < 16 {
      Bits.Pow2Monotone(c.hm.sizelog2, 15);
    }
  }

  lemma HaulBounded(c: PMap)
    requires c.Valid()
    ensures Bounded(HaulOf(c))
  {
    SightBounds(c);
    c.st.Ends();
    OpenLog(c.image);
    SightSees(c.image);
    SelectedSound(c.st.log, c.Sight());
    FirstsOfPresent(c.st.log, c.Sight(), |c.st.log|);
  }

  lemma HaulSound(c: PMap)
    requires c.Valid()
    ensures Sound(HaulOf(c))
  {
    HaulBounded(c);
    CloseHaul(HaulOf(c));
  }

  /** What the copy of a map comes to, in terms of its log. */
  lemma SelectionMeans(s: Image)
    requires Represents(s) && Probing(s.t)
    ensures var log, view := s.log, Sight(s.t, s.log);
      var ps := PresentUpTo(log, view, |log|);
      && Firsts(ps) == FirstCopies(log, view, |log|)
      && (Firsts(ps) == s.m <==> s.pos.Keys <= view.Keys && LeadersAgree(log, view, s.pos))
      && (NoTombstone(ps) <==> NoFalseTombstone(log, view))
      && Offset(ps, |ps|) <= Offset(log, |log|)
      && (NoImitation(log, view) ==> NoRepeat(ps))
  {
    var log, view := s.log, Sight(s.t, s.log);
    SightSees(s);
    OpenLog(s);
    FirstsOfPresent(log, view, |log|);
    SelectedTombstones(log, view);
    if NoImitation(log, view) {
      HonestSelection(log, view);
    }
    Representation.Open(s);
    CopyExact(log, view, s.pos);
  }

  /** Where iteration is exact, so is the copy. */
  lemma ExactCopy(s: Image)
    requires Represents(s) && Probing(s.t)
    requires NoImitation(s.log, s.pos) && AllPlain(s.pos) && AllPlain(Sight(s.t, s.log))
    ensures Sight(s.t, s.log) == s.pos && LeadersAgree(s.log, s.pos, s.pos)
  {
    SightIsView(s.t, s.log);
    ViewIsMap(s);
    Representation.Open(s);
    HonestLeaders(s.log, s.pos);
  }

  /**
    Iterate over `old'`, copying each present pair into a new map of the same size. The
    copy has the first selected record of each key. A Set fails, and the code panics, exactly
    when a tombstone was selected or the largest index was full before the last record.
   */
  method Defragment(old': PMap) returns (ok: bool, c: PMap)
    requires old'.Valid() && Legible(old')
    ensures fresh(c) && c.st.size == old'.st.size
    ensures ok <==> Copyable(Selection(old'))
    ensures ok ==>
      && c.Valid() && c.Durable() && c.Summed()
      && c.Model() == FirstCopies(old'.st.log, old'.Sight(), |old'.st.log|)
      && c.st.size == old'.st.size && c.st.deleted == 0
      && c.st.length == LiveBytes(c.Model()) <= old'.st.length
      && (c.Model() == old'.Model() <==>
            old'.image.pos.Keys <= old'.Sight().Keys && LeadersAgree(old'.st.log, old'.Sight(), old'.image.pos))
    ensures ok ==> NoFalseTombstone(old'.st.log, old'.Sight())
    ensures NoFalseTombstone(old'.st.log, old'.Sight()) && |old'.Sight().Keys| < LoadLimit(DEFAULT_SIZE_LIMIT) ==> ok
    ensures NoImitation(old'.st.log, old'.Sight()) ==> ok && c.hm.size <= old'.hm.size
    ensures NoImitation(old'.st.log, old'.image.pos) && AllPlain(old'.image.pos) && AllPlain(old'.Sight()) ==>
      ok && c.Model() == old'.Model()
  {
    SelectionMeans(old'.image);
    HaulSound(old');
    SightBounds(old');
    old'.st.Ends();
    if NoImitation(old'.st.log, old'.image.pos) && AllPlain(old'.image.pos) && AllPlain(old'.Sight()) {
      ExactCopy(old'.image);
    }
    if NoTombstone(Selection(old'))
      && (NoRepeat(Selection(old')) || |old'.Sight().Keys| < LoadLimit(DEFAULT_SIZE_LIMIT)) {
      HonestCopyable(HaulOf(old'));
    }
    ok, c := CopyListed(old');
  }

  /** Iterate and copy. */
  method CopyListed(old': PMap) returns (ok: bool, c: PMap)
    requires old'.Valid() && Legible(old')
    ensures fresh(c) && c.st.size == old'.st.size
    ensures ok <==> Copyable(Selection(old'))
    ensures ok ==> Compact(c) && c.st.size == old'.st.size && c.Model() == Firsts(Selection(old'))
    ensures ok ==> c.st.length <= Offset(Selection(old'), |Selection(old')|)
    ensures ok && NoRepeat(Selection(old')) ==> c.hm.size <= old'.hm.size
  {
    HaulSound(old');
    SightBounds(old');
    var pairs := ListPairs(old');
    ok, c := CopyAll(pairs, old'.st.size, HaulOf(old'));
  }

  /** A full iteration of the old map. */
  method ListPairs(c: PMap) returns (ps: seq<Record>)
    requires c.Valid() && Legible(c)
    ensures ps == Selection(c)
  {
    var all := (k: bytes, v: bytes) => true;
    ps := Iterate(c, all);
    IterationExact(c, all);
  }
}
