/**
  What the storage engine means: a map from keys to timestamped values, with
  last-writer-wins Set, timestamp-checked Del and compare-and-swap.
 */
module Dictionary {
  import opened Bytes
  import opened Guards
  import opened Hashing
  import MapSums
  import Bits

  /** A value is an 8-byte timestamp header followed by the payload. */
  type Dict = map<bytes, bytes>

  /** The raw timestamp word of a value. */
  function StampWord(v: bytes): u64 {
    if |v| < 8 then 0 else UnLE64(v[..8])
  }

  /** The timestamp that `time.Unix(0, int64(word))` denotes, in nanoseconds. */
  function Stamp(v: bytes): int {
    Signed64(StampWord(v))
  }

  /** The key is absent or its pair is strictly older. */
  predicate Newer(m: Dict, k: bytes, v: bytes) {
    k in m ==> Stamp(m[k]) < Stamp(v)
  }

  function SetSpec(m: Dict, k: bytes, v: bytes): Dict {
    if Newer(m, k, v) then m[k := v] else m
  }

  /** The key has a pair that is not strictly newer than the given time. */
  predicate Deletes(m: Dict, k: bytes, v: bytes) {
    k in m && Stamp(v) >= Stamp(m[k])
  }

  function DelSpec(m: Dict, k: bytes, v: bytes): Dict {
    if Deletes(m, k, v) then m - {k} else m
  }

  // A CAS argument: expected timestamp, hash of the expected payload, new value.

  function CasExpected(v: bytes): int
    requires |v| >= 24
  {
    Stamp(v[..8])
  }

  function CasHash(v: bytes): u64
    requires |v| >= 24
  {
    UnLE64(v[8..16])
  }

  function CasNew(v: bytes): (r: bytes)
    requires |v| >= 24
    ensures |r| >= 8
  {
    v[16..]
  }

  /** For an absent key the code refuses only when both tests fail. */
  predicate CasAccepts(m: Dict, k: bytes, v: bytes)
    requires |v| >= 24
  {
    if k in m then
      Stamp(m[k]) == CasExpected(v) && |m[k]| >= 8 && CasHash(v) == FNV1a64(m[k][8..])
    else
      CasExpected(v) == 0 || CasHash(v) == FNV1a64([])
  }

  /** The payload of the stored pair; an absent pair has none. */
  function OldPayload(m: Dict, k: bytes): bytes {
    if k in m && |m[k]| >= 8 then m[k][8..] else []
  }

  /** The documented rule, two tests: the pair's timestamp, 0 without a pair, and the hash of its payload. */
  predicate CasDocumented(m: Dict, k: bytes, v: bytes)
    requires |v| >= 24
  {
    && CasExpected(v) == (if k in m then Stamp(m[k]) else 0)
    && CasHash(v) == FNV1a64(OldPayload(m, k))
  }

  /**
    The code departs from the documented rule exactly for a CAS on an absent key that passes
    one test and not the other: it is accepted.
   */
  lemma CasDeparture(m: Dict, k: bytes, v: bytes)
    requires |v| >= 24 && (k in m ==> |m[k]| >= 8)
    ensures (CasAccepts(m, k, v) <==> CasDocumented(m, k, v)) <==>
      !(k !in m && (CasExpected(v) == 0) != (CasHash(v) == FNV1a64([])))
    ensures CasDocumented(m, k, v) ==> CasAccepts(m, k, v)
  {
  }

  function CasSpec(m: Dict, k: bytes, v: bytes): Dict
    requires |v| >= 24
  {
    if CasAccepts(m, k, v) then m[k := CasNew(v)] else m
  }

  // ------------------------------------------------------------ checksum

  /** What one pair adds to the checksum. */
  function Element(k: bytes, v: bytes): u64 {
    Xor64(FNV1a64(k), StampWord(v))
  }

  ghost function Elements(): (bytes, bytes) -> int {
    (k, v) => Element(k, v)
  }

  ghost function ElementSum(m: Dict): int {
    MapSums.Sum(m, Elements())
  }

  ghost predicate IsChecksum(c: u64, m: Dict) {
    forall n: int {:trigger Asked(n)} :: Asked(n) ==> c == ElementSum(m) % TWO_64
  }

  /** The checksum of a state: the sum of its elements, order-insensitive, modulo 2^64. */
  ghost function StateChecksum(m: Dict): (c: u64)
    ensures IsChecksum(c, m)
  {
    assert IsChecksum(ElementSum(m) % TWO_64, m);
    var c :| IsChecksum(c, m);
    c
  }

  lemma ChecksumIs(m: Dict)
    ensures StateChecksum(m) == ElementSum(m) % TWO_64
  {
    assert Asked(0);
  }

  function AddMod(a: u64, b: u64): u64 {
    (a + b) % TWO_64
  }

  function NegMod(a: u64): u64 {
    (TWO_64 - a) % TWO_64
  }

  lemma ChecksumPut(m: Dict, k: bytes, v: bytes)
    requires k !in m
    ensures StateChecksum(m[k := v]) == AddMod(StateChecksum(m), Element(k, v))
  {
    ChecksumIs(m);
    ChecksumIs(m[k := v]);
    MapSums.SumPut(m, Elements(), k, v);
    MapSums.AbsentRemove(m, k);
    ModSum(ElementSum(m), Element(k, v));
  }

  lemma ChecksumEmpty()
    ensures StateChecksum(map[]) == 0
  {
    ChecksumIs(map[]);
  }

  lemma ModSum(s: int, a: int)
    ensures (s + a) % TWO_64 == (s % TWO_64 + a) % TWO_64
  {
  }

  lemma ModDifference(s: int, e: u64)
    ensures (s - e) % TWO_64 == AddMod(s % TWO_64, NegMod(e))
  {
    ModSum(s, 0 - e);
    var r := s % TWO_64;
    assert r - e + TWO_64 == r + (TWO_64 - e);
    assert (r - e) % TWO_64 == (r + (TWO_64 - e)) % TWO_64;
  }

  lemma ChecksumRemove(m: Dict, k: bytes)
    requires k in m
    ensures StateChecksum(m - {k}) == AddMod(StateChecksum(m), NegMod(Element(k, m[k])))
  {
    ChecksumIs(m);
    ChecksumIs(m - {k});
    MapSums.SumRemove(m, Elements(), k);
    ModDifference(ElementSum(m), Element(k, m[k]));
  }

  lemma ModInjective(s: u64, a: u64, b: u64)
    requires AddMod(s, a) == AddMod(s, b)
    ensures a == b
  {
  }

  /** The checksum tells two versions of a pair apart exactly when their timestamps differ. */
  lemma ChecksumTellsStamps(m: Dict, k: bytes, v: bytes, v': bytes)
    ensures StateChecksum(m[k := v]) == StateChecksum(m[k := v']) <==> StampWord(v) == StampWord(v')
  {
    var rest := m - {k};
    ChecksumPut(rest, k, v);
    ChecksumPut(rest, k, v');
    assert rest[k := v] == m[k := v] && rest[k := v'] == m[k := v'];
    if StateChecksum(m[k := v]) == StateChecksum(m[k := v']) {
      ModInjective(StateChecksum(rest), Element(k, v), Element(k, v'));
      Bits.XorInjective(FNV1a64(k), StampWord(v), StampWord(v'));
    }
  }

  /** It tells the same value under two keys apart exactly when their hashes differ. */
  lemma ChecksumTellsKeys(k: bytes, k': bytes, v: bytes)
    ensures StateChecksum(map[k := v]) == StateChecksum(map[k' := v]) <==> FNV1a64(k) == FNV1a64(k')
  {
    var none: Dict := map[];
    ChecksumPut(none, k, v);
    ChecksumPut(none, k', v);
    assert none[k := v] == map[k := v] && none[k' := v] == map[k' := v];
    if StateChecksum(map[k := v]) == StateChecksum(map[k' := v]) {
      ModInjective(StateChecksum(none), Element(k, v), Element(k', v));
      Bits.XorCommutes(FNV1a64(k), StampWord(v));
      Bits.XorCommutes(FNV1a64(k'), StampWord(v));
      Bits.XorInjective(StampWord(v), FNV1a64(k), FNV1a64(k'));
    }
  }

  lemma ChecksumReplace(m: Dict, k: bytes, v: bytes)
    requires k in m
    ensures StateChecksum(m[k := v])
         == AddMod(AddMod(StateChecksum(m), NegMod(Element(k, m[k]))), Element(k, v))
  {
    ChecksumRemove(m, k);
    ChecksumPut(m - {k}, k, v);
    assert (m - {k})[k := v] == m[k := v];
  }

  // --------------------------------------------------------------- bytes

  function PairSize(k: bytes, v: bytes): nat {
    12 + |k| + |v|
  }

  ghost function PairSizes(): (bytes, bytes) -> int {
    (k, v) => PairSize(k, v)
  }

  /** The record bytes that the live pairs occupy. */
  ghost function LiveBytes(m: Dict): int {
    MapSums.Sum(m, PairSizes())
  }

  lemma LiveBytesPut(m: Dict, k: bytes, v: bytes)
    ensures LiveBytes(m[k := v]) == LiveBytes(m) + PairSize(k, v) - (if k in m then PairSize(k, m[k]) else 0)
  {
    MapSums.SumPut(m, PairSizes(), k, v);
    if k in m {
      MapSums.SumRemove(m, PairSizes(), k);
    } else {
      MapSums.AbsentRemove(m, k);
    }
  }

  lemma LiveBytesRemove(m: Dict, k: bytes)
    requires k in m
    ensures LiveBytes(m - {k}) == LiveBytes(m) - PairSize(k, m[k])
  {
    MapSums.SumRemove(m, PairSizes(), k);
  }

  // --------------------------------------------------------- convergence

  datatype Write = Write(key: bytes, val: bytes)

  function RunSets(m: Dict, ws: seq<Write>): Dict {
    if ws == [] then m
    else
      var n := |ws| - 1;
      SetSpec(RunSets(m, ws[..n]), ws[n].key, ws[n].val)
  }

  /** The pair was there at the start or was written. */
  ghost predicate Offered(m: Dict, ws: seq<Write>, k: bytes, v: bytes) {
    (k in m && m[k] == v) || Write(k, v) in ws
  }

  /** After any Sets, a key holds an offered value with the greatest offered timestamp. */
  lemma {:induction false} SetsKeepNewest(m: Dict, ws: seq<Write>, k: bytes)
    ensures k in RunSets(m, ws) <==> exists v :: Offered(m, ws, k, v)
    ensures k in RunSets(m, ws) ==> Offered(m, ws, k, RunSets(m, ws)[k])
    ensures forall v :: Offered(m, ws, k, v) ==> Stamp(v) <= Stamp(RunSets(m, ws)[k])
  {
    if ws == [] {
      if k in m {
        assert Offered(m, ws, k, m[k]);
      }
    } else {
      var n := |ws| - 1;
      SetsKeepNewest(m, ws[..n], k);
      assert ws == ws[..n] + [ws[n]];
      forall v
        ensures Offered(m, ws, k, v) <==> Offered(m, ws[..n], k, v) || ws[n] == Write(k, v)
      {
      }
      if ws[n].key == k {
        assert Offered(m, ws, k, ws[n].val);
      }
    }
  }

  /** No two values of one key share a timestamp. */
  ghost predicate Unambiguous(m: Dict, ws: seq<Write>) {
    forall k, v, v' :: Offered(m, ws, k, v) && Offered(m, ws, k, v') && Stamp(v) == Stamp(v') ==> v == v'
  }

  /** The same set of writes, in any order and with any duplication, gives the same map. */
  lemma Convergence(m: Dict, ws: seq<Write>, ws': seq<Write>)
    requires forall w :: w in ws <==> w in ws'
    requires Unambiguous(m, ws)
    ensures RunSets(m, ws) == RunSets(m, ws')
  {
    var r, r' := RunSets(m, ws), RunSets(m, ws');
    forall k
      ensures k in r <==> k in r'
      ensures k in r && k in r' ==> r[k] == r'[k]
    {
      SetsKeepNewest(m, ws, k);
      SetsKeepNewest(m, ws', k);
      forall v
        ensures Offered(m, ws, k, v) <==> Offered(m, ws', k, v)
      {
      }
    }
  }
}
