/** The loops of client/client.go: newest response, read-repair targets, CAS master. */
module Clients {
  import opened Bytes
  import opened Hashing
  import opened Dictionary
  import opened Checksums
  import opened PMaps

  /** What one holder contributed to a Get. */
  datatype Response =
    | NoServer             // the holder slot is empty
    | Failed               // the request or the wait failed
    | Value(v: bytes)      // the holder's answer; empty when it has no pair

  predicate Dated(r: Response) {
    r.Value? && |r.v| >= 8
  }

  /** The time the code records for a holder; the zero time when it has no pair. */
  function TimeOf(r: Response): int {
    if Dated(r) then Stamp(r.v) else ZERO_TIME
  }

  lemma StampAfterZero(v: bytes)
    ensures Stamp(v) > ZERO_TIME
  {
  }

  /** The first response with the greatest timestamp. */
  ghost predicate IsNewest(rs: seq<Response>, value: Lookup) {
    match value
    case Absent => forall i :: 0 <= i < |rs| ==> !Dated(rs[i])
    case Found(v) =>
      exists i :: 0 <= i < |rs| && Dated(rs[i]) && rs[i].v == v
        && (forall j :: 0 <= j < |rs| && Dated(rs[j]) ==> Stamp(rs[j].v) <= Stamp(v))
        && (forall j :: 0 <= j < i && Dated(rs[j]) ==> Stamp(rs[j].v) < Stamp(v))
  }

  /** The waiting loop of Get: last write wins. */
  method Collect(rs: seq<Response>) returns (read: bool, lastTime: int, value: Lookup, times: seq<int>)
    ensures read <==> exists i :: 0 <= i < |rs| && rs[i].Value?
    ensures |times| == |rs| && forall i :: 0 <= i < |rs| ==> times[i] == TimeOf(rs[i])
    ensures IsNewest(rs, value)
    ensures lastTime == if value.Found? then Stamp(value.value) else ZERO_TIME
  {
    read, lastTime, value, times := false, ZERO_TIME, Absent, [];
    for n := 0 to |rs|
      invariant read <==> exists i :: 0 <= i < n && rs[i].Value?
      invariant |times| == n && forall i :: 0 <= i < n ==> times[i] == TimeOf(rs[i])
      invariant IsNewest(rs[..n], value)
      invariant lastTime == if value.Found? then Stamp(value.value) else ZERO_TIME
    {
      var t := ZERO_TIME;
      NewestStep(rs, n, value);
      if rs[n].Value? {
        read := true;
        if |rs[n].v| >= 8 {
          t := Stamp(rs[n].v);
          StampAfterZero(rs[n].v);
          if lastTime < t {
            lastTime := t;
            value := Found(rs[n].v);
          }
        }
      }
      times := times + [t];
    }
    assert rs[..|rs|] == rs;
  }

  lemma NewestStep(rs: seq<Response>, n: nat, value: Lookup)
    requires n < |rs| && IsNewest(rs[..n], value)
    ensures var r := rs[n];
      if Dated(r) && (value.Found? ==> Stamp(value.value) < Stamp(r.v))
      then IsNewest(rs[..n + 1], Found(r.v)) else IsNewest(rs[..n + 1], value)
  {
    var ps, qs := rs[..n], rs[..n + 1];
    assert forall i :: 0 <= i < n ==> qs[i] == ps[i];
    assert qs[n] == rs[n];
    if Dated(rs[n]) && (value.Found? ==> Stamp(value.value) < Stamp(rs[n].v)) {
      assert qs[n].v == rs[n].v;
    } else if value.Found? {
      var i :| 0 <= i < |ps| && Dated(ps[i]) && ps[i].v == value.value
        && (forall j :: 0 <= j < |ps| && Dated(ps[j]) ==> Stamp(ps[j].v) <= Stamp(value.value))
        && (forall j :: 0 <= j < i && Dated(ps[j]) ==> Stamp(ps[j].v) < Stamp(value.value));
      assert qs[i].v == value.value;
    }
  }

  /** Among answers of one time the first counts. */
  lemma TieGoesToFirst(a: bytes, b: bytes, newest: Lookup)
    requires |a| >= 8 && |b| >= 8 && Stamp(a) == Stamp(b) && IsNewest([Value(a), Value(b)], newest)
    ensures newest == Found(a)
  {
    var rs := [Value(a), Value(b)];
    assert Dated(rs[0]) && Dated(rs[1]);
  }

  /** The holders that read-repair writes to: present, and behind the newest time. */
  function RepairTargets(rs: seq<Response>, lastTime: int): set<nat> {
    set i | 0 <= i < |rs| && !rs[i].NoServer? && lastTime > TimeOf(rs[i])
  }

  /** The read-repair loop: it writes to the holders that answered something older, nothing or not at all. */
  method ReadRepair(rs: seq<Response>, times: seq<int>, lastTime: int) returns (to: set<nat>)
    requires |times| == |rs| && forall i :: 0 <= i < |rs| ==> times[i] == TimeOf(rs[i])
    requires lastTime > ZERO_TIME
    ensures to == RepairTargets(rs, lastTime)
    ensures forall i :: i in to <==>
      0 <= i < |rs| && !rs[i].NoServer? && (rs[i].Value? && |rs[i].v| >= 8 ==> Stamp(rs[i].v) < lastTime)
  {
    to := {};
    for n := 0 to |rs|
      invariant to == set i | 0 <= i < n && !rs[i].NoServer? && lastTime > TimeOf(rs[i])
    {
      if !rs[n].NoServer? && lastTime > times[n] {
        to := to + {n};
      }
    }
  }

  // ---------------------------------------------------------- what is sent

  /** uint64 of an int64 nanosecond count. */
  function TimeWord(t: int): u64 {
    t % TWO_64
  }

  /** The value of a Set: timestamp header and payload. */
  function Stamped(t: int, payload: bytes): (v: bytes)
    ensures |v| == 8 + |payload|
  {
    LE(TimeWord(t), 8) + payload
  }

  /** The argument of a CAS: expected time, hash of the expected payload, new stamped value. */
  function CasArgument(expected: int, oldPayload: bytes, t: int, payload: bytes): (v: bytes)
    ensures |v| == 24 + |payload|
  {
    LE(TimeWord(expected), 8) + LE(FNV1a64(oldPayload), 8) + Stamped(t, payload)
  }

  predicate Int64(t: int) {
    -TWO_63 <= t < TWO_63
  }

  lemma TimeWordInverts(t: int)
    requires Int64(t)
    ensures Signed64(TimeWord(t)) == t
  {
  }

  /** What Get unpacks is what Set packed. */
  lemma StampedFields(t: int, payload: bytes)
    requires Int64(t)
    ensures Stamp(Stamped(t, payload)) == t && Stamped(t, payload)[8..] == payload
  {
    HeaderOf(LE(TimeWord(t), 8), payload);
    Word64(TimeWord(t));
    TimeWordInverts(t);
  }

  lemma HeaderOf(h: bytes, rest: bytes)
    requires |h| == 8
    ensures (h + rest)[..8] == h && (h + rest)[8..] == rest && StampWord(h + rest) == UnLE64(h)
  {
    assert (h + rest)[..8] == h;
  }

  lemma ThreeParts(a: bytes, b: bytes, c: bytes)
    requires |a| == |b| == 8 && |c| >= 8
    ensures var v := a + b + c; v[..8] == a && v[8..16] == b && v[16..] == c
  {
  }

  /** A client's CAS is accepted for a live pair exactly when the pair is the one it read. */
  lemma CasArgumentMeans(m: Dict, k: bytes, expected: int, oldPayload: bytes, t: int, payload: bytes)
    requires Int64(expected) && Int64(t)
    ensures var arg := CasArgument(expected, oldPayload, t, payload);
      && CasExpected(arg) == expected && CasHash(arg) == FNV1a64(oldPayload)
      && CasNew(arg) == Stamped(t, payload)
      && (k in m && |m[k]| >= 8 ==>
            (CasAccepts(m, k, arg) <==> Stamp(m[k]) == expected && FNV1a64(m[k][8..]) == FNV1a64(oldPayload)))
  {
    var a, b, c := LE(TimeWord(expected), 8), LE(FNV1a64(oldPayload), 8), Stamped(t, payload);
    ThreeParts(a, b, c);
    Word64(TimeWord(expected));
    Word64(FNV1a64(oldPayload));
    TimeWordInverts(expected);
    assert a[..8] == a;
  }

  /** Whatever time it expects, a client's CAS with an empty old value creates an absent pair. */
  lemma StaleCasCreates(m: Dict, k: bytes, expected: int, t: int, payload: bytes)
    requires Int64(expected) && Int64(t) && k !in m
    ensures var arg := CasArgument(expected, [], t, payload);
      && CasExpected(arg) == expected && CasAccepts(m, k, arg)
      && CasSpec(m, k, arg) == m[k := Stamped(t, payload)]
      && (expected != 0 ==> !CasDocumented(m, k, arg))
  {
    CasArgumentMeans(m, k, expected, [], t, payload);
  }

  /** Whatever old value it names, a client's CAS that expects time 0 creates an absent pair. */
  lemma MismatchedCasCreates(m: Dict, k: bytes, oldPayload: bytes, t: int, payload: bytes)
    requires Int64(t) && k !in m
    ensures var arg := CasArgument(0, oldPayload, t, payload);
      && CasHash(arg) == FNV1a64(oldPayload) && CasAccepts(m, k, arg)
      && CasSpec(m, k, arg) == m[k := Stamped(t, payload)]
      && (FNV1a64(oldPayload) != FNV1a64([]) ==> !CasDocumented(m, k, arg))
  {
    CasArgumentMeans(m, k, 0, oldPayload, t, payload);
  }

  // -------------------------------------------------------------- CAS master

  /** rank = hash(key + server address); an absent server has rank 0. */
  function Rank(key: bytes, phy: Lookup): u64 {
    match phy
    case Absent => 0
    case Found(addr) => FNV1a64(key + addr)
  }

  function Ranks(key: bytes, phys: seq<Lookup>): (r: seq<u64>)
    ensures |r| == |phys|
    ensures forall i :: 0 <= i < |phys| ==> r[i] == Rank(key, phys[i])
  {
    seq(|phys|, i requires 0 <= i < |phys| => Rank(key, phys[i]))
  }

  /** The first index with the greatest rank. */
  ghost predicate IsMaster(ranks: seq<u64>, m: nat) {
    && m < |ranks|
    && (forall i :: 0 <= i < |ranks| ==> ranks[i] <= ranks[m])
    && (forall i :: 0 <= i < m ==> ranks[i] < ranks[m])
  }

  method SelectMaster(key: bytes, phys: seq<Lookup>) returns (master: nat)
    requires phys != []
    ensures IsMaster(Ranks(key, phys), master)
    ensures forall i :: 0 <= i < |phys| && phys[i].Found? && FNV1a64(key + phys[i].value) > 0 ==>
      phys[master].Found? && FNV1a64(key + phys[i].value) <= FNV1a64(key + phys[master].value)
    ensures forall i :: 0 <= i < master && phys[i].Found? && phys[master].Found? ==>
      FNV1a64(key + phys[i].value) < FNV1a64(key + phys[master].value)
  {
    master := 0;
    var masterRank := 0;
    for n := 0 to |phys|
      invariant master < |phys| && (n > 0 ==> master < n) && (n == 0 ==> master == 0 && masterRank == 0)
      invariant n > 0 ==> masterRank == Rank(key, phys[master])
      invariant forall i :: 0 <= i < n ==> Rank(key, phys[i]) <= masterRank
      invariant forall i :: 0 <= i < n && i < master ==> Rank(key, phys[i]) < masterRank
    {
      if Rank(key, phys[n]) > masterRank {
        master := n;
        masterRank := Rank(key, phys[n]);
      }
    }
  }

  lemma MasterUnique(ranks: seq<u64>, a: nat, b: nat)
    requires IsMaster(ranks, a) && IsMaster(ranks, b)
    ensures a == b
  {
    assert ranks[a] == ranks[b];
  }

  /** Clients that list the holders in different orders agree on the master server. */
  lemma MasterOrderFree(key: bytes, phys: seq<Lookup>, phys': seq<Lookup>, m: nat, m': nat)
    requires forall p :: p in phys <==> p in phys'
    requires forall p, q :: p in phys && q in phys && Rank(key, p) == Rank(key, q) ==> p == q
    requires IsMaster(Ranks(key, phys), m)
    requires IsMaster(Ranks(key, phys'), m')
    ensures phys[m] == phys'[m']
  {
    assert phys[m] in phys' && phys'[m'] in phys;
    var i :| 0 <= i < |phys'| && phys'[i] == phys[m];
    var j :| 0 <= j < |phys| && phys[j] == phys'[m'];
    assert Ranks(key, phys')[i] <= Ranks(key, phys')[m'];
    assert Ranks(key, phys)[j] <= Ranks(key, phys)[m];
    assert Rank(key, phys[m]) == Rank(key, phys'[m']);
  }
}
