/**
  Open addressing with linear probing, as pure facts about a cyclic table of
  buckets: what an unbroken probe chain is, and which updates keep every chain.
 */
module Tables {
  import opened Bytes
  import opened Guards

  const EMPTY_BUCKET: u32 := 0
  const DELETED_BUCKET: u32 := 1

  datatype Bucket = Bucket(hash: nat, index: nat)

  type Table = seq<Bucket>

  predicate Live(b: Bucket) {
    b.hash > DELETED_BUCKET
  }

  function Home(h: nat, n: nat): (r: nat)
    requires n > 0
    ensures r < n
  {
    h % n
  }

  /** The number of probe steps from slot `home` to slot `q` in a table of `n` slots. */
  function Dist(home: nat, q: nat, n: nat): (d: nat)
    requires home < n && q < n
    ensures d < n
  {
    if q >= home then q - home else q + n - home
  }

  function NextSlot(i: nat, n: nat): (r: nat)
    requires i < n
    ensures r < n
  {
    if i + 1 == n then 0 else i + 1
  }

  /** All slots that a probe from `home` visits before `p` are non-empty. */
  ghost predicate Unbroken(t: Table, home: nat, p: nat)
    requires home < |t| && p < |t|
  {
    forall q :: 0 <= q < |t| && Dist(home, q, |t|) < Dist(home, p, |t|) ==> t[q].hash != EMPTY_BUCKET
  }

  /** Every live bucket can be reached from its home slot. */
  ghost predicate Chained(t: Table) {
    forall p :: 0 <= p < |t| && Live(t[p]) ==> Unbroken(t, Home(t[p].hash, |t|), p)
  }

  /** Live buckets point at different records. */
  ghost predicate Distinct(t: Table) {
    forall p, q :: 0 <= p < q < |t| && Live(t[p]) && Live(t[q]) ==> t[p].index != t[q].index
  }

  /** Probes work: chains are unbroken and live buckets distinct. */
  ghost predicate Probing(t: Table) {
    forall n: int {:trigger Asked(n)} :: Asked(n) ==> Chained(t) && Distinct(t)
  }

  lemma OpenProbing(t: Table)
    requires Probing(t)
    ensures Chained(t) && Distinct(t)
  {
    assert Asked(0);
  }

  lemma CloseProbing(t: Table)
    requires Chained(t) && Distinct(t)
    ensures Probing(t)
  {
  }

  function Occupied(t: Table): (c: nat)
    ensures c <= |t|
  {
    if t == [] then 0
    else Occupied(t[..|t| - 1]) + if t[|t| - 1].hash != EMPTY_BUCKET then 1 else 0
  }

  function LiveCount(t: Table): (c: nat)
    ensures c <= |t|
  {
    if t == [] then 0
    else LiveCount(t[..|t| - 1]) + if Live(t[|t| - 1]) then 1 else 0
  }

  lemma {:induction false} LiveAtMostOccupied(t: Table)
    ensures LiveCount(t) <= Occupied(t)
  {
    if t != [] {
      LiveAtMostOccupied(t[..|t| - 1]);
    }
  }

  lemma {:induction false} LiveCountPrefix(t: Table, i: nat)
    requires i <= |t|
    ensures LiveCount(t[..i]) <= LiveCount(t)
    decreases |t|
  {
    if i == |t| {
      assert t[..i] == t;
    } else {
      LiveCountPrefix(t[..|t| - 1], i);
      assert t[..|t| - 1][..i] == t[..i];
    }
  }

  lemma {:induction false} OccupiedUpdate(t: Table, i: nat, b: Bucket)
    requires i < |t|
    ensures Occupied(t[i := b]) + (if t[i].hash != EMPTY_BUCKET then 1 else 0)
         == Occupied(t) + (if b.hash != EMPTY_BUCKET then 1 else 0)
    decreases |t|
  {
    var n := |t| - 1;
    if i < n {
      OccupiedUpdate(t[..n], i, b);
      assert t[i := b][..n] == t[..n][i := b];
    } else {
      assert t[i := b][..n] == t[..n];
    }
  }

  /** A table that is not full has an empty slot, so a probe ends. */
  lemma {:induction false} EmptySlot(t: Table) returns (e: nat)
    requires Occupied(t) < |t|
    ensures e < |t| && t[e].hash == EMPTY_BUCKET
  {
    var n := |t| - 1;
    if t[n].hash == EMPTY_BUCKET {
      e := n;
    } else {
      e := EmptySlot(t[..n]);
    }
  }

  lemma {:induction false} AllEmpty(t: Table)
    requires forall i :: 0 <= i < |t| ==> t[i].hash == EMPTY_BUCKET
    ensures Occupied(t) == 0
  {
    if t != [] {
      AllEmpty(t[..|t| - 1]);
    }
  }

  lemma EmptyTable(t: Table)
    requires forall i :: 0 <= i < |t| ==> t[i].hash == EMPTY_BUCKET
    ensures Occupied(t) == 0 && Chained(t) && Distinct(t)
    ensures forall b :: b in t ==> b.hash == EMPTY_BUCKET
  {
    AllEmpty(t);
  }

  /** Filling the empty slot at which the probe of its hash ends keeps all chains. */
  lemma PlaceKeepsChains(t: Table, i: nat, b: Bucket)
    requires i < |t| && Chained(t) && b.hash != EMPTY_BUCKET
    requires Live(b) ==> Unbroken(t, Home(b.hash, |t|), i)
    requires t[i].hash == EMPTY_BUCKET || t[i].hash == b.hash || b.hash == DELETED_BUCKET
    ensures Chained(t[i := b])
  {
    var t' := t[i := b];
    forall p | 0 <= p < |t'| && Live(t'[p])
      ensures Unbroken(t', Home(t'[p].hash, |t'|), p)
    {
      assert p != i ==> Unbroken(t, Home(t[p].hash, |t|), p);
    }
  }

  /** The search for a live bucket starting at its home meets no empty slot before it. */
  lemma ProbeReaches(t: Table, p: nat, e: nat)
    requires p < |t| && e < |t| && Chained(t) && Live(t[p]) && t[e].hash == EMPTY_BUCKET
    ensures var home := Home(t[p].hash, |t|); Dist(home, p, |t|) < Dist(home, e, |t|)
  {
    var home := Home(t[p].hash, |t|);
    assert Unbroken(t, home, p);
    assert Dist(home, e, |t|) != Dist(home, p, |t|);
  }

  ghost function LiveSet(t: Table): set<Bucket> {
    set b | b in t && Live(b)
  }

  /** Distinct live buckets are counted once each. */
  lemma {:induction false} LiveCountIsSize(t: Table)
    requires Distinct(t)
    ensures LiveCount(t) == |LiveSet(t)|
  {
    if t == [] {
      assert LiveSet(t) == {};
    } else {
      var n := |t| - 1;
      assert t == t[..n] + [t[n]];
      LiveCountIsSize(t[..n]);
      assert LiveSet(t) == LiveSet(t[..n]) + if Live(t[n]) then {t[n]} else {};
    }
  }
}
