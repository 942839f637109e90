/**
  CAS through the ranked master: over every run in which a key is only changed by CAS
  and read with read-repair, the successful CAS operations form one chain.
 */
module CasChains {
  import opened Bytes
  import opened Hashing
  import opened Dictionary
  import opened PMaps
  import opened Clients
  import opened Clusters

  /** The arguments of successful CAS operations, in order. */
  type Wins = seq<bytes>

  ghost predicate WellSized(won: Wins) {
    forall i :: 0 <= i < |won| ==> |won[i]| >= 24
  }

  /** The value that win `i` wrote. */
  function Won(won: Wins, i: nat): bytes
    requires i < |won| && |won[i]| >= 24
  {
    CasNew(won[i])
  }

  /** The value was written by one of the wins. */
  ghost predicate InChain(won: Wins, v: bytes) {
    exists i :: 0 <= i < |won| && |won[i]| >= 24 && v == Won(won, i)
  }

  /** Each win expected exactly what the win before it wrote: timestamp and payload hash. */
  ghost predicate Chained(won: Wins)
    requires WellSized(won)
  {
    forall i :: 0 < i < |won| ==> Continues(won, i)
  }

  ghost predicate Increasing(won: Wins)
    requires WellSized(won)
  {
    forall i, j :: 0 <= i < j < |won| ==> Stamp(Won(won, i)) < Stamp(Won(won, j))
  }

  /** The master holds the last win; everybody else, and every message, holds some win. */
  ghost predicate ChainInvariant(s: Cluster, k: bytes, master: nat, won: Wins) {
    && |s.replicas| == |s.phys| && master < |s.replicas| && IsMaster(Ranks(k, s.phys), master)
    && WellSized(won) && Chained(won)
    && (k in s.replicas[master] <==> won != [])
    && (won != [] ==> s.replicas[master][k] == Won(won, |won| - 1))
    && OnlyWins(s, k, won)
  }

  /** All copies of the key, stored, sent or answered, hold some win. */
  ghost predicate OnlyWins(s: Cluster, k: bytes, won: Wins) {
    && (forall i :: 0 <= i < |s.replicas| && k in s.replicas[i] ==> InChain(won, s.replicas[i][k]))
    && (forall m :: m in s.msgs && m.key == k ==> InChain(won, m.value))
    && (forall r :: r in s.replies && r.key == k && r.found.Found? ==> InChain(won, r.found.value))
  }

  /** The win that a step adds, if any. */
  ghost function AddWin(s: Cluster, step: Step, k: bytes, won: Wins): Wins
    requires Enabled(s, step)
  {
    if step.Cas? && step.key == k && CasAccepts(s.replicas[step.master], k, step.arg) then won + [step.arg] else won
  }

  /** No plain Set of the key. */
  predicate NoSetOf(step: Step, k: bytes) {
    step.ClientSet? ==> step.key != k
  }

  lemma InChainLater(won: Wins, arg: bytes, v: bytes)
    requires InChain(won, v) || (|arg| >= 24 && v == CasNew(arg))
    ensures InChain(won + [arg], v)
  {
    if InChain(won, v) {
      var i :| 0 <= i < |won| && |won[i]| >= 24 && v == Won(won, i);
      assert (won + [arg])[i] == won[i];
    } else {
      assert (won + [arg])[|won|] == arg;
    }
  }

  /** A chain value is never newer than the last one. */
  lemma ChainNotAhead(won: Wins, v: bytes)
    requires WellSized(won) && Increasing(won) && InChain(won, v)
    ensures won != [] && Stamp(v) <= Stamp(Won(won, |won| - 1))
  {
    var i :| 0 <= i < |won| && |won[i]| >= 24 && v == Won(won, i);
  }

  /** The step is no Set of `k` that arrives at the master and is taken for newer. */
  ghost predicate Quiet(s: Cluster, step: Step, k: bytes, master: nat) {
    step.Deliver? && step.m.key == k && step.m.to == master && master < |s.replicas| ==>
      !Newer(s.replicas[master], k, step.m.value)
  }

  /** A delivery, also a late or repeated one, keeps the chain if and only if it is quiet. */
  lemma DeliverKeeps(s: Cluster, m: Msg, k: bytes, master: nat, won: Wins)
    requires ChainInvariant(s, k, master, won) && Enabled(s, Deliver(m))
    ensures ChainInvariant(Next(s, Deliver(m)), k, master, won) <==> Quiet(s, Deliver(m), k, master)
  {
    var s' := Next(s, Deliver(m));
    if m.key == k && m.to == master {
      if Quiet(s, Deliver(m), k, master) {
        assert s'.replicas == s.replicas;
      } else if k in s.replicas[master] {
        assert Stamp(s'.replicas[master][k]) > Stamp(s.replicas[master][k]);
      }
    }
  }

  /** Along an increasing chain every delivery to the master is quiet. */
  lemma IncreasingQuiet(s: Cluster, m: Msg, k: bytes, master: nat, won: Wins)
    requires ChainInvariant(s, k, master, won) && Increasing(won) && Enabled(s, Deliver(m))
    ensures Quiet(s, Deliver(m), k, master)
  {
    if m.key == k && m.to == master {
      ChainNotAhead(won, m.value);
    }
  }

  lemma ServeKeeps(s: Cluster, get: nat, at: nat, key: bytes, k: bytes, master: nat, won: Wins)
    requires ChainInvariant(s, k, master, won) && Enabled(s, Serve(get, at, key))
    ensures ChainInvariant(Next(s, Serve(get, at, key)), k, master, won)
  {
  }

  lemma FinishKeeps(s: Cluster, get: nat, key: bytes, rs: seq<Response>, newest: Lookup,
                    k: bytes, master: nat, won: Wins)
    requires ChainInvariant(s, k, master, won) && Enabled(s, Finish(get, key, rs, newest))
    ensures ChainInvariant(Next(s, Finish(get, key, rs, newest)), k, master, won)
  {
    if newest.Found? && key == k {
      var i :| 0 <= i < |rs| && Dated(rs[i]) && rs[i].v == newest.value;
      assert Genuine(s, get, key, i, rs[i]);
      assert InChain(won, newest.value);
    }
  }

  /** Win `i` continues the one before it. */
  ghost predicate Continues(won: Wins, i: nat)
    requires WellSized(won) && 0 < i < |won|
  {
    && CasExpected(won[i]) == Stamp(Won(won, i - 1))
    && CasHash(won[i]) == FNV1a64(Won(won, i - 1)[8..])
  }

  lemma ExtendAt(won: Wins, arg: bytes, i: nat)
    requires WellSized(won) && Chained(won) && |arg| >= 24 && 0 < i <= |won|
    requires i == |won| ==> CasExpected(arg) == Stamp(Won(won, i - 1)) && CasHash(arg) == FNV1a64(Won(won, i - 1)[8..])
    ensures WellSized(won + [arg]) && Continues(won + [arg], i)
  {
    var w := won + [arg];
    assert w[i - 1] == won[i - 1] && (i < |won| ==> w[i] == won[i]) && (i == |won| ==> w[i] == arg);
    assert i < |won| ==> Continues(won, i);
  }

  lemma ExtendChain(won: Wins, arg: bytes)
    requires WellSized(won) && Chained(won) && |arg| >= 24
    requires won != [] ==>
      var v := Won(won, |won| - 1);
      CasExpected(arg) == Stamp(v) && CasHash(arg) == FNV1a64(v[8..])
    ensures WellSized(won + [arg]) && Chained(won + [arg])
    ensures Won(won + [arg], |won|) == CasNew(arg)
  {
    var w := won + [arg];
    forall i | 0 < i < |w|
      ensures Continues(w, i)
    {
      ExtendAt(won, arg, i);
    }
  }

  lemma ExtendIncreasing(won: Wins, arg: bytes)
    requires WellSized(won) && Increasing(won) && |arg| >= 24
    requires won != [] ==> Stamp(Won(won, |won| - 1)) < Stamp(CasNew(arg))
    ensures WellSized(won + [arg]) && Increasing(won + [arg])
  {
    var w, n := won + [arg], |won|;
    assert forall i :: 0 <= i < n ==> w[i] == won[i];
    forall i, j | 0 <= i < j < |w|
      ensures Stamp(Won(w, i)) < Stamp(Won(w, j))
    {
      assert Won(w, i) == Won(won, i);
      if j < n {
        assert Won(w, j) == Won(won, j);
      } else {
        assert Won(w, j) == CasNew(arg);
        assert i < n - 1 ==> Stamp(Won(won, i)) < Stamp(Won(won, n - 1));
      }
    }
  }

  /** An accepted CAS on the last value extends the chain by one. */
  lemma CasExtends(m: Dict, k: bytes, arg: bytes, won: Wins)
    requires WellSized(won) && Chained(won)
    requires |arg| >= 24 && CasAccepts(m, k, arg)
    requires (k in m <==> won != []) && (won != [] ==> m[k] == Won(won, |won| - 1))
    ensures WellSized(won + [arg]) && Chained(won + [arg])
    ensures Won(won + [arg], |won|) == CasNew(arg)
    ensures InChain(won + [arg], CasNew(arg))
    ensures forall v :: InChain(won, v) ==> InChain(won + [arg], v)
  {
    ExtendChain(won, arg);
    InChainLater(won, arg, CasNew(arg));
    forall v | InChain(won, v)
      ensures InChain(won + [arg], v)
    {
      InChainLater(won, arg, v);
    }
  }

  lemma CasKeeps(s: Cluster, m: nat, arg: bytes, k: bytes, master: nat, won: Wins)
    requires ChainInvariant(s, k, master, won) && Enabled(s, Cas(m, k, arg))
    ensures ChainInvariant(Next(s, Cas(m, k, arg)), k, master, AddWin(s, Cas(m, k, arg), k, won))
  {
    MasterUnique(Ranks(k, s.phys), m, master);
    if CasAccepts(s.replicas[m], k, arg) {
      CasExtends(s.replicas[m], k, arg, won);
      CasOnlyWins(s, m, arg, k, won);
    }
  }

  lemma CasOnlyWins(s: Cluster, m: nat, arg: bytes, k: bytes, won: Wins)
    requires Enabled(s, Cas(m, k, arg)) && CasAccepts(s.replicas[m], k, arg) && OnlyWins(s, k, won)
    requires InChain(won + [arg], CasNew(arg)) && forall v :: InChain(won, v) ==> InChain(won + [arg], v)
    ensures OnlyWins(Next(s, Cas(m, k, arg)), k, won + [arg])
  {
    var s', won' := Next(s, Cas(m, k, arg)), won + [arg];
    forall i | 0 <= i < |s'.replicas| && k in s'.replicas[i]
      ensures InChain(won', s'.replicas[i][k])
    {
      assert i == m ==> s'.replicas[i][k] == CasNew(arg);
    }
    forall x | x in s'.msgs && x.key == k
      ensures InChain(won', x.value)
    {
      assert x !in s.msgs ==> x.value == CasNew(arg);
    }
  }

  /** Sets and CAS operations of other keys leave the chain of `k` alone. */
  lemma SetKeeps(s: Cluster, key: bytes, value: bytes, k: bytes, master: nat, won: Wins)
    requires ChainInvariant(s, k, master, won) && key != k && Enabled(s, ClientSet(key, value))
    ensures ChainInvariant(Next(s, ClientSet(key, value)), k, master, won)
  {
  }

  lemma OtherCasKeeps(s: Cluster, m: nat, key: bytes, arg: bytes, k: bytes, master: nat, won: Wins)
    requires ChainInvariant(s, k, master, won) && key != k && Enabled(s, Cas(m, key, arg))
    ensures ChainInvariant(Next(s, Cas(m, key, arg)), k, master, won)
  {
  }

  lemma StepKeepsChain(s: Cluster, step: Step, k: bytes, master: nat, won: Wins)
    requires ChainInvariant(s, k, master, won) && Enabled(s, step) && NoSetOf(step, k) && Quiet(s, step, k, master)
    ensures ChainInvariant(Next(s, step), k, master, AddWin(s, step, k, won))
  {
    match step
    case ClientSet(key, value) => SetKeeps(s, key, value, k, master, won);
    case Deliver(m) => DeliverKeeps(s, m, k, master, won);
    case Serve(get, at, key) => ServeKeeps(s, get, at, key, k, master, won);
    case Finish(get, key, rs, newest) => FinishKeeps(s, get, key, rs, newest, k, master, won);
    case Cas(m, key, arg) =>
      if key == k {
        CasKeeps(s, m, arg, k, master, won);
      } else {
        OtherCasKeeps(s, m, key, arg, k, master, won);
      }
  }

  /** All wins of a run on key `k`, after the wins so far. */
  ghost function AllWins(s: Cluster, steps: seq<Step>, s': Cluster, k: bytes, won: Wins): Wins
    requires Runs(s, steps, s')
    decreases |steps|
  {
    if steps == [] then won
    else AllWins(Next(s, steps[0]), steps[1..], s', k, AddWin(s, steps[0], k, won))
  }

  /** Every step of the run is quiet and no plain Set of `k`. */
  ghost predicate OnlyCas(s: Cluster, steps: seq<Step>, k: bytes, master: nat)
    decreases |steps|
  {
    steps != [] ==>
      && Enabled(s, steps[0]) && NoSetOf(steps[0], k) && Quiet(s, steps[0], k, master)
      && OnlyCas(Next(s, steps[0]), steps[1..], k, master)
  }

  lemma {:induction false} RunKeepsChain(s: Cluster, steps: seq<Step>, s': Cluster, k: bytes, master: nat, won: Wins)
    requires ChainInvariant(s, k, master, won) && Runs(s, steps, s') && OnlyCas(s, steps, k, master)
    ensures ChainInvariant(s', k, master, AllWins(s, steps, s', k, won))
    decreases |steps|
  {
    if steps != [] {
      StepKeepsChain(s, steps[0], k, master, won);
      RunKeepsChain(Next(s, steps[0]), steps[1..], s', k, master, AddWin(s, steps[0], k, won));
    }
  }

  /** No two wins wrote the same timestamp. */
  ghost predicate FreshStamps(won: Wins)
    requires WellSized(won)
  {
    forall i, j :: 0 <= i < j < |won| ==> Stamp(Won(won, i)) != Stamp(Won(won, j))
  }

  /** Two different wins on an existing pair never observed the same timestamp. */
  lemma OneWinPerTimestamp(won: Wins, i: nat, j: nat)
    requires WellSized(won) && Chained(won) && FreshStamps(won)
    requires 0 < i < j < |won|
    ensures CasExpected(won[i]) != CasExpected(won[j])
  {
    assert Continues(won, i) && Continues(won, j);
    assert Stamp(Won(won, i - 1)) != Stamp(Won(won, j - 1));
  }

  lemma StartChain(phys: seq<Lookup>, k: bytes, master: nat)
    requires IsMaster(Ranks(k, phys), master)
    ensures ChainInvariant(Start(phys), k, master, [])
  {
  }

  /**
    From an empty cluster, over every run in which `k` is changed at the master by CAS only:
    the wins on `k` form one chain, the master holds its last value, and every other copy,
    stored, sent or answered, is some value of it.
   */
  lemma CasIsLinear(phys: seq<Lookup>, steps: seq<Step>, s': Cluster, k: bytes, master: nat)
    requires IsMaster(Ranks(k, phys), master) && Runs(Start(phys), steps, s')
    requires OnlyCas(Start(phys), steps, k, master)
    ensures ChainInvariant(s', k, master, AllWins(Start(phys), steps, s', k, []))
  {
    StartChain(phys, k, master);
    RunKeepsChain(Start(phys), steps, s', k, master, []);
  }

  // ------------------------------------------------------ growing timestamps

  /** A CAS that replaces a pair of `k` puts a later time on it. */
  ghost predicate Raises(s: Cluster, step: Step, k: bytes)
    requires Enabled(s, step)
  {
    step.Cas? && step.key == k && k in s.replicas[step.master] && CasAccepts(s.replicas[step.master], k, step.arg) ==>
      Stamp(CasNew(step.arg)) > CasExpected(step.arg)
  }

  /** No plain Set of `k`, and its timestamps grow. */
  ghost predicate Growing(s: Cluster, steps: seq<Step>, k: bytes)
    decreases |steps|
  {
    steps != [] ==>
      && Enabled(s, steps[0]) && NoSetOf(steps[0], k) && Raises(s, steps[0], k)
      && Growing(Next(s, steps[0]), steps[1..], k)
  }

  lemma StepIncreases(s: Cluster, step: Step, k: bytes, master: nat, won: Wins)
    requires ChainInvariant(s, k, master, won) && Increasing(won) && Enabled(s, step) && Raises(s, step, k)
    ensures WellSized(AddWin(s, step, k, won)) && Increasing(AddWin(s, step, k, won))
  {
    if AddWin(s, step, k, won) != won {
      MasterUnique(Ranks(k, s.phys), step.master, master);
      ExtendIncreasing(won, step.arg);
    }
  }

  /** With growing timestamps no delivery disturbs the master, read-repair included. */
  lemma {:induction false} GrowingIsQuiet(s: Cluster, steps: seq<Step>, s': Cluster, k: bytes, master: nat, won: Wins)
    requires ChainInvariant(s, k, master, won) && Increasing(won)
    requires Runs(s, steps, s') && Growing(s, steps, k)
    ensures OnlyCas(s, steps, k, master)
    ensures WellSized(AllWins(s, steps, s', k, won)) && Increasing(AllWins(s, steps, s', k, won))
    decreases |steps|
  {
    if steps != [] {
      if steps[0].Deliver? {
        IncreasingQuiet(s, steps[0].m, k, master, won);
      }
      StepIncreases(s, steps[0], k, master, won);
      StepKeepsChain(s, steps[0], k, master, won);
      GrowingIsQuiet(Next(s, steps[0]), steps[1..], s', k, master, AddWin(s, steps[0], k, won));
    }
  }

  /** From an empty cluster, with growing timestamps: no holder is ever ahead of the master. */
  lemma NeverAhead(phys: seq<Lookup>, steps: seq<Step>, s': Cluster, k: bytes, master: nat)
    requires IsMaster(Ranks(k, phys), master) && Runs(Start(phys), steps, s') && Growing(Start(phys), steps, k)
    ensures var won := AllWins(Start(phys), steps, s', k, []);
      && ChainInvariant(s', k, master, won) && Increasing(won)
      && (forall i :: 0 <= i < |s'.replicas| && k in s'.replicas[i] ==>
            k in s'.replicas[master] && Stamp(s'.replicas[i][k]) <= Stamp(s'.replicas[master][k]))
  {
    var won := AllWins(Start(phys), steps, s', k, []);
    StartChain(phys, k, master);
    GrowingIsQuiet(Start(phys), steps, s', k, master, []);
    CasIsLinear(phys, steps, s', k, master);
    forall i | 0 <= i < |s'.replicas| && k in s'.replicas[i]
      ensures k in s'.replicas[master] && Stamp(s'.replicas[i][k]) <= Stamp(s'.replicas[master][k])
    {
      ChainNotAhead(won, s'.replicas[i][k]);
    }
  }
}
