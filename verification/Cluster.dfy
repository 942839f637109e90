/**
  Replication over a fixed set of chunk holders (client/client.go on top of the map
  operations). Messages may be lost, duplicated and reordered: a sent message stays in
  `msgs` and may be delivered any number of times, or never.
 */
module Clusters {
  import opened Bytes
  import opened Hashing
  import opened Dictionary
  import opened PMaps
  import opened Clients

  /** A Set message to holder `to`. */
  datatype Msg = Msg(to: nat, key: bytes, value: bytes)

  /** The answer of holder `from` to Get number `get`, as its map was when it answered. */
  datatype GetReply = GetReply(get: nat, from: nat, key: bytes, found: Lookup)

  datatype Cluster = Cluster(
    phys: seq<Lookup>,            // address of each holder, Absent for an empty slot
    replicas: seq<Dict>,          // the chunk as each holder stores it
    msgs: set<Msg>,               // Set messages sent so far
    delivered: set<Msg>,          // those applied at least once
    replies: set<GetReply>,       // answers given so far
    written: set<Write>)          // pairs that clients asked to write

  datatype Step =
    | ClientSet(key: bytes, value: bytes)
    | Deliver(m: Msg)
    | Serve(get: nat, at: nat, key: bytes)
    | Finish(get: nat, key: bytes, rs: seq<Response>, newest: Lookup)
    | Cas(master: nat, key: bytes, arg: bytes)

  predicate Present(s: Cluster, i: nat) {
    i < |s.phys| && s.phys[i].Found?
  }

  /** The messages that write one pair to some holders. */
  function Broadcast(s: Cluster, to: set<nat>, key: bytes, value: bytes): set<Msg> {
    set i | i in to && Present(s, i) :: Msg(i, key, value)
  }

  function Holders(s: Cluster): set<nat> {
    set i | 0 <= i < |s.phys| && Present(s, i)
  }

  /** A response that Get works with is what the holder answered, or none. */
  ghost predicate Genuine(s: Cluster, get: nat, key: bytes, i: nat, r: Response) {
    match r
    case NoServer => !Present(s, i)
    case Failed => true
    case Value(v) =>
      GetReply(get, i, key, if v == [] then Absent else Found(v)) in s.replies
  }

  /**
    What a holder answers: its map, but for keys whose hash Set remaps and Get does not.
    Nothing is deleted here, so `PMap.Get` finds no stale pair of such a key either.
   */
  ghost function Served(m: Dict, key: bytes): Lookup {
    if PlainKey(key) then LookupIn(m, key) else Absent
  }

  ghost predicate Enabled(s: Cluster, step: Step) {
    match step
    case ClientSet(key, value) => |value| >= 8
    case Deliver(m) => m in s.msgs && m.to < |s.replicas|
    case Serve(get, at, key) => Present(s, at) && at < |s.replicas|
    case Finish(get, key, rs, newest) =>
      && |rs| == |s.phys| && IsNewest(rs, newest)
      && forall i :: 0 <= i < |rs| ==> Genuine(s, get, key, i, rs[i])
    case Cas(master, key, arg) =>
      && |arg| >= 24
      && IsMaster(Ranks(key, s.phys), master) && Present(s, master) && master < |s.replicas|
  }

  function Repairs(s: Cluster, key: bytes, rs: seq<Response>, newest: Lookup): set<Msg> {
    match newest
    case Absent => {}
    case Found(v) => Broadcast(s, RepairTargets(rs, Stamp(v)), key, v)
  }

  ghost function Next(s: Cluster, step: Step): Cluster
    requires Enabled(s, step)
  {
    match step
    case ClientSet(key, value) =>
      s.(msgs := s.msgs + Broadcast(s, Holders(s), key, value), written := s.written + {Write(key, value)})
    case Deliver(m) =>
      s.(replicas := s.replicas[m.to := SetSpec(s.replicas[m.to], m.key, m.value)],
         delivered := s.delivered + {m})
    case Serve(get, at, key) =>
      s.(replies := s.replies + {GetReply(get, at, key, Served(s.replicas[at], key))})
    case Finish(get, key, rs, newest) =>
      s.(msgs := s.msgs + Repairs(s, key, rs, newest))
    case Cas(master, key, arg) =>
      if CasAccepts(s.replicas[master], key, arg) then
        s.(replicas := s.replicas[master := CasSpec(s.replicas[master], key, arg)],
           msgs := s.msgs + Broadcast(s, Holders(s) - {master}, key, CasNew(arg)),
           written := s.written + {Write(key, CasNew(arg))})
      else s
  }

  // ------------------------------------------------------------- safety

  /** Holder `i` has a pair of `k` that is at least as new as `t`. */
  ghost predicate AtLeast(s: Cluster, i: nat, k: bytes, t: int) {
    i < |s.replicas| && k in s.replicas[i] && Stamp(s.replicas[i][k]) >= t
  }

  /** Every stored, sent or answered pair was written by some client and has a timestamp. */
  ghost predicate Provenance(s: Cluster) {
    && (forall w :: w in s.written ==> |w.val| >= 8)
    && (forall i, k :: 0 <= i < |s.replicas| && k in s.replicas[i] ==> Write(k, s.replicas[i][k]) in s.written)
    && (forall m :: m in s.msgs ==> Write(m.key, m.value) in s.written)
    && (forall r :: r in s.replies && r.found.Found? ==> Write(r.key, r.found.value) in s.written)
  }

  /** What was applied or answered is still matched by the holder. */
  ghost predicate Kept(s: Cluster) {
    && (forall m :: m in s.delivered ==> AtLeast(s, m.to, m.key, Stamp(m.value)))
    && (forall r :: r in s.replies && r.found.Found? ==> AtLeast(s, r.from, r.key, Stamp(r.found.value)))
  }

  ghost predicate Sourced(s: Cluster) {
    |s.replicas| == |s.phys| && Provenance(s)
  }

  ghost predicate Safe(s: Cluster) {
    Sourced(s) && Kept(s)
  }

  function Start(phys: seq<Lookup>): Cluster {
    Cluster(phys, seq(|phys|, _ => map[]), {}, {}, {}, {})
  }

  lemma StartSafe(phys: seq<Lookup>)
    ensures Safe(Start(phys))
  {
  }

  /** The step is no CAS that puts an earlier time on the pair it replaces. */
  ghost predicate KeepsTime(s: Cluster, step: Step)
    requires Enabled(s, step)
  {
    step.Cas? && step.key in s.replicas[step.master] && CasAccepts(s.replicas[step.master], step.key, step.arg) ==>
      Stamp(CasNew(step.arg)) >= CasExpected(step.arg)
  }

  /** Then no timestamp at a holder is lowered and no pair dropped. */
  lemma StepMonotone(s: Cluster, step: Step, i: nat, k: bytes, t: int)
    requires Enabled(s, step) && KeepsTime(s, step) && AtLeast(s, i, k, t)
    ensures AtLeast(Next(s, step), i, k, t)
  {
  }

  /** A step keeps all lower bounds on timestamps if and only if it is none that goes back in time. */
  lemma MonotoneIff(s: Cluster, step: Step)
    requires Enabled(s, step)
    ensures KeepsTime(s, step) <==> forall i, k, t :: AtLeast(s, i, k, t) ==> AtLeast(Next(s, step), i, k, t)
  {
    if KeepsTime(s, step) {
      forall i, k, t | AtLeast(s, i, k, t)
        ensures AtLeast(Next(s, step), i, k, t)
      {
        StepMonotone(s, step, i, k, t);
      }
    } else {
      var t := CasExpected(step.arg);
      assert AtLeast(s, step.master, step.key, t);
      assert !AtLeast(Next(s, step), step.master, step.key, t);
    }
  }

  /** A CAS that expects the pair at time 9 and writes one at time 5. */
  lemma LowersStamp(m: Dict, k: bytes, p: bytes, q: bytes, arg: bytes)
    requires m == map[k := Stamped(9, p)] && arg == CasArgument(9, p, 5, q)
    ensures CasAccepts(m, k, arg) && CasSpec(m, k, arg) == map[k := Stamped(5, q)]
    ensures Stamp(Stamped(9, p)) == CasExpected(arg) == 9 && CasNew(arg) == Stamped(5, q) && Stamp(Stamped(5, q)) == 5
  {
    StampedFields(9, p);
    StampedFields(5, q);
    CasArgumentMeans(m, k, 9, p, 5, q);
  }

  lemma LowersTime(s: Cluster, k: bytes, master: nat, p: bytes, q: bytes)
    requires IsMaster(Ranks(k, s.phys), master) && Present(s, master) && master < |s.replicas|
    requires s.replicas[master] == map[k := Stamped(9, p)]
    ensures var step := Cas(master, k, CasArgument(9, p, 5, q));
      && Enabled(s, step) && AtLeast(s, master, k, 9) && !KeepsTime(s, step)
      && Next(s, step).replicas[master] == map[k := Stamped(5, q)] && !AtLeast(Next(s, step), master, k, 9)
  {
    var arg := CasArgument(9, p, 5, q);
    LowersStamp(s.replicas[master], k, p, q, arg);
  }

  lemma CreatesPair(phys: seq<Lookup>, k: bytes, master: nat, p: bytes)
    requires IsMaster(Ranks(k, phys), master) && phys[master].Found?
    ensures var step := Cas(master, k, CasArgument(0, [], 9, p));
      Enabled(Start(phys), step) && Next(Start(phys), step).replicas[master] == map[k := Stamped(9, p)]
  {
    CasArgumentMeans(map[], k, 0, [], 9, p);
  }

  lemma TwoSteps(s: Cluster, a: Step, b: Step)
    requires Enabled(s, a) && Enabled(Next(s, a), b)
    ensures Runs(s, [a, b], Next(Next(s, a), b))
    ensures Forward(s, [a, b]) ==> KeepsTime(Next(s, a), b)
  {
    var n := Next(s, a);
    assert [a, b][1..] == [b] && [b][1..] == [];
    assert Runs(n, [b], Next(n, b)) by { assert Runs(Next(n, b), [], Next(n, b)); }
    assert Forward(s, [a, b]) ==> Forward(n, [b]);
  }

  /** Such a step is reachable: a client whose clock is behind replaces the pair of another. */
  lemma LoweringCas(phys: seq<Lookup>, k: bytes, master: nat, p: bytes, q: bytes) returns (steps: seq<Step>, s: Cluster)
    requires IsMaster(Ranks(k, phys), master) && phys[master].Found?
    ensures Runs(Start(phys), steps, s) && !Forward(Start(phys), steps)
    ensures master < |s.replicas| && s.replicas[master] == map[k := Stamped(5, q)]
    ensures Write(k, Stamped(9, p)) in s.written
  {
    var first, second := Cas(master, k, CasArgument(0, [], 9, p)), Cas(master, k, CasArgument(9, p, 5, q));
    CreatesPair(phys, k, master, p);
    CasArgumentMeans(map[], k, 0, [], 9, p);
    var s1 := Next(Start(phys), first);
    LowersTime(s1, k, master, p, q);
    steps, s := [first, second], Next(s1, second);
    TwoSteps(Start(phys), first, second);
  }

  lemma RepairsWritten(s: Cluster, get: nat, key: bytes, rs: seq<Response>, newest: Lookup)
    requires Sourced(s) && Enabled(s, Finish(get, key, rs, newest))
    ensures newest.Found? ==> Write(key, newest.value) in s.written
  {
    if newest.Found? {
      var i :| 0 <= i < |rs| && Dated(rs[i]) && rs[i].v == newest.value;
      assert Genuine(s, get, key, i, rs[i]);
    }
  }

  lemma StepProvenance(s: Cluster, step: Step)
    requires Sourced(s) && Enabled(s, step)
    ensures Sourced(Next(s, step))
  {
    match step
    case ClientSet(key, value) =>
    case Deliver(m) =>
    case Serve(get, at, key) =>
    case Finish(get, key, rs, newest) => RepairsWritten(s, get, key, rs, newest);
    case Cas(master, key, arg) =>
  }

  lemma StepKept(s: Cluster, step: Step)
    requires Safe(s) && Enabled(s, step) && KeepsTime(s, step)
    ensures Kept(Next(s, step))
  {
    var s' := Next(s, step);
    forall m | m in s'.delivered
      ensures AtLeast(s', m.to, m.key, Stamp(m.value))
    {
      if m in s.delivered {
        StepMonotone(s, step, m.to, m.key, Stamp(m.value));
      }
    }
    forall r | r in s'.replies && r.found.Found?
      ensures AtLeast(s', r.from, r.key, Stamp(r.found.value))
    {
      if r in s.replies {
        StepMonotone(s, step, r.from, r.key, Stamp(r.found.value));
      }
    }
  }

  /** A run: each step is enabled in the state the earlier ones lead to. */
  ghost predicate Runs(s: Cluster, steps: seq<Step>, s': Cluster)
    decreases |steps|
  {
    if steps == [] then s' == s
    else Enabled(s, steps[0]) && Runs(Next(s, steps[0]), steps[1..], s')
  }

  /** No step of the run goes back in time. */
  ghost predicate Forward(s: Cluster, steps: seq<Step>)
    decreases |steps|
  {
    steps != [] ==> Enabled(s, steps[0]) && KeepsTime(s, steps[0]) && Forward(Next(s, steps[0]), steps[1..])
  }

  /** Over every run, every stored, sent or answered pair was written by some client. */
  lemma {:induction false} RunSourced(s: Cluster, steps: seq<Step>, s': Cluster)
    requires Sourced(s) && Runs(s, steps, s')
    ensures Sourced(s') && s'.phys == s.phys
    ensures s.msgs <= s'.msgs && s.replies <= s'.replies && s.delivered <= s'.delivered && s.written <= s'.written
    decreases |steps|
  {
    if steps != [] {
      StepProvenance(s, steps[0]);
      RunSourced(Next(s, steps[0]), steps[1..], s');
    }
  }

  /** Over every run that does not go back in time, no timestamp at a holder does either. */
  lemma {:induction false} RunSafe(s: Cluster, steps: seq<Step>, s': Cluster)
    requires Safe(s) && Runs(s, steps, s') && Forward(s, steps)
    ensures Safe(s') && s'.phys == s.phys
    ensures s.msgs <= s'.msgs && s.replies <= s'.replies && s.delivered <= s'.delivered
    ensures forall i, k, t :: AtLeast(s, i, k, t) ==> AtLeast(s', i, k, t)
    decreases |steps|
  {
    if steps != [] {
      var n := Next(s, steps[0]);
      StepProvenance(s, steps[0]);
      StepKept(s, steps[0]);
      RunSafe(n, steps[1..], s');
      forall i, k, t | AtLeast(s, i, k, t)
        ensures AtLeast(s', i, k, t)
      {
        StepMonotone(s, steps[0], i, k, t);
        assert AtLeast(n, i, k, t);
      }
    }
  }

  /** From an empty cluster: provenance over every run, bounds over those that go forward. */
  lemma SafeFromStart(phys: seq<Lookup>, steps: seq<Step>, s': Cluster)
    requires Runs(Start(phys), steps, s')
    ensures Sourced(s') && s'.phys == phys
    ensures Forward(Start(phys), steps) ==> Safe(s')
  {
    StartSafe(phys);
    RunSourced(Start(phys), steps, s');
    if Forward(Start(phys), steps) {
      RunSafe(Start(phys), steps, s');
    }
  }

  /**
    Read-repair: once the repair messages of a finished Get have been delivered, in any
    later state every present holder is at least as new as the value the Get returned.
   */
  lemma RepairCompletes(s: Cluster, get: nat, key: bytes, rs: seq<Response>, v: bytes,
                        steps: seq<Step>, s': Cluster, i: nat)
    requires Safe(s) && Enabled(s, Finish(get, key, rs, Found(v)))
    requires var n := Next(s, Finish(get, key, rs, Found(v))); Runs(n, steps, s') && Forward(n, steps)
    requires Repairs(s, key, rs, Found(v)) <= s'.delivered
    requires Present(s, i)
    ensures AtLeast(s', i, key, Stamp(v))
  {
    var step := Finish(get, key, rs, Found(v));
    StepProvenance(s, step);
    StepKept(s, step);
    RunSafe(Next(s, step), steps, s');
    assert Genuine(s, get, key, i, rs[i]);
    if Stamp(v) > TimeOf(rs[i]) {
      assert Msg(i, key, v) in Repairs(s, key, rs, Found(v));
    } else {
      StampAfterZero(v);
      assert AtLeast(s, i, key, Stamp(rs[i].v));
      StepMonotone(s, step, i, key, Stamp(rs[i].v));
      assert AtLeast(Next(s, step), i, key, Stamp(v));
    }
  }

  // ------------------------------------------------------ reads see writes

  /** A holder's answer is what its map gives, as the primitive computes it. */
  method ServeFrom(c: PMap, key: bytes) returns (r: Lookup)
    requires c.Valid() && NoMarkers(c.hm.table)
    ensures r == Served(c.Model(), key)
    ensures PlainKey(key) && key in c.Model() ==> r == Found(c.Model()[key])
  {
    r := c.Get(Low32(FNV1a64(key)), key);
  }

  /** A holder that serves a plain key answers the pair it holds. */
  lemma ServesWhatItHolds(s: Cluster, get: nat, at: nat, key: bytes)
    requires Enabled(s, Serve(get, at, key)) && PlainKey(key)
    ensures GetReply(get, at, key, LookupIn(s.replicas[at], key)) in Next(s, Serve(get, at, key)).replies
  {
  }

  /** Every present holder has a pair of `key` from time `t` or later, and Get number `get` heard no other. */
  ghost predicate Visible(s: Cluster, get: nat, key: bytes, t: int) {
    && (forall i :: Present(s, i) ==> AtLeast(s, i, key, t))
    && (forall r :: r in s.replies && r.get == get && r.key == key ==>
          r.found.Found? && Stamp(r.found.value) >= t)
  }

  lemma VisibleStep(s: Cluster, step: Step, get: nat, key: bytes, t: int)
    requires Visible(s, get, key, t) && PlainKey(key) && Enabled(s, step) && KeepsTime(s, step)
    ensures Visible(Next(s, step), get, key, t)
  {
    var s' := Next(s, step);
    forall i | Present(s', i)
      ensures AtLeast(s', i, key, t)
    {
      assert Present(s, i);
      StepMonotone(s, step, i, key, t);
    }
  }

  lemma {:induction false} VisibleRun(s: Cluster, steps: seq<Step>, s': Cluster, get: nat, key: bytes, t: int)
    requires Visible(s, get, key, t) && PlainKey(key) && Runs(s, steps, s') && Forward(s, steps)
    ensures Visible(s', get, key, t)
    decreases |steps|
  {
    if steps != [] {
      VisibleStep(s, steps[0], get, key, t);
      VisibleRun(Next(s, steps[0]), steps[1..], s', get, key, t);
    }
  }

  /** A Get that hears from a holder returns something at least as new as what is visible. */
  lemma GetReturnsVisible(s: Cluster, get: nat, key: bytes, rs: seq<Response>, newest: Lookup, t: int, i: nat)
    requires Sourced(s) && Visible(s, get, key, t) && Enabled(s, Finish(get, key, rs, newest))
    requires i < |rs| && rs[i].Value?
    ensures newest.Found? && Stamp(newest.value) >= t
  {
    assert Genuine(s, get, key, i, rs[i]);
    var found := if rs[i].v == [] then Absent else Found(rs[i].v);
    assert GetReply(get, i, key, found) in s.replies;
    assert Write(key, rs[i].v) in s.written;
    assert Dated(rs[i]);
  }

  /**
    Reads see writes: once a Set of a plain key is matched by every present holder, a Get
    with a fresh number that hears from any holder returns a value at least as new.
   */
  lemma ReadsSeeWrites(s: Cluster, key: bytes, value: bytes, steps: seq<Step>, s1: Cluster,
                       get: nat, more: seq<Step>, s2: Cluster, rs: seq<Response>, newest: Lookup, i: nat)
    requires Safe(s) && Enabled(s, ClientSet(key, value)) && PlainKey(key)
    requires var n := Next(s, ClientSet(key, value)); Runs(n, steps, s1) && Forward(n, steps)
    requires forall m :: m in Next(s, ClientSet(key, value)).msgs && m.key == key && m.value == value ==>
      m in s1.delivered
    requires forall r :: r in s1.replies ==> r.get != get
    requires Runs(s1, more, s2) && Forward(s1, more)
    requires Enabled(s2, Finish(get, key, rs, newest)) && i < |rs| && rs[i].Value?
    ensures newest.Found? && Stamp(newest.value) >= Stamp(value)
  {
    var step := ClientSet(key, value);
    StepProvenance(s, step);
    RunSourced(Next(s, step), steps, s1);
    forall j | Present(s1, j)
      ensures AtLeast(s1, j, key, Stamp(value))
    {
      SetReachesAll(s, key, value, steps, s1, j);
    }
    VisibleRun(s1, more, s2, get, key, Stamp(value));
    RunSourced(s1, more, s2);
    GetReturnsVisible(s2, get, key, rs, newest, Stamp(value), i);
  }

  /** A finished Get repairs exactly the present holders that are behind, with what it returns. */
  lemma RepairsExact(s: Cluster, get: nat, key: bytes, rs: seq<Response>, v: bytes, m: Msg)
    requires Enabled(s, Finish(get, key, rs, Found(v)))
    ensures m in Repairs(s, key, rs, Found(v)) <==>
      && m.key == key && m.value == v && Present(s, m.to) && !rs[m.to].NoServer?
      && (rs[m.to].Value? && |rs[m.to].v| >= 8 ==> Stamp(rs[m.to].v) < Stamp(v))
  {
    StampAfterZero(v);
  }

  /** A successful CAS writes to the present holders other than the master, an unsuccessful one to none. */
  lemma CasMessages(s: Cluster, master: nat, key: bytes, arg: bytes, m: Msg)
    requires Enabled(s, Cas(master, key, arg)) && m !in s.msgs
    ensures m in Next(s, Cas(master, key, arg)).msgs <==>
      && CasAccepts(s.replicas[master], key, arg)
      && m.key == key && m.value == CasNew(arg) && Present(s, m.to) && m.to != master
  {
  }

  /** A Set whose messages have all arrived is matched by every present holder from then on. */
  lemma SetReachesAll(s: Cluster, key: bytes, value: bytes, steps: seq<Step>, s': Cluster, i: nat)
    requires Safe(s) && Enabled(s, ClientSet(key, value))
    requires var n := Next(s, ClientSet(key, value)); Runs(n, steps, s') && Forward(n, steps)
    requires forall m :: m in Next(s, ClientSet(key, value)).msgs && m.key == key && m.value == value ==>
      m in s'.delivered
    requires Present(s, i)
    ensures AtLeast(s', i, key, Stamp(value))
  {
    var step := ClientSet(key, value);
    StepProvenance(s, step);
    StepKept(s, step);
    RunSafe(Next(s, step), steps, s');
    assert i in Holders(s);
    assert Msg(i, key, value) in Next(s, step).msgs;
  }

  /** A successful CAS is matched by the master at once and by each slave once its Set arrives. */
  lemma CasReachesAll(s: Cluster, master: nat, key: bytes, arg: bytes, steps: seq<Step>, s': Cluster, i: nat)
    requires Safe(s) && Enabled(s, Cas(master, key, arg)) && CasAccepts(s.replicas[master], key, arg)
    requires KeepsTime(s, Cas(master, key, arg))
    requires var n := Next(s, Cas(master, key, arg)); Runs(n, steps, s') && Forward(n, steps)
    requires forall m :: m in Next(s, Cas(master, key, arg)).msgs && m.key == key && m.value == CasNew(arg) ==>
      m in s'.delivered
    requires Present(s, i)
    ensures AtLeast(s', i, key, Stamp(CasNew(arg)))
  {
    var step := Cas(master, key, arg);
    var n := Next(s, step);
    StepProvenance(s, step);
    StepKept(s, step);
    RunSafe(n, steps, s');
    if i == master {
      assert AtLeast(n, i, key, Stamp(CasNew(arg)));
    } else {
      assert i in Holders(s) - {master};
      assert Msg(i, key, CasNew(arg)) in n.msgs;
    }
  }
}
