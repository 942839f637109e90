/**
  Whole runs: any sequence of operations on a map behaves as the same sequence on
  the abstract dictionary.
 */
module Runs {
  import opened Bytes
  import opened Hashing
  import opened Records
  import opened Dictionary
  import opened Views
  import opened PMaps
  import opened Checksums
  import opened HashMaps

  datatype Op =
    | GetOp(key: bytes)
    | SetOp(key: bytes, value: bytes)
    | DelOp(key: bytes, value: bytes)
    | CasOp(key: bytes, value: bytes)
    | PollOp(now: int)

  datatype Reply = Got(found: Lookup) | Done(err: Error) | Reported(sum: u64)

  // -------------------------------------------------- the abstract machine

  /**
    What operations depend on: the pairs, the load of the index, the log, its bytes and those
    counted as deleted, and the checksum windows.
   */
  datatype State = State(m: Dict, load: Load, used: nat, log: seq<Record>, w: Windows, deleted: nat)

  ghost function StateOf(c: PMap): State
    reads c, c.hm, c.st, c.ck
  {
    State(c.Model(), c.IndexLoad(), c.st.length, c.st.log, c.ck.View(), c.st.deleted)
  }

  datatype Outcome = Outcome(err: Error, next: State)

  predicate Fits(size: nat, s: State, k: bytes, v: bytes) {
    s.used + PairSize(k, v) < size
  }

  /** After the load check that Set and CAS begin with. */
  function Checked(s: State): State {
    s.(load := Grown(s.load, |s.m|))
  }

  function Put(s: State, k: bytes, v: bytes): State {
    State(s.m[k := v], Taken(s.load, k !in s.m), s.used + PairSize(k, v), s.log + [Record(k, v)],
          With(Without(s.w, s.m, k, Stamp(v)), k, v), s.deleted)
  }

  /** The checksum loses the pair of a key. */
  function Drained(s: State, k: bytes, t: int): State {
    s.(w := Without(s.w, s.m, k, t))
  }

  /** Write if there is room in a store of `size` bytes. */
  function PutOutcome(size: nat, s: State, k: bytes, v: bytes): Outcome {
    if Fits(size, s, k, v) then Outcome(NoError, Put(s, k, v)) else Outcome(StoreFull, s)
  }

  function SetOutcome(size: nat, s: State, k: bytes, v: bytes): Outcome {
    if |v| < 8 then Outcome(ValueTooShort, s)
    else if !Room(s.load) then Outcome(TableFull, s)
    else if Newer(s.m, k, v) then PutOutcome(size, Checked(s), k, v)
    else Outcome(NoError, Checked(s))
  }

  ghost function CasOutcome(size: nat, s: State, k: bytes, v: bytes): Outcome {
    if |v| < 24 then Outcome(ValueTooShort, s)
    else if !Room(s.load) then Outcome(TableFull, s)
    else if CasAccepts(s.m, k, v) then
      if Fits(size, s, k, CasNew(v)) then Outcome(NoError, Put(Checked(s), k, CasNew(v)))
      else Outcome(StoreFull, Drained(Checked(s), k, Stamp(CasNew(v))))
    else Outcome(CasRefusal(s.m, k, v), Checked(s))
  }

  /** The pair goes even when its tombstone does not fit. */
  function DelOutcome(size: nat, s: State, k: bytes, v: bytes): Outcome {
    if !Deletes(s.m, k, v) then Outcome(NoError, s)
    else
      var gone := s.(m := s.m - {k}, w := Without(s.w, s.m, k, Stamp(v)), deleted := s.deleted + PairSize(k, s.m[k]));
      if Fits(size, s, k, [])
      then Outcome(NoError, gone.(used := s.used + PairSize(k, []), log := s.log + [Record(k, [])]))
      else Outcome(StoreFull, gone)
  }

  /** The state after one operation on a store of `size` bytes. */
  ghost function Next(size: nat, s: State, op: Op): State {
    match op
    case GetOp(_) => s
    case SetOp(k, v) => SetOutcome(size, s, k, v).next
    case DelOp(k, v) => DelOutcome(size, s, k, v).next
    case CasOp(k, v) => CasOutcome(size, s, k, v).next
    case PollOp(now) => s.(w := Advance(s.w, 0, now))
  }

  /**
    The reply to an operation. It is determined by the state, but for a Get of a key with
    hash 1, which depends on the places of deleted buckets: it may get a pair of the log.
   */
  ghost predicate Answers(size: nat, s: State, op: Op, reply: Reply) {
    match op
    case GetOp(k) =>
      && reply.Got?
      && (PlainKey(k) ==> reply.found == LookupIn(s.m, k))
      && (Low32(FNV1a64(k)) == 0 ==> reply.found == Absent)
      && (reply.found.Found? ==> Record(k, reply.found.value) in s.log)
    case SetOp(k, v) => reply == Done(SetOutcome(size, s, k, v).err)
    case DelOp(k, v) => reply == Done(DelOutcome(size, s, k, v).err)
    case CasOp(k, v) => reply == Done(CasOutcome(size, s, k, v).err)
    case PollOp(now) => reply == Reported(Advance(s.w, 0, now).oldSum)
  }

  /** The state after a sequence of operations. */
  ghost function After(size: nat, s: State, ops: seq<Op>): State {
    if ops == [] then s else Next(size, After(size, s, ops[..|ops| - 1]), ops[|ops| - 1])
  }

  lemma AfterNext(size: nat, s: State, ops: seq<Op>, n: nat)
    requires n < |ops|
    ensures After(size, s, ops[..n + 1]) == Next(size, After(size, s, ops[..n]), ops[n])
  {
    assert ops[..n + 1][..n] == ops[..n];
  }

  /** Every operation is answered in the state that the earlier ones lead to. */
  ghost predicate AllAnswer(size: nat, s: State, ops: seq<Op>, replies: seq<Reply>) {
    && |replies| <= |ops|
    && forall i :: 0 <= i < |replies| ==> Answers(size, After(size, s, ops[..i]), ops[i], replies[i])
  }

  lemma AnswerNext(size: nat, s: State, ops: seq<Op>, replies: seq<Reply>, reply: Reply)
    requires AllAnswer(size, s, ops, replies) && |replies| < |ops|
    requires Answers(size, After(size, s, ops[..|replies|]), ops[|replies|], reply)
    ensures AllAnswer(size, s, ops, replies + [reply])
  {
  }

  ghost predicate Run(size: nat, s: State, ops: seq<Op>, replies: seq<Reply>, s': State) {
    |replies| == |ops| && AllAnswer(size, s, ops, replies) && s' == After(size, s, ops)
  }

  /** Callers give a timestamp to the Del of a live key. */
  ghost predicate WellTimed(s: State, op: Op) {
    op.DelOp? && op.key in s.m ==> |op.value| >= 8
  }

  ghost predicate AllTimed(size: nat, s: State, ops: seq<Op>) {
    forall i :: 0 <= i < |ops| ==> WellTimed(After(size, s, ops[..i]), ops[i])
  }

  /** A tombstone was refused: the one case in which the log loses track of the map. */
  predicate LosesLog(op: Op, reply: Reply) {
    op.DelOp? && reply == Done(StoreFull)
  }

  /** A CAS of a live pair was refused by a full store: the one case in which the checksum drifts. */
  predicate LosesSum(s: State, op: Op, reply: Reply) {
    op.CasOp? && reply == Done(StoreFull) && op.key in s.m
  }

  ghost predicate LogKept(ops: seq<Op>, replies: seq<Reply>) {
    forall i :: 0 <= i < |ops| && i < |replies| ==> !LosesLog(ops[i], replies[i])
  }

  ghost predicate SumKept(size: nat, s: State, ops: seq<Op>, replies: seq<Reply>) {
    forall i :: 0 <= i < |ops| && i < |replies| ==> !LosesSum(After(size, s, ops[..i]), ops[i], replies[i])
  }

  lemma KeptNext(size: nat, s: State, ops: seq<Op>, replies: seq<Reply>, reply: Reply)
    requires |replies| < |ops|
    ensures LogKept(ops, replies + [reply]) ==> LogKept(ops, replies) && !LosesLog(ops[|replies|], reply)
    ensures SumKept(size, s, ops, replies + [reply]) ==>
      SumKept(size, s, ops, replies) && !LosesSum(After(size, s, ops[..|replies|]), ops[|replies|], reply)
  {
    var rs := replies + [reply];
    assert forall i :: 0 <= i < |replies| ==> rs[i] == replies[i];
    assert rs[|replies|] == reply;
  }

  method Apply(c: PMap, op: Op) returns (reply: Reply)
    requires c.Valid() && WellTimed(StateOf(c), op)
    modifies c, c.hm, c.hm.mem, c.st, c.st.file, c.ck
    ensures c.Valid() && StateOf(c) == Next(c.st.size, old(StateOf(c)), op)
    ensures Answers(c.st.size, old(StateOf(c)), op, reply)
    ensures old(c.Durable()) && !LosesLog(op, reply) ==> c.Durable()
    ensures old(c.Summed()) && !LosesSum(old(StateOf(c)), op, reply) ==> c.Summed()
    ensures c.hm.mem == old(c.hm.mem) || fresh(c.hm.mem)
  {
    match op
    case GetOp(k) =>
      var r := ApplyGet(c, k);
      return Got(r);
    case SetOp(k, v) =>
      var err := ApplySet(c, k, v);
      return Done(err);
    case DelOp(k, v) =>
      var err := ApplyDel(c, k, v);
      return Done(err);
    case CasOp(k, v) =>
      var err := ApplyCas(c, k, v);
      return Done(err);
    case PollOp(now) =>
      var r := ApplyPoll(c, now);
      return Reported(r);
  }

  method ApplyPoll(c: PMap, now: int) returns (r: u64)
    requires c.Valid()
    modifies c.ck
    ensures c.Valid() && StateOf(c) == Next(c.st.size, old(StateOf(c)), PollOp(now)) && r == c.ck.oldSum
    ensures old(c.Durable()) ==> c.Durable()
    ensures old(c.Summed()) ==> c.Summed()
  {
    r := c.ck.Checksum(now);
  }

  method ApplyGet(c: PMap, k: bytes) returns (r: Lookup)
    requires c.Valid()
    ensures Answers(c.st.size, StateOf(c), GetOp(k), Got(r))
  {
    r := c.Get(Low32(FNV1a64(k)), k);
    SightSees(c.image);
  }

  method ApplySet(c: PMap, k: bytes, v: bytes) returns (err: Error)
    requires c.Valid()
    modifies c, c.hm, c.hm.mem, c.st, c.st.file, c.ck
    ensures c.Valid() && SetOutcome(c.st.size, old(StateOf(c)), k, v) == Outcome(err, StateOf(c))
    ensures old(c.Durable()) ==> c.Durable()
    ensures old(c.Summed()) ==> c.Summed()
    ensures c.hm.mem == old(c.hm.mem) || fresh(c.hm.mem)
  {
    err := c.Set(FNV1a64(k), k, v);
  }

  method ApplyDel(c: PMap, k: bytes, v: bytes) returns (err: Error)
    requires c.Valid() && WellTimed(StateOf(c), DelOp(k, v))
    modifies c, c.hm, c.hm.mem, c.st, c.st.file, c.ck
    ensures c.Valid() && DelOutcome(c.st.size, old(StateOf(c)), k, v) == Outcome(err, StateOf(c))
    ensures old(c.Durable()) && err.NoError? ==> c.Durable()
    ensures old(c.Summed()) ==> c.Summed()
    ensures c.hm.mem == old(c.hm.mem)
  {
    err := c.Del(FNV1a64(k), k, v);
  }

  method ApplyCas(c: PMap, k: bytes, v: bytes) returns (err: Error)
    requires c.Valid()
    modifies c, c.hm, c.hm.mem, c.st, c.st.file, c.ck
    ensures c.Valid() && CasOutcome(c.st.size, old(StateOf(c)), k, v) == Outcome(err, StateOf(c))
    ensures old(c.Durable()) ==> c.Durable()
    ensures old(c.Summed()) && !LosesSum(old(StateOf(c)), CasOp(k, v), Done(err)) ==> c.Summed()
    ensures c.hm.mem == old(c.hm.mem) || fresh(c.hm.mem)
  {
    err := c.CAS(FNV1a64(k), k, v);
  }

  /**
    Every run of a map is the run of the abstract machine, through any number of expansions:
    the replies to all writes, capacity errors included, and the final map are determined.
   */
  method RunAll(c: PMap, ops: seq<Op>) returns (replies: seq<Reply>)
    requires c.Valid() && AllTimed(c.st.size, StateOf(c), ops)
    modifies c, c.hm, c.hm.mem, c.st, c.st.file, c.ck
    ensures c.Valid() && Run(c.st.size, old(StateOf(c)), ops, replies, StateOf(c))
    ensures old(c.Durable()) && LogKept(ops, replies) ==> c.Durable()
    ensures old(c.Summed()) && SumKept(c.st.size, old(StateOf(c)), ops, replies) ==> c.Summed()
  {
    ghost var size, s := c.st.size, StateOf(c);
    replies := [];
    for n := 0 to |ops|
      invariant c.Valid() && |replies| == n && StateOf(c) == After(size, s, ops[..n])
      invariant AllAnswer(size, s, ops, replies)
      invariant c.hm.mem == old(c.hm.mem) || fresh(c.hm.mem)
      invariant old(c.Durable()) && LogKept(ops, replies) ==> c.Durable()
      invariant old(c.Summed()) && SumKept(size, s, ops, replies) ==> c.Summed()
    {
      AfterNext(size, s, ops, n);
      var reply := Apply(c, ops[n]);
      AnswerNext(size, s, ops, replies, reply);
      KeptNext(size, s, ops, replies, reply);
      replies := replies + [reply];
    }
    assert ops[..|ops|] == ops;
  }

  // ------------------------------------------------------ consequences

  ghost predicate AllSetsDone(ops: seq<Op>, replies: seq<Reply>)
    requires |ops| == |replies|
  {
    forall i :: 0 <= i < |ops| ==> ops[i].SetOp? && replies[i] == Done(NoError)
  }

  function Writes(ops: seq<Op>): seq<Write>
    requires forall i :: 0 <= i < |ops| ==> ops[i].SetOp?
  {
    seq(|ops|, i requires 0 <= i < |ops| => Write(ops[i].key, ops[i].value))
  }

  lemma AnswerPrefix(size: nat, s: State, ops: seq<Op>, replies: seq<Reply>, n: nat)
    requires n <= |replies| <= |ops| && AllAnswer(size, s, ops, replies)
    ensures AllAnswer(size, s, ops[..n], replies[..n])
  {
    forall i | 0 <= i < n
      ensures Answers(size, After(size, s, ops[..n][..i]), ops[i], replies[i])
    {
      assert ops[..n][..i] == ops[..i];
    }
  }

  lemma {:induction false} SetRun(size: nat, s: State, ops: seq<Op>, replies: seq<Reply>, s': State)
    requires |ops| == |replies| && AllSetsDone(ops, replies) && Run(size, s, ops, replies, s')
    ensures s'.m == RunSets(s.m, Writes(ops))
  {
    if ops != [] {
      var n := |ops| - 1;
      AnswerPrefix(size, s, ops, replies, n);
      SetRun(size, s, ops[..n], replies[..n], After(size, s, ops[..n]));
      assert Writes(ops)[..n] == Writes(ops[..n]);
      SetDone(size, After(size, s, ops[..n]), ops[n], replies[n]);
    }
  }

  lemma SetDone(size: nat, s: State, op: Op, reply: Reply)
    requires op.SetOp? && Answers(size, s, op, reply) && reply == Done(NoError)
    ensures Next(size, s, op).m == SetSpec(s.m, op.key, op.value)
  {
  }

  /**
    Two replicas that started with the same pairs and took the same set of writes, in any
    order and with any repetition, hold the same map and the same newest checksum.
   */
  lemma ReplicasConverge(c: PMap, s: State, ops: seq<Op>, replies: seq<Reply>,
                         d: PMap, t: State, ops': seq<Op>, replies': seq<Reply>)
    requires |ops| == |replies| && AllSetsDone(ops, replies) && Run(c.st.size, s, ops, replies, StateOf(c))
    requires |ops'| == |replies'| && AllSetsDone(ops', replies') && Run(d.st.size, t, ops', replies', StateOf(d))
    requires s.m == t.m && forall op :: op in ops <==> op in ops'
    requires Unambiguous(s.m, Writes(ops))
    requires c.Summed() && d.Summed()
    ensures c.Model() == d.Model() && c.ck.newSum == d.ck.newSum
  {
    SetRun(c.st.size, s, ops, replies, StateOf(c));
    SetRun(d.st.size, t, ops', replies', StateOf(d));
    SameWrites(ops, ops');
    SameWrites(ops', ops);
    Convergence(s.m, Writes(ops), Writes(ops'));
  }

  lemma SameWrites(ops: seq<Op>, ops': seq<Op>)
    requires forall i :: 0 <= i < |ops| ==> ops[i].SetOp?
    requires forall i :: 0 <= i < |ops'| ==> ops'[i].SetOp?
    requires forall op :: op in ops ==> op in ops'
    ensures forall w :: w in Writes(ops) ==> w in Writes(ops')
  {
    forall w | w in Writes(ops)
      ensures w in Writes(ops')
    {
      var i :| 0 <= i < |ops| && Writes(ops)[i] == w;
      assert ops[i] in ops';
      var j :| 0 <= j < |ops'| && ops'[j] == ops[i];
      assert Writes(ops')[j] == w;
    }
  }

  /** Two polls in later seconds without writes in between report the checksum of the map. */
  method SettledChecksum(c: PMap, t1: int, t2: int) returns (r: u64)
    requires c.Valid() && c.Summed() && t1 > c.ck.newTime && t2 > NextSecond(t1)
    modifies c.ck
    ensures c.Valid() && c.Summed() && r == StateChecksum(c.Model())
  {
    QuietWindows(c.ck.View(), t1, t2);
    var _ := c.ck.Checksum(t1);
    r := c.ck.Checksum(t2);
  }
}
