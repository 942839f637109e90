/** When a run has room: no operation is refused by a full store or a full index. */
module Capacity {
  import opened Bytes
  import opened Tables
  import opened HashMaps
  import opened Dictionary
  import opened Representation
  import opened PMaps
  import opened Runs
  import Bits
  import MapSums

  predicate CapacityError(reply: Reply) {
    reply.Done? && (reply.err.StoreFull? || reply.err.TableFull?)
  }

  /** The bytes that an operation may add to the log. */
  function OfferedBytes(op: Op): nat {
    match op
    case GetOp(_) => 0
    case SetOp(k, v) => PairSize(k, v)
    case DelOp(k, _) => PairSize(k, [])
    case CasOp(k, v) => PairSize(k, v)
    case PollOp(_) => 0
  }

  function TotalBytes(ops: seq<Op>): nat {
    if ops == [] then 0 else TotalBytes(ops[..|ops| - 1]) + OfferedBytes(ops[|ops| - 1])
  }

  function KeyWritten(op: Op): set<bytes> {
    if op.SetOp? || op.CasOp? then {op.key} else {}
  }

  function KeysWritten(ops: seq<Op>): set<bytes> {
    if ops == [] then {} else KeysWritten(ops[..|ops| - 1]) + KeyWritten(ops[|ops| - 1])
  }

  function Deletions(ops: seq<Op>): nat {
    if ops == [] then 0 else Deletions(ops[..|ops| - 1]) + if ops[|ops| - 1].DelOp? then 1 else 0
  }

  /** What holds of the load of every map. */
  ghost predicate Loaded(s: State) {
    Regular(s.load) && |s.m| <= s.load.stored
  }

  lemma MapLoaded(c: PMap)
    requires c.Valid()
    ensures Loaded(StateOf(c))
  {
    LiveBuckets(c.image);
    LiveAtMostOccupied(c.image.t);
    assert c.hm.size == Bits.Pow2(c.hm.sizelog2);
  }

  /** The deleted markers in the index. */
  function Markers(s: State): int {
    s.load.stored - |s.m|
  }

  lemma CheckedMarkers(s: State)
    requires Loaded(s)
    ensures Loaded(Checked(s)) && Markers(Checked(s)) <= Markers(s)
  {
    GrownRegular(s.load, |s.m|);
  }

  lemma PutMarkers(s: State, k: bytes, v: bytes)
    requires Loaded(s)
    ensures Loaded(Put(s, k, v)) && Markers(Put(s, k, v)) == Markers(s)
  {
    SizeAfterPut(s.m, k, v);
  }

  lemma SizeAfterPut(m: Dict, k: bytes, v: bytes)
    ensures |m[k := v]| == |m| + if k in m then 0 else 1
  {
    assert m[k := v].Keys == m.Keys + {k};
  }

  lemma SizeAfterDel(m: Dict, k: bytes)
    ensures |m - {k}| == |m| - if k in m then 1 else 0
  {
    assert (m - {k}).Keys == m.Keys - {k};
  }

  lemma WriteMarkers(size: nat, s: State, k: bytes, v: bytes)
    requires Loaded(s)
    ensures Loaded(Checked(s)) && Markers(Checked(s)) <= Markers(s)
    ensures var s' := PutOutcome(size, Checked(s), k, v).next;
      Loaded(s') && Markers(s') <= Markers(s) && s'.used <= s.used + PairSize(k, v)
  {
    CheckedMarkers(s);
    PutMarkers(Checked(s), k, v);
  }

  lemma SetMarkers(size: nat, s: State, k: bytes, v: bytes)
    requires Loaded(s)
    ensures var s' := SetOutcome(size, s, k, v).next;
      Loaded(s') && Markers(s') <= Markers(s) && s'.used <= s.used + PairSize(k, v)
  {
    WriteMarkers(size, s, k, v);
  }

  lemma CasMarkers(size: nat, s: State, k: bytes, v: bytes)
    requires Loaded(s)
    ensures var s' := CasOutcome(size, s, k, v).next;
      Loaded(s') && Markers(s') <= Markers(s) && s'.used <= s.used + PairSize(k, v)
  {
    if |v| >= 24 {
      WriteMarkers(size, s, k, CasNew(v));
    }
  }

  lemma DelMarkers(size: nat, s: State, k: bytes, v: bytes)
    requires Loaded(s)
    ensures var s' := DelOutcome(size, s, k, v).next;
      Loaded(s') && Markers(s') <= Markers(s) + 1 && s'.used <= s.used + PairSize(k, [])
  {
    SizeAfterDel(s.m, k);
  }

  /** Only a deletion adds a marker. */
  lemma StepMarkers(size: nat, s: State, op: Op)
    requires Loaded(s)
    ensures var s' := Next(size, s, op);
      && Loaded(s') && Markers(s') <= Markers(s) + (if op.DelOp? then 1 else 0)
      && s'.used <= s.used + OfferedBytes(op)
  {
    match op
    case GetOp(k) =>
    case SetOp(k, v) => SetMarkers(size, s, k, v);
    case DelOp(k, v) => DelMarkers(size, s, k, v);
    case CasOp(k, v) => CasMarkers(size, s, k, v);
    case PollOp(now) =>
  }

  lemma StepKeys(size: nat, s: State, op: Op)
    ensures Next(size, s, op).m.Keys <= s.m.Keys + KeyWritten(op)
  {
  }

  /** Markers are bounded by deletions and bytes by those offered. */
  lemma {:induction false} RunMarkers(size: nat, s: State, ops: seq<Op>)
    requires Loaded(s)
    ensures var s' := After(size, s, ops);
      Loaded(s') && Markers(s') <= Markers(s) + Deletions(ops) && s'.used <= s.used + TotalBytes(ops)
  {
    if ops != [] {
      var n := |ops| - 1;
      RunMarkers(size, s, ops[..n]);
      StepMarkers(size, After(size, s, ops[..n]), ops[n]);
    }
  }

  lemma {:induction false} RunKeys(size: nat, s: State, ops: seq<Op>)
    ensures After(size, s, ops).m.Keys <= s.m.Keys + KeysWritten(ops)
  {
    if ops != [] {
      var n := |ops| - 1;
      RunKeys(size, s, ops[..n]);
      StepKeys(size, After(size, s, ops[..n]), ops[n]);
    }
  }

  /**
    The offered bytes fit the store, and the keys there are or will be, the markers and
    the deletions are together fewer than the largest index can take.
   */
  ghost predicate Roomy(size: nat, s: State, ops: seq<Op>) {
    && s.used + TotalBytes(ops) < size
    && |s.m.Keys + KeysWritten(ops)| + Markers(s) + Deletions(ops) < LoadLimit(DEFAULT_SIZE_LIMIT)
  }

  lemma {:induction false} DemandGrows(ops: seq<Op>, i: nat)
    requires i <= |ops|
    ensures KeysWritten(ops[..i]) <= KeysWritten(ops) && Deletions(ops[..i]) <= Deletions(ops)
    ensures TotalBytes(ops[..i]) + (if i < |ops| then OfferedBytes(ops[i]) else 0) <= TotalBytes(ops)
  {
    var n := |ops| - 1;
    if i == |ops| {
      assert ops[..i] == ops;
    } else if i < n {
      DemandGrows(ops[..n], i);
      assert ops[..n][..i] == ops[..i];
    }
  }

  lemma RoomyPrefix(size: nat, s: State, ops: seq<Op>, i: nat)
    requires i <= |ops| && Roomy(size, s, ops)
    ensures Roomy(size, s, ops[..i])
  {
    DemandGrows(ops, i);
    MapSums.SubsetSize(s.m.Keys + KeysWritten(ops[..i]), s.m.Keys + KeysWritten(ops));
  }

  lemma RoomyRoom(size: nat, s: State, ops: seq<Op>)
    requires Loaded(s) && Roomy(size, s, ops)
    ensures var s' := After(size, s, ops); Room(s'.load) && s'.used <= s.used + TotalBytes(ops)
  {
    var s' := After(size, s, ops);
    RunMarkers(size, s, ops);
    RunKeys(size, s, ops);
    MapSums.SubsetSize(s'.m.Keys, s.m.Keys + KeysWritten(ops));
    RoomBelowLimit(s'.load);
  }

  lemma StepWithRoom(size: nat, s: State, op: Op, reply: Reply)
    requires Answers(size, s, op, reply) && Room(s.load) && s.used + OfferedBytes(op) < size
    ensures !CapacityError(reply)
  {
  }

  lemma ReplyInRoom(size: nat, s: State, ops: seq<Op>, i: nat, reply: Reply)
    requires Loaded(s) && Roomy(size, s, ops) && i < |ops|
    requires Answers(size, After(size, s, ops[..i]), ops[i], reply)
    ensures !CapacityError(reply)
  {
    RoomyPrefix(size, s, ops, i);
    RoomyRoom(size, s, ops[..i]);
    DemandGrows(ops, i);
    StepWithRoom(size, After(size, s, ops[..i]), ops[i], reply);
  }

  /** Then no operation of the run is refused for lack of room. */
  lemma NoCapacityError(size: nat, s: State, ops: seq<Op>, replies: seq<Reply>, s': State)
    requires Run(size, s, ops, replies, s') && Loaded(s) && Roomy(size, s, ops)
    ensures forall i :: 0 <= i < |replies| ==> !CapacityError(replies[i])
  {
    forall i | 0 <= i < |replies|
      ensures !CapacityError(replies[i])
    {
      ReplyInRoom(size, s, ops, i, replies[i]);
    }
  }

  /** A run of a map with room for it meets no capacity error, so nothing is lost. */
  method RunInRoom(c: PMap, ops: seq<Op>) returns (replies: seq<Reply>)
    requires c.Valid() && AllTimed(c.st.size, StateOf(c), ops)
    requires Roomy(c.st.size, StateOf(c), ops)
    modifies c, c.hm, c.hm.mem, c.st, c.st.file, c.ck
    ensures c.Valid() && Run(c.st.size, old(StateOf(c)), ops, replies, StateOf(c))
    ensures forall i :: 0 <= i < |replies| ==> !CapacityError(replies[i])
    ensures old(c.Durable()) ==> c.Durable()
    ensures old(c.Summed()) ==> c.Summed()
  {
    MapLoaded(c);
    replies := RunAll(c, ops);
    NoCapacityError(c.st.size, old(StateOf(c)), ops, replies, StateOf(c));
  }
}
