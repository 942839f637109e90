/** Runs and reopening together: what a run with room leaves on disk is its map. */
module Persistence {
  import opened Bytes
  import opened Records
  import opened HashMaps
  import opened Dictionary
  import opened Views
  import opened PMaps
  import opened Replay
  import opened Runs
  import opened Capacity
  import MapSums
  import Checksums

  function Tombstones(log: seq<Record>): nat {
    if log == [] then 0
    else Tombstones(log[..|log| - 1]) + if log[|log| - 1].val == [] then 1 else 0
  }

  /** Every record that takes a bucket is live or was buried. */
  lemma {:induction false} InsertionsCount(log: seq<Record>)
    requires WellFormed(log)
    ensures Insertions(log) == |LastPos(log)| + Tombstones(log)
  {
    if log != [] {
      var n := |log| - 1;
      WellFormedPrefix(log, n);
      InsertionsCount(log[..n]);
      LivePosStep(LastPos(log[..n]), log[n], n);
    }
  }

  lemma LiveKeysOfLog(log: seq<Record>)
    ensures |LastPos(log)| <= |KeysOf(log)|
  {
    forall k | k in LastPos(log)
      ensures k in KeysOf(log)
    {
      LastPosIsLast(log, k);
      assert log[LastPos(log)[k]] in log;
    }
    MapSums.SubsetSize(LastPos(log).Keys, KeysOf(log));
  }

  lemma {:induction false} TombstonesPrefix(log: seq<Record>, i: nat)
    requires i <= |log|
    ensures Tombstones(log[..i]) <= Tombstones(log)
  {
    if i == |log| {
      assert log[..i] == log;
    } else {
      var n := |log| - 1;
      TombstonesPrefix(log[..n], i);
      assert log[..n][..i] == log[..i];
    }
  }

  lemma InsertionsBound(log: seq<Record>, i: nat)
    requires WellFormed(log) && i <= |log|
    ensures Insertions(log[..i]) <= |KeysOf(log)| + Tombstones(log)
  {
    WellFormedPrefix(log, i);
    InsertionsCount(log[..i]);
    LiveKeysOfLog(log[..i]);
    MapSums.SubsetSize(KeysOf(log[..i]), KeysOf(log));
    TombstonesPrefix(log, i);
  }

  // ---------------------------------------------------- the log of a run

  lemma LogStep(log: seq<Record>, r: Record)
    ensures KeysOf(log + [r]) == KeysOf(log) + {r.key}
    ensures Tombstones(log + [r]) == Tombstones(log) + if r.val == [] then 1 else 0
  {
    assert (log + [r])[..|log|] == log;
    forall k | k in KeysOf(log) + {r.key}
      ensures k in KeysOf(log + [r])
    {
      if k == r.key {
        assert r in log + [r];
      } else {
        var x :| x in log && x.key == k;
        assert x in log + [r];
      }
    }
  }

  /** An operation appends at most one record: of its own key, and a tombstone only for Del. */
  lemma Appends(size: nat, s: State, op: Op) returns (r: Record)
    ensures var s' := Next(size, s, op);
      s'.log == s.log
      || (s'.log == s.log + [r] && (r.key in s.m || r.key in KeyWritten(op)) && (r.val == [] ==> op.DelOp?))
  {
    match op
    case GetOp(k) => r := Record(k, []);
    case SetOp(k, v) => r := Record(k, v);
    case DelOp(k, v) => r := Record(k, []);
    case CasOp(k, v) => r := Record(k, if |v| >= 24 then CasNew(v) else []);
    case PollOp(now) => r := Record([], []);
  }

  lemma NextLog(size: nat, s: State, op: Op)
    ensures var s' := Next(size, s, op);
      && KeysOf(s'.log) <= KeysOf(s.log) + s.m.Keys + KeyWritten(op)
      && Tombstones(s'.log) <= Tombstones(s.log) + if op.DelOp? then 1 else 0
  {
    var r := Appends(size, s, op);
    LogStep(s.log, r);
  }

  lemma {:induction false} AfterLog(size: nat, s: State, ops: seq<Op>)
    ensures var s' := After(size, s, ops);
      && KeysOf(s'.log) <= KeysOf(s.log) + s.m.Keys + KeysWritten(ops)
      && Tombstones(s'.log) <= Tombstones(s.log) + Deletions(ops)
  {
    if ops != [] {
      var n := |ops| - 1;
      AfterLog(size, s, ops[..n]);
      RunKeys(size, s, ops[..n]);
      NextLog(size, After(size, s, ops[..n]), ops[n]);
    }
  }

  const EMPTY := State(map[], Load(65536, 0), 0, [], Checksums.START, 0)

  /** The log of a run with room can be restored, and no key ends the replay early. */
  lemma RunRestorable(size: nat, ops: seq<Op>)
    requires Roomy(size, EMPTY, ops) && WellFormed(After(size, EMPTY, ops).log) && [] !in KeysWritten(ops)
    ensures var log := After(size, EMPTY, ops).log;
      Restorable(log) && forall i :: 0 <= i < |log| ==> log[i].key != []
  {
    var log := After(size, EMPTY, ops).log;
    AfterLog(size, EMPTY, ops);
    assert KeysOf(EMPTY.log) + EMPTY.m.Keys + KeysWritten(ops) == KeysWritten(ops);
    assert EMPTY.m.Keys + KeysWritten(ops) == KeysWritten(ops);
    MapSums.SubsetSize(KeysOf(log), KeysWritten(ops));
    forall i | 0 <= i < |log|
      ensures Insertions(log[..i]) < LoadLimit(DEFAULT_SIZE_LIMIT) && log[i].key != []
    {
      InsertionsBound(log, i);
      assert log[i] in log;
    }
    FewInsertionsRestorable(log);
  }

  /** A run of a new map with room, non-empty keys and four bytes to spare survives reopening. */
  method RunAndReopen(size: nat, ops: seq<Op>) returns (c: PMap, replies: seq<Reply>, d: PMap)
    requires size <= TWO_32 && AllTimed(size, EMPTY, ops) && Roomy(size, EMPTY, ops)
    requires TotalBytes(ops) + 4 <= size && [] !in KeysWritten(ops)
    ensures Run(size, EMPTY, ops, replies, StateOf(c))
    ensures forall i :: 0 <= i < |replies| ==> !CapacityError(replies[i])
    ensures d.Valid() && d.Durable() && d.Summed() && d.Model() == After(size, EMPTY, ops).m
  {
    c := new PMap(size);
    replies := RunInRoom(c, ops);
    RunMarkers(size, EMPTY, ops);
    OpenLog(c.image);
    RunRestorable(size, ops);
    d := Reopen(c);
    WhatOpened(d, Replayable(c.st.log));
  }
}
