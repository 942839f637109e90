/** What polls of the checksum report over whole runs. */
module Reports {
  import opened Bytes
  import opened Records
  import opened Dictionary
  import opened PMaps
  import opened Checksums
  import opened Runs
  import MapSums

  // ------------------------------------------------- the events of a run

  lemma {:induction false} FeedConcat(w: Windows, es: seq<Event>, fs: seq<Event>)
    ensures Feed(w, es + fs) == Feed(Feed(w, es), fs)
  {
    if fs == [] {
      assert es + fs == es;
    } else {
      FeedConcat(w, es, fs[..|fs| - 1]);
      assert (es + fs)[..|es + fs| - 1] == es + fs[..|fs| - 1];
    }
  }

  /** A pair leaves the map at time `t`. */
  function Leaves(m: Dict, k: bytes, t: int): seq<Event> {
    if k in m then [Event(NegMod(Element(k, m[k])), t)] else []
  }

  function Enters(k: bytes, v: bytes): seq<Event> {
    [Event(Element(k, v), Stamp(v))]
  }

  /** What an operation tells the checksum: what leaves and what enters, at the time it carries. */
  ghost function EventsOf(size: nat, s: State, op: Op): seq<Event> {
    match op
    case GetOp(_) => []
    case SetOp(k, v) =>
      if Next(size, s, op).log != s.log then Leaves(s.m, k, Stamp(v)) + Enters(k, v) else []
    case DelOp(k, v) =>
      if k in s.m && k !in Next(size, s, op).m then Leaves(s.m, k, Stamp(v)) else []
    case CasOp(k, v) =>
      if |v| < 24 then []
      else
        var err := CasOutcome(size, s, k, v).err;
        if err.NoError? then Leaves(s.m, k, Stamp(CasNew(v))) + Enters(k, CasNew(v))
        else if err.StoreFull? then Leaves(s.m, k, Stamp(CasNew(v)))
        else []
    case PollOp(now) => [Event(0, now)]
  }

  ghost function AllEvents(size: nat, s: State, ops: seq<Op>): seq<Event> {
    if ops == [] then []
    else
      var n := |ops| - 1;
      AllEvents(size, s, ops[..n]) + EventsOf(size, After(size, s, ops[..n]), ops[n])
  }

  lemma FeedOne(w: Windows, e: Event)
    ensures Feed(w, [e]) == Advance(w, e.el, e.t)
  {
    assert [e][..0] == [];
  }

  lemma FeedLeaves(w: Windows, m: Dict, k: bytes, t: int)
    ensures Feed(w, Leaves(m, k, t)) == Without(w, m, k, t)
  {
    if k in m {
      FeedOne(w, Event(NegMod(Element(k, m[k])), t));
    }
  }

  lemma FeedReplaces(w: Windows, m: Dict, k: bytes, v: bytes)
    ensures Feed(w, Leaves(m, k, Stamp(v)) + Enters(k, v)) == With(Without(w, m, k, Stamp(v)), k, v)
  {
    FeedConcat(w, Leaves(m, k, Stamp(v)), Enters(k, v));
    FeedLeaves(w, m, k, Stamp(v));
    FeedOne(Without(w, m, k, Stamp(v)), Event(Element(k, v), Stamp(v)));
  }

  lemma SetWindows(size: nat, s: State, k: bytes, v: bytes)
    ensures Next(size, s, SetOp(k, v)).w == Feed(s.w, EventsOf(size, s, SetOp(k, v)))
  {
    FeedReplaces(s.w, s.m, k, v);
    assert s.log + [Record(k, v)] != s.log;
  }

  lemma DelWindows(size: nat, s: State, k: bytes, v: bytes)
    ensures Next(size, s, DelOp(k, v)).w == Feed(s.w, EventsOf(size, s, DelOp(k, v)))
  {
    FeedLeaves(s.w, s.m, k, Stamp(v));
  }

  lemma CasWindows(size: nat, s: State, k: bytes, v: bytes)
    ensures Next(size, s, CasOp(k, v)).w == Feed(s.w, EventsOf(size, s, CasOp(k, v)))
  {
    if |v| >= 24 {
      FeedReplaces(s.w, s.m, k, CasNew(v));
      FeedLeaves(s.w, s.m, k, Stamp(CasNew(v)));
      CasErrors(size, s, k, v);
    }
  }

  /** What an error of CAS leaves of the windows. */
  lemma CasErrors(size: nat, s: State, k: bytes, v: bytes)
    requires |v| >= 24
    ensures var o, t := CasOutcome(size, s, k, v), Stamp(CasNew(v));
      o.next.w ==
        if o.err.NoError? then With(Without(s.w, s.m, k, t), k, CasNew(v))
        else if o.err.StoreFull? then Without(s.w, s.m, k, t)
        else s.w
  {
  }

  lemma NextWindows(size: nat, s: State, op: Op)
    ensures Next(size, s, op).w == Feed(s.w, EventsOf(size, s, op))
  {
    match op
    case GetOp(_) =>
    case SetOp(k, v) => SetWindows(size, s, k, v);
    case DelOp(k, v) => DelWindows(size, s, k, v);
    case CasOp(k, v) => CasWindows(size, s, k, v);
    case PollOp(now) => FeedOne(s.w, Event(0, now));
  }

  lemma {:induction false} AfterWindows(size: nat, s: State, ops: seq<Op>)
    ensures After(size, s, ops).w == Feed(s.w, AllEvents(size, s, ops))
  {
    if ops != [] {
      var n := |ops| - 1;
      AfterWindows(size, s, ops[..n]);
      NextWindows(size, After(size, s, ops[..n]), ops[n]);
      FeedConcat(s.w, AllEvents(size, s, ops[..n]), EventsOf(size, After(size, s, ops[..n]), ops[n]));
    }
  }

  /**
    A poll in a run of a new map, with no event on a whole second, reports exactly the
    events strictly before the end of the oldest window.
   */
  lemma ReportExact(size: nat, s: State, ops: seq<Op>, replies: seq<Reply>, s': State, i: nat)
    requires s.w == START && Run(size, s, ops, replies, s') && i < |ops| && ops[i].PollOp?
    requires OffBoundary(AllEvents(size, s, ops[..i + 1]))
    ensures var es, w := AllEvents(size, s, ops[..i + 1]), After(size, s, ops[..i + 1]).w;
      replies[i] == Reported(SumBefore(es, w.oldTime)) && w.oldTime <= w.mediumTime <= w.newTime
  {
    AfterNext(size, s, ops, i);
    AfterWindows(size, s, ops[..i + 1]);
    WindowsExact(AllEvents(size, s, ops[..i + 1]));
  }

  // ------------------------------------------- the map of a moment ago

  /** A CAS of a live pair that a full store refuses. */
  ghost predicate Drains(size: nat, s: State, op: Op) {
    op.CasOp? && op.key in s.m && CasOutcome(size, s, op.key, op.value).err.StoreFull?
  }

  ghost predicate NoneDrains(size: nat, s: State, ops: seq<Op>) {
    forall i :: 0 <= i < |ops| ==> !Drains(size, After(size, s, ops[..i]), ops[i])
  }

  ghost predicate SumAgrees(s: State) {
    s.w.newSum == StateChecksum(s.m)
  }

  lemma WithoutSum(w: Windows, m: Dict, k: bytes, t: int)
    requires w.newSum == StateChecksum(m)
    ensures Without(w, m, k, t).newSum == StateChecksum(m - {k})
  {
    if k in m {
      ChecksumRemove(m, k);
    } else {
      MapSums.AbsentRemove(m, k);
    }
  }

  lemma PutSum(s: State, k: bytes, v: bytes)
    requires SumAgrees(s)
    ensures SumAgrees(Put(s, k, v))
  {
    WithoutSum(s.w, s.m, k, Stamp(v));
    ChecksumPut(s.m - {k}, k, v);
    assert (s.m - {k})[k := v] == s.m[k := v];
  }

  lemma NextSum(size: nat, s: State, op: Op)
    requires SumAgrees(s) && !Drains(size, s, op)
    ensures SumAgrees(Next(size, s, op))
  {
    match op
    case GetOp(_) =>
    case SetOp(k, v) => PutSum(Checked(s), k, v);
    case DelOp(k, v) => WithoutSum(s.w, s.m, k, Stamp(v));
    case CasOp(k, v) =>
      if |v| >= 24 {
        PutSum(Checked(s), k, CasNew(v));
      }
    case PollOp(now) =>
  }

  lemma {:induction false} AfterSum(size: nat, s: State, ops: seq<Op>)
    requires SumAgrees(s) && NoneDrains(size, s, ops)
    ensures SumAgrees(After(size, s, ops))
  {
    if ops != [] {
      var n := |ops| - 1;
      assert forall i :: 0 <= i < n ==> ops[..n][..i] == ops[..i];
      AfterSum(size, s, ops[..n]);
      NextSum(size, After(size, s, ops[..n]), ops[n]);
    }
  }

  lemma {:induction false} FeedNewest(es: seq<Event>)
    ensures Feed(START, es).newSum == SumAll(es)
  {
    if es != [] {
      FeedNewest(es[..|es| - 1]);
    }
  }

  /** The time that a write carries. */
  function TimeOf(op: Op): int {
    match op
    case SetOp(_, v) => Stamp(v)
    case DelOp(_, v) => Stamp(v)
    case CasOp(_, v) => if |v| >= 24 then Stamp(CasNew(v)) else 0
    case GetOp(_) => 0
    case PollOp(now) => now
  }

  predicate IsWrite(op: Op) {
    op.SetOp? || op.DelOp? || op.CasOp?
  }

  lemma EventTimes(size: nat, s: State, op: Op, e: Event)
    requires e in EventsOf(size, s, op) && e.el != 0
    ensures IsWrite(op) && e.t == TimeOf(op)
  {
  }

  lemma {:induction false} SumBeforeSkip(es: seq<Event>, fs: seq<Event>, limit: int)
    requires forall e :: e in fs && e.el != 0 ==> e.t >= limit
    ensures SumBefore(es + fs, limit) == SumBefore(es, limit)
  {
    if fs == [] {
      assert es + fs == es;
    } else {
      var n := |fs| - 1;
      SumBeforeSkip(es, fs[..n], limit);
      assert (es + fs)[..|es + fs| - 1] == es + fs[..n] && (es + fs)[|es + fs| - 1] == fs[n];
      assert fs[n] in fs;
    }
  }

  /** The first `j` operations are the writes before `limit`. */
  ghost predicate CutAt(ops: seq<Op>, j: nat, limit: int) {
    && j <= |ops|
    && (forall i :: 0 <= i < j && IsWrite(ops[i]) ==> TimeOf(ops[i]) < limit)
    && (forall i :: j <= i < |ops| && IsWrite(ops[i]) ==> TimeOf(ops[i]) >= limit)
  }

  lemma {:induction false} EventsBefore(size: nat, s: State, ops: seq<Op>, limit: int)
    requires forall i :: 0 <= i < |ops| && IsWrite(ops[i]) ==> TimeOf(ops[i]) < limit
    ensures forall e :: e in AllEvents(size, s, ops) && e.el != 0 ==> e.t < limit
  {
    if ops != [] {
      var n := |ops| - 1;
      EventsBefore(size, s, ops[..n], limit);
      forall e | e in AllEvents(size, s, ops) && e.el != 0
        ensures e.t < limit
      {
        if e !in AllEvents(size, s, ops[..n]) {
          EventTimes(size, After(size, s, ops[..n]), ops[n], e);
        }
      }
    }
  }

  lemma {:induction false} SumOfCut(size: nat, s: State, ops: seq<Op>, j: nat, limit: int)
    requires CutAt(ops, j, limit)
    ensures SumBefore(AllEvents(size, s, ops), limit) == SumAll(AllEvents(size, s, ops[..j]))
  {
    if j == |ops| {
      assert ops[..j] == ops;
      EventsBefore(size, s, ops, limit);
      SumBeforeAll(AllEvents(size, s, ops), limit);
    } else {
      var n := |ops| - 1;
      SumOfCut(size, s, ops[..n], j, limit);
      assert ops[..n][..j] == ops[..j];
      forall e | e in EventsOf(size, After(size, s, ops[..n]), ops[n]) && e.el != 0
        ensures e.t >= limit
      {
        EventTimes(size, After(size, s, ops[..n]), ops[n], e);
      }
      SumBeforeSkip(AllEvents(size, s, ops[..n]), EventsOf(size, After(size, s, ops[..n]), ops[n]), limit);
    }
  }

  /**
    When writes come in the order of their times, a poll reports the checksum of the map as
    it stood at the end of the oldest window: what came later does not show.
   */
  lemma OldMapReported(size: nat, s: State, ops: seq<Op>, replies: seq<Reply>, s': State, i: nat, j: nat)
    requires s.w == START && s.m == map[] && Run(size, s, ops, replies, s') && i < |ops| && ops[i].PollOp?
    requires OffBoundary(AllEvents(size, s, ops[..i + 1]))
    requires CutAt(ops[..i + 1], j, After(size, s, ops[..i + 1]).w.oldTime) && NoneDrains(size, s, ops[..j])
    ensures replies[i] == Reported(StateChecksum(After(size, s, ops[..j]).m))
  {
    ReportExact(size, s, ops, replies, s', i);
    SumOfCut(size, s, ops[..i + 1], j, After(size, s, ops[..i + 1]).w.oldTime);
    assert ops[..i + 1][..j] == ops[..j];
    AfterWindows(size, s, ops[..j]);
    FeedNewest(AllEvents(size, s, ops[..j]));
    ChecksumEmpty();
    AfterSum(size, s, ops[..j]);
  }
}
