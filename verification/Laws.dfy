/** The laws of the primitives as a client sees them: by timestamps and payloads. */
module Laws {
  import opened Bytes
  import opened Hashing
  import opened HashMaps
  import opened Dictionary
  import opened Checksums
  import opened PMaps
  import opened Clients
  import opened Runs

  // ----------------------------------------------------------- one operation

  /** A Del removes a pair unless the pair is later. */
  lemma DelByTime(size: nat, s: State, k: bytes, t: int, p: bytes, t': int)
    requires Int64(t) && Int64(t') && k in s.m && s.m[k] == Stamped(t, p)
    ensures var s' := Next(size, s, DelOp(k, Stamped(t', [])));
      && (k in s'.m <==> t' < t)
      && (t' < t ==> s' == s)
      && (t' >= t ==> s'.deleted == s.deleted + 20 + |k| + |p|)
      && (forall x :: x != k ==> (x in s'.m <==> x in s.m) && (x in s.m ==> s'.m[x] == s.m[x]))
  {
    StampedFields(t, p);
    StampedFields(t', []);
  }

  /** A Set that finds room replaces a pair exactly when it is later. */
  lemma SetByTime(size: nat, s: State, k: bytes, t: int, p: bytes, t': int, q: bytes)
    requires Int64(t) && Int64(t') && k in s.m && s.m[k] == Stamped(t, p)
    requires SetOutcome(size, s, k, Stamped(t', q)).err.NoError?
    ensures Next(size, s, SetOp(k, Stamped(t', q))).m ==
      if t' > t then s.m[k := Stamped(t', q)] else s.m
  {
    StampedFields(t, p);
    StampedFields(t', q);
  }

  /**
    The causes of errors, in order: a value without a whole timestamp, three words for a CAS;
    an index that can take no key, whether the key is new or not; a record that does not fit.
   */
  lemma ErrorsByCause(size: nat, s: State, k: bytes, v: bytes)
    requires k in s.m ==> |s.m[k]| >= 8
    ensures SetOutcome(size, s, k, v).err == ValueTooShort <==> |v| < 8
    ensures CasOutcome(size, s, k, v).err == ValueTooShort <==> |v| < 24
    ensures |v| >= 8 ==> (SetOutcome(size, s, k, v).err == TableFull <==> !Room(s.load))
    ensures |v| >= 24 ==> (CasOutcome(size, s, k, v).err == TableFull <==> !Room(s.load))
    ensures SetOutcome(size, s, k, v).err == StoreFull <==>
      |v| >= 8 && Room(s.load) && (k in s.m ==> Stamp(s.m[k]) < Stamp(v)) && s.used + 12 + |k| + |v| >= size
    ensures CasOutcome(size, s, k, v).err == StoreFull <==>
      |v| >= 24 && Room(s.load) && CasAccepts(s.m, k, v) && s.used + 12 + |k| + |v| - 16 >= size
    ensures DelOutcome(size, s, k, v).err == StoreFull <==>
      k in s.m && Stamp(s.m[k]) <= Stamp(v) && s.used + 12 + |k| >= size
  {
  }

  /** Why a CAS of a live pair is refused: first its time, then its payload. */
  lemma CasByTime(s: State, k: bytes, t: int, p: bytes, expected: int, oldPayload: bytes, t': int, q: bytes)
    requires Int64(t) && Int64(expected) && Int64(t') && k in s.m && s.m[k] == Stamped(t, p)
    ensures var err := CasRefusal(s.m, k, CasArgument(expected, oldPayload, t', q));
      && (err == CasStampMismatch <==> expected != t)
      && (err == CasHashMismatch <==> expected == t && FNV1a64(oldPayload) != FNV1a64(p))
      && (err == NoError <==> expected == t && FNV1a64(oldPayload) == FNV1a64(p))
  {
    StampedFields(t, p);
    CasArgumentMeans(s.m, k, expected, oldPayload, t', q);
  }

  /** Why a CAS of an absent pair is refused. */
  lemma CasOfAbsent(s: State, k: bytes, expected: int, oldPayload: bytes, t': int, q: bytes)
    requires Int64(expected) && Int64(t') && k !in s.m
    ensures CasRefusal(s.m, k, CasArgument(expected, oldPayload, t', q)) ==
      if expected != 0 && FNV1a64(oldPayload) != FNV1a64([]) then CasEmptyPair else NoError
  {
    CasArgumentMeans(s.m, k, expected, oldPayload, t', q);
  }

  // --------------------------------------------------------------- whole runs

  /** The bytes of the log that are neither live nor counted as deleted. */
  ghost function Slack(s: State): int {
    s.used - s.deleted - LiveBytes(s.m)
  }

  /** What an operation adds to them: the pair it overwrites, or its tombstone. */
  ghost function Wasted(s: State, s': State, op: Op): nat {
    if s'.log == s.log then 0
    else if op.DelOp? then 12 + |op.key|
    else if (op.SetOp? || op.CasOp?) && op.key in s.m then PairSize(op.key, s.m[op.key])
    else 0
  }

  lemma PutAccount(s: State, k: bytes, v: bytes)
    ensures Slack(Put(s, k, v)) == Slack(s) + if k in s.m then PairSize(k, s.m[k]) else 0
    ensures Put(s, k, v).log != s.log
  {
    LiveBytesPut(s.m, k, v);
  }

  /** Byte account of one operation: every byte is live, deleted, overwritten or a tombstone. */
  lemma ByteAccount(size: nat, s: State, op: Op)
    ensures Slack(Next(size, s, op)) == Slack(s) + Wasted(s, Next(size, s, op), op)
  {
    match op
    case GetOp(_) =>
    case SetOp(k, v) => PutAccount(Checked(s), k, v);
    case DelOp(k, v) =>
      if Deletes(s.m, k, v) {
        LiveBytesRemove(s.m, k);
      }
    case CasOp(k, v) =>
      if |v| >= 24 {
        PutAccount(Checked(s), k, CasNew(v));
      }
    case PollOp(_) =>
  }

  /** An operation that leaves a pair of `k` from time `t` alone. */
  predicate Harmless(op: Op, k: bytes, t: int) {
    match op
    case GetOp(_) => true
    case SetOp(key, v) => key == k ==> Stamp(v) <= t
    case DelOp(key, v) => key == k ==> Stamp(v) < t
    case CasOp(key, v) => key == k && |v| >= 24 ==> CasExpected(v) != t
    case PollOp(_) => true
  }

  lemma HarmlessKeeps(size: nat, s: State, op: Op, k: bytes, t: int)
    requires k in s.m && Stamp(s.m[k]) == t && Harmless(op, k, t)
    ensures k in Next(size, s, op).m && Next(size, s, op).m[k] == s.m[k]
  {
  }

  /** A pair survives every run whose Dels are earlier, Sets not later and CASes expect another time. */
  lemma {:induction false} PairSurvives(size: nat, s: State, ops: seq<Op>, k: bytes, t: int, p: bytes)
    requires Int64(t) && k in s.m && s.m[k] == Stamped(t, p)
    requires forall i :: 0 <= i < |ops| ==> Harmless(ops[i], k, t)
    ensures k in After(size, s, ops).m && After(size, s, ops).m[k] == Stamped(t, p)
  {
    StampedFields(t, p);
    if ops != [] {
      var n := |ops| - 1;
      PairSurvives(size, s, ops[..n], k, t, p);
      HarmlessKeeps(size, After(size, s, ops[..n]), ops[n], k, t);
    }
  }

  /** And no run that deletes it at its time or later, without writing it again, keeps it. */
  lemma {:induction false} StaysDeleted(size: nat, s: State, ops: seq<Op>, k: bytes)
    requires k !in s.m && forall i :: 0 <= i < |ops| && (ops[i].SetOp? || ops[i].CasOp?) ==> ops[i].key != k
    ensures k !in After(size, s, ops).m
  {
    if ops != [] {
      var n := |ops| - 1;
      StaysDeleted(size, s, ops[..n], k);
    }
  }

  // ------------------------------------------------------- the reported checksum

  /** The last two windows are the current second or later. */
  predicate Recent(w: Windows, t: int) {
    w.oldTime <= w.mediumTime <= t <= w.newTime
  }

  lemma RecentAdvance(w: Windows, el: u64, t: int)
    requires Recent(w, t)
    ensures Advance(w, el, t).oldSum == w.oldSum && Advance(w, el, t).mediumSum == w.mediumSum
    ensures Recent(Advance(w, el, t), t)
  {
  }

  /** An event beyond the newest window shifts all three; the newest ends at the next whole second. */
  lemma WindowsShift(w: Windows, el: u64, t: int)
    requires t > w.newTime
    ensures var w' := Advance(w, el, t);
      && w'.oldTime == w.mediumTime && w'.mediumTime == w.newTime
      && t < w'.newTime <= t + 1_000_000_000 && w'.newTime % 1_000_000_000 == 0
  {
  }

  /** A recent write is not reported yet: only the newest sum knows it. */
  lemma RecentWriteUnreported(size: nat, s: State, op: Op, k: bytes, t: int, p: bytes, expected: int, o: bytes)
    requires Int64(t) && Int64(expected) && Recent(s.w, t)
    requires op == SetOp(k, Stamped(t, p)) || op == DelOp(k, Stamped(t, p)) || op == CasOp(k, CasArgument(expected, o, t, p))
    ensures var w := Next(size, s, op).w; w.oldSum == s.w.oldSum && w.mediumSum == s.w.mediumSum
  {
    StampedFields(t, p);
    CasArgumentMeans(s.m, k, expected, o, t, p);
    if k in s.m {
      RecentAdvance(s.w, NegMod(Element(k, s.m[k])), t);
    }
    RecentAdvance(Without(s.w, s.m, k, t), Element(k, Stamped(t, p)), t);
  }

  /** A new pair that comes in late is reported at once. */
  lemma LateSetReported(size: nat, s: State, k: bytes, t: int, p: bytes)
    requires Int64(t) && t < s.w.oldTime <= s.w.mediumTime <= s.w.newTime && k !in s.m
    requires SetOutcome(size, s, k, Stamped(t, p)).err.NoError?
    ensures Next(size, s, SetOp(k, Stamped(t, p))).w.oldSum == AddMod(s.w.oldSum, Element(k, Stamped(t, p)))
  {
    StampedFields(t, p);
  }
}
