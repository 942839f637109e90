/** Forward and backward iteration (core/pmap/pmap.go, isPresent, Iterate, BackwardsIterate). */
module Iteration {
  import opened Bytes
  import opened Guards
  import opened Hashing
  import opened Records
  import opened Tables
  import opened Dictionary
  import opened Links
  import opened Representation
  import opened Views
  import opened PMaps
  import opened Replay

  // ------------------------------------------------- what isPresent decides

  /**
    The word that isPresent takes for the timestamp of record `i`. A tombstone has no
    value, so it is made of its trailer and the key length of the next record.
   */
  function HeaderWord(log: seq<Record>, i: nat): nat
    requires i < |log|
  {
    if |log[i].val| >= 8 then StampWord(log[i].val)
    else |log[i].key| + |log[i].val| + TWO_32 * NextLen(log, i)
  }

  /** What isPresent answers: Get finds the key and the timestamps agree. */
  predicate IsPresent(log: seq<Record>, view: Positions, i: nat)
    requires i < |log|
  {
    var k := log[i].key;
    k in view && view[k] < |log| && HeaderWord(log, i) == HeaderWord(log, view[k])
  }

  /**
    Record `i` is not the one at the position of its key but carries its timestamp: a
    pair with the same stamp, or a tombstone whose length words happen to look like it.
   */
  predicate Imitates(log: seq<Record>, pos: Positions, i: nat)
    requires i < |log|
  {
    var k := log[i].key;
    && k in pos && pos[k] < |log| && i != pos[k]
    && StampWord(log[pos[k]].val) ==
       if log[i].val != [] then StampWord(log[i].val) else |k| + TWO_32 * NextLen(log, i)
  }

  ghost predicate NoImitation(log: seq<Record>, pos: Positions) {
    forall i :: 0 <= i < |log| ==> !Imitates(log, pos, i)
  }

  /** isPresent selects the records that Get sees and their imitations. */
  lemma PresentMeans(log: seq<Record>, view: Positions, i: nat)
    requires i < |log| && Sees(log, view) && WellFormed(log)
    ensures IsPresent(log, view, i) <==>
      log[i].key in view && (view[log[i].key] == i || Imitates(log, view, i))
  {
  }

  /** The records before `n` that the test selects, in log order. */
  function PresentUpTo(log: seq<Record>, view: Positions, n: nat): seq<Record>
    requires n <= |log|
  {
    if n == 0 then []
    else PresentUpTo(log, view, n - 1) + if IsPresent(log, view, n - 1) then [log[n - 1]] else []
  }

  /** The records from `n` on that the test selects, last one first. */
  function PresentDownTo(log: seq<Record>, view: Positions, n: nat): seq<Record>
    requires n <= |log|
    decreases |log| - n
  {
    if n == |log| then []
    else PresentDownTo(log, view, n + 1) + if IsPresent(log, view, n) then [log[n]] else []
  }

  function Reverse(s: seq<Record>): (r: seq<Record>)
    ensures |r| == |s|
  {
    if s == [] then [] else Reverse(s[1..]) + [s[0]]
  }

  lemma {:induction false} ReverseAppend(s: seq<Record>, t: seq<Record>)
    ensures Reverse(s + t) == Reverse(t) + Reverse(s)
  {
    if s == [] {
      assert s + t == t;
    } else {
      ReverseAppend(s[1..], t);
      assert (s + t)[1..] == s[1..] + t;
    }
  }

  /** Backward order is the exact reverse of forward order. */
  lemma {:induction false} DownIsReverse(log: seq<Record>, view: Positions, n: nat)
    requires n <= |log|
    ensures Reverse(PresentUpTo(log, view, |log|)) == PresentDownTo(log, view, n) + Reverse(PresentUpTo(log, view, n))
    decreases |log| - n
  {
    if n < |log| {
      DownIsReverse(log, view, n + 1);
      ReverseAppend(PresentUpTo(log, view, n), if IsPresent(log, view, n) then [log[n]] else []);
    }
  }

  lemma BackwardIsReverse(log: seq<Record>, view: Positions)
    ensures PresentDownTo(log, view, 0) == Reverse(PresentUpTo(log, view, |log|))
  {
    DownIsReverse(log, view, 0);
    assert PresentDownTo(log, view, 0) + [] == PresentDownTo(log, view, 0);
  }

  // ------------------------------------------------ the pairs, each once

  /** `ps` has every pair of `m` exactly once and nothing else. */
  ghost predicate Lists(ps: seq<Record>, m: Dict) {
    && (forall j :: 0 <= j < |ps| ==> ps[j].key in m && m[ps[j].key] == ps[j].val)
    && (forall k :: k in m ==> exists j :: 0 <= j < |ps| && ps[j].key == k)
    && (forall i, j :: 0 <= i < j < |ps| ==> ps[i].key != ps[j].key)
  }

  lemma {:induction false} SelectedAt(log: seq<Record>, view: Positions, n: nat, i: nat) returns (j: nat)
    requires i < n <= |log| && IsPresent(log, view, i)
    ensures j == |PresentUpTo(log, view, i)| < |PresentUpTo(log, view, n)|
    ensures PresentUpTo(log, view, n)[j] == log[i]
  {
    if i < n - 1 {
      j := SelectedAt(log, view, n - 1, i);
    } else {
      j := |PresentUpTo(log, view, i)|;
    }
  }

  lemma {:induction false} SelectedFrom(log: seq<Record>, view: Positions, n: nat, j: nat) returns (i: nat)
    requires n <= |log| && j < |PresentUpTo(log, view, n)|
    ensures i < n && IsPresent(log, view, i) && PresentUpTo(log, view, n)[j] == log[i]
    ensures j == |PresentUpTo(log, view, i)|
  {
    if j < |PresentUpTo(log, view, n - 1)| {
      i := SelectedFrom(log, view, n - 1, j);
    } else {
      i := n - 1;
    }
  }

  /** Two selected records of one key make two entries. */
  lemma TwiceSelected(log: seq<Record>, view: Positions, m: Dict, i: nat, j: nat)
    requires i < |log| && j < |log| && IsPresent(log, view, i) && IsPresent(log, view, j) && log[i].key == log[j].key
    requires Lists(PresentUpTo(log, view, |log|), m)
    ensures i == j
  {
    if i < j {
      var a := SelectedAt(log, view, |log|, i);
      var b := SelectedAt(log, view, |log|, j);
      var c := SelectedAt(log, view, j, i);
    } else if j < i {
      var a := SelectedAt(log, view, |log|, j);
      var b := SelectedAt(log, view, |log|, i);
      var c := SelectedAt(log, view, i, j);
    }
  }

  /** If the listing is exact, Get sees the current record of every live key. */
  lemma ListedIsSeen(log: seq<Record>, view: Positions, pos: Positions, k: bytes)
    requires Current(log, pos) && Sees(log, view) && Lists(PresentUpTo(log, view, |log|), Contents(log, pos))
    requires k in pos
    ensures k in view && view[k] == pos[k]
  {
    var ps, m := PresentUpTo(log, view, |log|), Contents(log, pos);
    assert k in m;
    var j :| 0 <= j < |ps| && ps[j].key == k;
    var i := SelectedFrom(log, view, |log|, j);
    assert IsPresent(log, view, view[k]);
    TwiceSelected(log, view, m, i, view[k]);
    assert IsPresent(log, view, pos[k]);
    TwiceSelected(log, view, m, pos[k], view[k]);
  }

  /** And it sees nothing else. */
  lemma SeenIsListed(log: seq<Record>, view: Positions, pos: Positions, k: bytes)
    requires Current(log, pos) && Sees(log, view) && Lists(PresentUpTo(log, view, |log|), Contents(log, pos))
    requires k in view
    ensures k in pos
  {
    assert IsPresent(log, view, view[k]);
    var j := SelectedAt(log, view, |log|, view[k]);
  }

  lemma ExactView(log: seq<Record>, view: Positions, pos: Positions)
    requires Current(log, pos) && Sees(log, view) && Lists(PresentUpTo(log, view, |log|), Contents(log, pos))
    ensures view == pos
  {
    forall k
      ensures k in pos ==> k in view && view[k] == pos[k]
      ensures k in view ==> k in pos
    {
      if k in pos {
        ListedIsSeen(log, view, pos, k);
      }
      if k in view {
        SeenIsListed(log, view, pos, k);
      }
    }
    SameMap(view, pos);
  }

  lemma CurrentSees(log: seq<Record>, pos: Positions)
    requires Current(log, pos)
    ensures Sees(log, pos)
  {
  }

  /** Iteration is exact if and only if Get sees exactly the map and no record imitates. */
  lemma SelectionExact(log: seq<Record>, view: Positions, pos: Positions)
    requires Current(log, pos) && WellFormed(log) && Sees(log, view)
    ensures Lists(PresentUpTo(log, view, |log|), Contents(log, pos)) <==> view == pos && NoImitation(log, pos)
  {
    CurrentSees(log, pos);
    if Lists(PresentUpTo(log, view, |log|), Contents(log, pos)) {
      ExactView(log, view, pos);
      if i :| 0 <= i < |log| && Imitates(log, pos, i) {
        PresentMeans(log, pos, i);
        assert IsPresent(log, pos, pos[log[i].key]);
        TwiceSelected(log, view, Contents(log, pos), i, pos[log[i].key]);
      }
    }
    if view == pos && NoImitation(log, pos) {
      SelectionLists(log, pos);
    }
  }

  lemma SelectionLists(log: seq<Record>, pos: Positions)
    requires Current(log, pos) && WellFormed(log) && NoImitation(log, pos)
    ensures Lists(PresentUpTo(log, pos, |log|), Contents(log, pos))
  {
    CurrentSees(log, pos);
    var ps, m := PresentUpTo(log, pos, |log|), Contents(log, pos);
    forall j | 0 <= j < |ps|
      ensures ps[j].key in m && m[ps[j].key] == ps[j].val
    {
      var i := SelectedFrom(log, pos, |log|, j);
      PresentMeans(log, pos, i);
    }
    forall k | k in m
      ensures exists j :: 0 <= j < |ps| && ps[j].key == k
    {
      assert IsPresent(log, pos, pos[k]);
      var j := SelectedAt(log, pos, |log|, pos[k]);
    }
    forall a, b | 0 <= a < b < |ps|
      ensures ps[a].key != ps[b].key
    {
      var i := SelectedFrom(log, pos, |log|, a);
      var j := SelectedFrom(log, pos, |log|, b);
      PresentMeans(log, pos, i);
      PresentMeans(log, pos, j);
    }
  }

  /**
    What a client can check: pairs of one key have different timestamps, and all
    timestamps are so late that no two length words can look like one.
   */
  ghost predicate HonestStamps(log: seq<Record>, size: nat) {
    && (forall i, j :: 0 <= i < j < |log| && log[i].key == log[j].key && log[i].val != [] && log[j].val != [] ==>
          StampWord(log[i].val) != StampWord(log[j].val))
    && (forall i :: 0 <= i < |log| && log[i].val != [] ==> StampWord(log[i].val) >= size * TWO_32)
    && (forall i :: 0 <= i < |log| ==> |log[i].key| < size <= TWO_32)
  }

  lemma HonestNoImitation(log: seq<Record>, pos: Positions, size: nat)
    requires Current(log, pos) && HonestStamps(log, size)
    ensures NoImitation(log, pos)
  {
    forall i | 0 <= i < |log|
      ensures !Imitates(log, pos, i)
    {
      if log[i].key in pos {
        var p := pos[log[i].key];
        assert StampWord(log[p].val) >= size * TWO_32;
        ShortLengths(|log[i].key|, NextLen(log, i), size);
      }
    }
  }

  /** Two lengths within the file are no late timestamp. */
  lemma ShortLengths(a: nat, b: nat, size: nat)
    requires a < size <= TWO_32 && b < size
    ensures a + TWO_32 * b < size * TWO_32
  {
  }

  /** A clock that moves on keeps the timestamps honest. */
  lemma HonestAppend(log: seq<Record>, size: nat, r: Record)
    requires HonestStamps(log, size) && |r.key| < size <= TWO_32
    requires r.val != [] ==> StampWord(r.val) >= size * TWO_32
    requires forall i :: 0 <= i < |log| && r.val != [] && log[i].key == r.key && log[i].val != [] ==>
      StampWord(log[i].val) < StampWord(r.val)
    ensures HonestStamps(log + [r], size)
  {
    var l := log + [r];
    assert forall i :: 0 <= i < |log| ==> l[i] == log[i];
    assert l[|log|] == r;
  }

  // ------------------------------------------------------------ the loops

  /** The pairs that a callback gets to see: it stops the iteration by returning false. */
  function Fed(ps: seq<Record>, foreach: (bytes, bytes) -> bool): seq<Record> {
    if ps == [] then []
    else if foreach(ps[0].key, ps[0].val) then [ps[0]] + Fed(ps[1..], foreach)
    else [ps[0]]
  }

  ghost predicate AllContinue(ps: seq<Record>, foreach: (bytes, bytes) -> bool) {
    forall j :: 0 <= j < |ps| ==> foreach(ps[j].key, ps[j].val)
  }

  lemma {:induction false} FedPrefix(ps: seq<Record>, qs: seq<Record>, foreach: (bytes, bytes) -> bool)
    requires AllContinue(ps, foreach)
    ensures Fed(ps + qs, foreach) == ps + Fed(qs, foreach)
  {
    if ps == [] {
      assert ps + qs == qs;
    } else {
      FedPrefix(ps[1..], qs, foreach);
      assert (ps + qs)[1..] == ps[1..] + qs;
    }
  }

  lemma ContinueSnoc(ps: seq<Record>, r: Record, foreach: (bytes, bytes) -> bool)
    requires AllContinue(ps, foreach) && foreach(r.key, r.val)
    ensures AllContinue(ps + [r], foreach)
  {
  }

  /** A callback sees the records in order up to the first that it refuses, and no further. */
  lemma {:induction false} FedStops(ps: seq<Record>, foreach: (bytes, bytes) -> bool)
    ensures var fed := Fed(ps, foreach);
      && fed <= ps
      && (forall i :: 0 <= i < |fed| - 1 ==> foreach(fed[i].key, fed[i].val))
      && (fed == ps || (fed != [] && !foreach(fed[|fed| - 1].key, fed[|fed| - 1].val)))
  {
    if ps != [] {
      FedStops(ps[1..], foreach);
    }
  }

  /** A callback that never stops sees everything. */
  lemma FedAll(ps: seq<Record>, foreach: (bytes, bytes) -> bool)
    requires AllContinue(ps, foreach)
    ensures Fed(ps, foreach) == ps
  {
    FedPrefix(ps, [], foreach);
    assert ps + [] == ps;
  }

  /**
    Get sees no deleted pair, or the file goes on with zeros after the log: else isPresent
    may read past the end of the file behind a last tombstone.
   */
  ghost predicate Legible(c: PMap)
    reads c.hm, c.st, c.st.file
  {
    forall n: int {:trigger Asked(n)} :: Asked(n) ==>
      AllPlain(c.Sight()) || (c.st.Blank() && c.st.length + 4 <= c.st.size)
  }

  lemma PlainLegible(c: PMap)
    requires AllPlain(c.Sight())
    ensures Legible(c)
  {
  }

  /** A record of a live key comes no later than the current one, which is a pair. */
  lemma NotLater(log: seq<Record>, pos: Positions, i: nat)
    requires Current(log, pos) && i < |log| && log[i].key in pos
    ensures i <= pos[log[i].key] && (|log[i].val| >= 8 || i + 1 < |log|)
  {
    LastPosIsLast(log, log[i].key);
  }

  lemma LiveRecord(s: Image, i: nat)
    requires Represents(s) && i < |s.log| && s.log[i].key in s.pos
    ensures |s.log[i].val| >= 8 || i + 1 < |s.log|
  {
    Representation.Open(s);
    NotLater(s.log, s.pos, i);
  }

  lemma PairWord(f: bytes, x: nat, y: nat)
    requires Readable(f, x) && |ValAt(f, x)| >= 8 && y == x + 8 + KeyLenAt(f, x)
    ensures y + 8 <= |f| && UnLE64(f[y..y + 8]) == StampWord(ValAt(f, x))
  {
    assert f[y..y + 8] == ValAt(f, x)[..8];
  }

  lemma NextKeyLen(f: bytes, log: seq<Record>, i: nat, next: nat)
    requires i + 1 < |log| && LogBytes(log) <= f && |f| <= TWO_32 && next == Offset(log, i + 1)
    ensures next == Offset(log, i) + RecordSize(log[i]) && next + 4 <= |f|
    ensures KeyLenAt(f, next) == |log[i + 1].key| && PrevAt(f, next) == Offset(log, i)
  {
    ReadBack(f, log, i);
    ReadBack(f, log, i + 1);
  }

  lemma TombstoneHeader(f: bytes, log: seq<Record>, i: nat, y: nat)
    requires i + 1 < |log| && LogBytes(log) <= f && |f| <= TWO_32 && log[i].val == []
    requires y == Offset(log, i) + 8 + |log[i].key|
    ensures y + 8 <= |f| && UnLE64(f[y..y + 8]) == HeaderWord(log, i)
  {
    var next := Offset(log, i + 1);
    NextKeyLen(f, log, i, next);
    TombstoneWord(f, Offset(log, i), y);
    assert HeaderWord(log, i) == |log[i].key| + TWO_32 * |log[i + 1].key|;
  }

  lemma PairHeader(f: bytes, log: seq<Record>, i: nat, y: nat)
    requires i < |log| && LogBytes(log) <= f && |f| <= TWO_32 && |log[i].val| >= 8
    requires y == Offset(log, i) + 8 + |log[i].key|
    ensures y + 8 <= |f| && UnLE64(f[y..y + 8]) == HeaderWord(log, i)
  {
    ReadBack(f, log, i);
    PairWord(f, Offset(log, i), y);
    assert HeaderWord(log, i) == StampWord(log[i].val);
  }

  /** Equal words have equal bytes. */
  lemma SameWord(a: bytes, b: bytes)
    requires |a| == |b| == 8
    ensures a == b <==> UnLE64(a) == UnLE64(b)
  {
    LEInverts(a);
    LEInverts(b);
  }

  /** Behind the log the next key length is zero. */
  lemma LastKeyLen(f: bytes, log: seq<Record>, i: nat, next: nat)
    requires i + 1 == |log| && LogBytes(log) <= f && |f| <= TWO_32 && next == |LogBytes(log)|
    requires next + 4 <= |f| && ZerosFrom(f, next)
    ensures next == Offset(log, i) + RecordSize(log[i])
    ensures KeyLenAt(f, next) == 0 && PrevAt(f, next) == Offset(log, i)
  {
    ReadBack(f, log, i);
    ImageLength(log);
    ZeroLength(f, next);
  }

  lemma LastHeader(f: bytes, log: seq<Record>, i: nat, y: nat)
    requires i + 1 == |log| && LogBytes(log) <= f && |f| <= TWO_32 && log[i].val == []
    requires y == Offset(log, i) + 8 + |log[i].key|
    requires |LogBytes(log)| + 4 <= |f| && ZerosFrom(f, |LogBytes(log)|)
    ensures y + 8 <= |f| && UnLE64(f[y..y + 8]) == HeaderWord(log, i)
  {
    LastKeyLen(f, log, i, |LogBytes(log)|);
    TombstoneWord(f, Offset(log, i), y);
  }

  /** The word that isPresent compares for a record whose key Get finds. */
  lemma HeaderRead(s: Image, f: bytes, i: nat, y: nat)
    requires Represents(s) && Probing(s.t) && i < |s.log| && s.log[i].key in Sight(s.t, s.log)
    requires LogBytes(s.log) <= f && |f| <= TWO_32 && y == Offset(s.log, i) + 8 + |s.log[i].key|
    requires AllPlain(Sight(s.t, s.log))
      || (|LogBytes(s.log)| + 4 <= |f| && ZerosFrom(f, |LogBytes(s.log)|))
    ensures y + 8 <= |f| && UnLE64(f[y..y + 8]) == HeaderWord(s.log, i)
  {
    OpenLog(s);
    if |s.log[i].val| >= 8 {
      PairHeader(f, s.log, i, y);
    } else if i + 1 < |s.log| {
      TombstoneHeader(f, s.log, i, y);
    } else {
      LastNotPlain(s, i);
      LastHeader(f, s.log, i, y);
    }
  }

  /** The key of a tombstone at the end of the log is not live. */
  lemma LastNotPlain(s: Image, i: nat)
    requires Represents(s) && Probing(s.t)
    requires i + 1 == |s.log| && |s.log[i].val| < 8 && s.log[i].key in Sight(s.t, s.log)
    ensures !AllPlain(Sight(s.t, s.log))
  {
    var k := s.log[i].key;
    if PlainKey(k) {
      SightIsView(s.t, s.log);
      PlainView(s, k);
      LiveRecord(s, i);
    }
  }

  ghost predicate ZerosFrom(f: bytes, x: nat) {
    forall j :: x <= j < |f| ==> f[j] == 0
  }

  lemma LegibleFile(c: PMap)
    requires c.Valid() && Legible(c)
    ensures LogBytes(c.st.log) <= c.st.file[..] && |LogBytes(c.st.log)| == c.st.length
    ensures AllPlain(c.Sight()) || (c.st.length + 4 <= c.st.size && ZerosFrom(c.st.file[..], c.st.length))
  {
    assert Asked(0);
  }

  lemma HeaderInMap(c: PMap, i: nat, y: nat)
    requires c.Valid() && Legible(c) && i < |c.st.log| && c.st.log[i].key in c.Sight()
    requires y == Offset(c.st.log, i) + 8 + |c.st.log[i].key|
    ensures y + 8 <= c.st.size && UnLE64(c.st.file[y..y + 8]) == HeaderWord(c.st.log, i)
  {
    LegibleFile(c);
    HeaderRead(c.image, c.st.file[..], i, y);
  }

  /** isPresent, on the record at `index`. */
  method TestPresent(c: PMap, index: nat, ghost i: nat) returns (present: bool)
    requires c.Valid() && i < |c.st.log| && index == Offset(c.st.log, i) && Legible(c)
    ensures present == IsPresent(c.st.log, c.Sight(), i)
  {
    c.st.Reads(i);
    SightSees(c.image);
    var key := KeyAt(c.st.file[..], index);
    var r := c.Get(Low32(FNV1a64(key)), key);
    if r.Absent? {
      return false;
    }
    var x := index + 8 + |key|;
    HeaderInMap(c, i, x);
    SameWord(r.value[..8], c.st.file[x..x + 8]);
    return r.value[..8] == c.st.file[x..x + 8];
  }

  /** The end of the log is past every record. */
  lemma BeforeEnd(c: PMap, i: nat)
    requires c.Valid() && i <= |c.st.log|
    ensures Offset(c.st.log, i) < c.st.length <==> i < |c.st.log|
  {
    c.st.Ends();
    if i < |c.st.log| {
      OffsetMonotone(c.st.log, i, |c.st.log|);
    }
  }

  /** Look at the record at `index` and step over it. */
  method Visit(c: PMap, index: nat, ghost i: nat) returns (present: bool, pair: Record, next: nat)
    requires c.Valid() && i < |c.st.log| && index == Offset(c.st.log, i) && Legible(c)
    ensures present == IsPresent(c.st.log, c.Sight(), i)
    ensures pair == c.st.log[i] && next == Offset(c.st.log, i + 1)
    ensures next < c.st.length <==> i + 1 < |c.st.log|
  {
    c.st.Reads(i);
    present := TestPresent(c, index, i);
    pair := Record(KeyAt(c.st.file[..], index), ValAt(c.st.file[..], index));
    next := index + 12 + TotalLenAt(c.st.file[..], index);
    BeforeEnd(c, i + 1);
  }

  /** The callback has got the selected records before `i` and never stopped. */
  ghost predicate Walked(log: seq<Record>, view: Positions, i: nat, visited: seq<Record>, foreach: (bytes, bytes) -> bool) {
    i <= |log| && visited == PresentUpTo(log, view, i) && AllContinue(visited, foreach)
  }

  lemma WalkOn(log: seq<Record>, view: Positions, i: nat, visited: seq<Record>, foreach: (bytes, bytes) -> bool)
    requires Walked(log, view, i, visited, foreach) && i < |log|
    ensures !IsPresent(log, view, i) ==> Walked(log, view, i + 1, visited, foreach)
    ensures IsPresent(log, view, i) && foreach(log[i].key, log[i].val) ==>
      Walked(log, view, i + 1, visited + [log[i]], foreach)
    ensures IsPresent(log, view, i) && !foreach(log[i].key, log[i].val) ==>
      Fed(PresentUpTo(log, view, |log|), foreach) == visited + [log[i]]
  {
    if !IsPresent(log, view, i) {
      assert visited + [] == visited;
    } else if foreach(log[i].key, log[i].val) {
      ContinueSnoc(visited, log[i], foreach);
    } else {
      PresentSplit(log, view, i + 1);
      StopsHere(visited, log[i], PresentUpTo(log, view, |log|), foreach);
    }
  }

  /** One turn of Iterate: the callback gets a present pair and may stop. */
  method Step(c: PMap, foreach: (bytes, bytes) -> bool, index: nat, ghost i: nat, visited: seq<Record>)
    returns (go: bool, now: seq<Record>, next: nat)
    requires c.Valid() && Legible(c) && i < |c.st.log| && index == Offset(c.st.log, i)
    requires Walked(c.st.log, c.Sight(), i, visited, foreach)
    ensures next == Offset(c.st.log, i + 1) && (next < c.st.length <==> i + 1 < |c.st.log|)
    ensures go ==> Walked(c.st.log, c.Sight(), i + 1, now, foreach)
    ensures !go ==> now == Fed(PresentUpTo(c.st.log, c.Sight(), |c.st.log|), foreach)
  {
    WalkOn(c.st.log, c.Sight(), i, visited, foreach);
    var present, pair;
    present, pair, next := Visit(c, index, i);
    if !present {
      return true, visited, next;
    }
    return foreach(pair.key, pair.val), visited + [pair], next;
  }

  method Iterate(c: PMap, foreach: (bytes, bytes) -> bool) returns (visited: seq<Record>)
    requires c.Valid() && Legible(c)
    ensures visited == Fed(PresentUpTo(c.st.log, c.Sight(), |c.st.log|), foreach)
  {
    visited := [];
    var index := 0;
    ghost var i := 0;
    BeforeEnd(c, 0);
    while index < c.st.length
      invariant Walked(c.st.log, c.Sight(), i, visited, foreach) && index == Offset(c.st.log, i)
      invariant index < c.st.length <==> i < |c.st.log|
      decreases |c.st.log| - i
    {
      var go;
      go, visited, index := Step(c, foreach, index, i, visited);
      if !go {
        return;
      }
      i := i + 1;
    }
    FedAll(visited, foreach);
  }

  lemma StopsHere(before: seq<Record>, last: Record, all: seq<Record>, foreach: (bytes, bytes) -> bool)
    requires AllContinue(before, foreach) && !foreach(last.key, last.val)
    requires before + [last] <= all
    ensures Fed(all, foreach) == before + [last]
  {
    var rest := all[|before|..];
    assert all == before + rest;
    FedPrefix(before, rest, foreach);
  }

  lemma {:induction false} PresentSplit(log: seq<Record>, view: Positions, n: nat)
    requires n <= |log|
    ensures PresentUpTo(log, view, n) <= PresentUpTo(log, view, |log|)
    decreases |log| - n
  {
    if n < |log| {
      PresentSplit(log, view, n + 1);
    }
  }

  lemma {:induction false} DownSplit(log: seq<Record>, view: Positions, n: nat)
    requires n <= |log|
    ensures PresentDownTo(log, view, n) <= PresentDownTo(log, view, 0)
    decreases n
  {
    if n > 0 {
      DownSplit(log, view, n - 1);
    }
  }

  /** `prev` undoes the forward step at every record boundary. */
  lemma StepBack(c: PMap, i: nat)
    requires c.Valid() && i <= |c.st.log|
    ensures Offset(c.st.log, i) <= c.st.size
    ensures PrevAt(c.st.file[..], Offset(c.st.log, i)) == if i == 0 then -1 else Offset(c.st.log, i - 1)
  {
    if i > 0 {
      c.st.Reads(i - 1);
    }
  }

  /** Look at the record at `index` and step back. */
  method VisitBack(c: PMap, index: nat, ghost i: nat) returns (present: bool, pair: Record, prev: int)
    requires c.Valid() && i < |c.st.log| && index == Offset(c.st.log, i) && Legible(c)
    ensures present == IsPresent(c.st.log, c.Sight(), i) && pair == c.st.log[i]
    ensures prev == if i == 0 then -1 else Offset(c.st.log, i - 1)
  {
    var next;
    present, pair, next := Visit(c, index, i);
    StepBack(c, i);
    prev := PrevAt(c.st.file[..], index);
  }

  /** The callback has got the selected records after `i` and never stopped. */
  ghost predicate WalkedBack(log: seq<Record>, view: Positions, i: int, visited: seq<Record>, foreach: (bytes, bytes) -> bool) {
    -1 <= i < |log| && visited == PresentDownTo(log, view, i + 1) && AllContinue(visited, foreach)
  }

  lemma WalkBack(log: seq<Record>, view: Positions, i: nat, visited: seq<Record>, foreach: (bytes, bytes) -> bool)
    requires WalkedBack(log, view, i, visited, foreach)
    ensures !IsPresent(log, view, i) ==> WalkedBack(log, view, i - 1, visited, foreach)
    ensures IsPresent(log, view, i) && foreach(log[i].key, log[i].val) ==>
      WalkedBack(log, view, i - 1, visited + [log[i]], foreach)
    ensures IsPresent(log, view, i) && !foreach(log[i].key, log[i].val) ==>
      Fed(PresentDownTo(log, view, 0), foreach) == visited + [log[i]]
  {
    if !IsPresent(log, view, i) {
      assert visited + [] == visited;
    } else if foreach(log[i].key, log[i].val) {
      ContinueSnoc(visited, log[i], foreach);
    } else {
      DownSplit(log, view, i);
      StopsHere(visited, log[i], PresentDownTo(log, view, 0), foreach);
    }
  }

  /** One turn of BackwardsIterate. */
  method StepBackward(c: PMap, foreach: (bytes, bytes) -> bool, index: nat, ghost i: nat, visited: seq<Record>)
    returns (go: bool, now: seq<Record>, prev: int)
    requires c.Valid() && Legible(c) && i < |c.st.log| && index == Offset(c.st.log, i)
    requires WalkedBack(c.st.log, c.Sight(), i, visited, foreach)
    ensures prev == if i == 0 then -1 else Offset(c.st.log, i - 1)
    ensures go ==> WalkedBack(c.st.log, c.Sight(), i - 1, now, foreach)
    ensures !go ==> now == Fed(PresentDownTo(c.st.log, c.Sight(), 0), foreach)
  {
    WalkBack(c.st.log, c.Sight(), i, visited, foreach);
    var present, pair;
    present, pair, prev := VisitBack(c, index, i);
    if !present {
      return true, visited, prev;
    }
    return foreach(pair.key, pair.val), visited + [pair], prev;
  }

  method BackwardsIterate(c: PMap, foreach: (bytes, bytes) -> bool) returns (visited: seq<Record>)
    requires c.Valid() && Legible(c)
    ensures visited == Fed(PresentDownTo(c.st.log, c.Sight(), 0), foreach)
  {
    BeforeEnd(c, 0);
    visited := [];
    if c.st.length <= 0 {
      assert PresentDownTo(c.st.log, c.Sight(), 0) == [];
      return;
    }
    ghost var i := |c.st.log| - 1;
    c.st.Ends();
    StepBack(c, |c.st.log|);
    var index := PrevAt(c.st.file[..], c.st.length);
    while index >= 0
      invariant -1 <= i < |c.st.log| && index == if i < 0 then -1 else Offset(c.st.log, i)
      invariant WalkedBack(c.st.log, c.Sight(), i, visited, foreach)
      decreases i
    {
      var go;
      go, visited, index := StepBackward(c, foreach, index, i, visited);
      if !go {
        return;
      }
      i := i - 1;
    }
    FedAll(visited, foreach);
  }

  /**
    A full iteration lists the live pairs, each exactly once, iff no record imitates, no
    live key is remapped and no deleted pair shows through.
   */
  lemma IterationExact(c: PMap, foreach: (bytes, bytes) -> bool)
    requires c.Valid()
    requires forall k, v :: foreach(k, v)
    ensures var ps := PresentUpTo(c.st.log, c.Sight(), |c.st.log|);
      && Fed(ps, foreach) == ps
      && Fed(PresentDownTo(c.st.log, c.Sight(), 0), foreach) == Reverse(ps)
      && (Lists(ps, c.Model()) <==>
            NoImitation(c.st.log, c.image.pos) && AllPlain(c.image.pos) && AllPlain(c.Sight()))
  {
    var ps := PresentUpTo(c.st.log, c.Sight(), |c.st.log|);
    FedAll(ps, foreach);
    BackwardIsReverse(c.st.log, c.Sight());
    FedAll(Reverse(ps), foreach);
    ListingExact(c.image);
  }

  lemma ListingExact(s: Image)
    requires Represents(s) && Probing(s.t)
    ensures Lists(PresentUpTo(s.log, Sight(s.t, s.log), |s.log|), s.m) <==>
      NoImitation(s.log, s.pos) && AllPlain(s.pos) && AllPlain(Sight(s.t, s.log))
  {
    SightIsView(s.t, s.log);
    ViewIsMap(s);
    ViewSees(s);
    Representation.Open(s);
    SelectionExact(s.log, Sight(s.t, s.log), s.pos);
  }
}
