/** The time-windowed checksum of core/pmap/syncchecksum.go. */
module Checksums {
  import opened Bytes
  import opened Dictionary

  const NANOS_PER_SECOND := 1_000_000_000

  /** The zero time.Time (January 1 of year 1), in nanoseconds since the Unix epoch. */
  const ZERO_TIME := -62135596800 * NANOS_PER_SECOND

  /** time.Unix(t.Unix() + 1, 0) */
  function NextSecond(t: int): (r: int)
    ensures t < r <= t + NANOS_PER_SECOND && r % NANOS_PER_SECOND == 0
  {
    (t / NANOS_PER_SECOND + 1) * NANOS_PER_SECOND
  }

  datatype Windows = Windows(newSum: u64, mediumSum: u64, oldSum: u64,
                             newTime: int, mediumTime: int, oldTime: int)

  const START := Windows(0, 0, 0, ZERO_TIME, ZERO_TIME, ZERO_TIME)

  function Shift(w: Windows, t: int): Windows {
    if t > w.newTime
    then Windows(w.newSum, w.newSum, w.mediumSum, NextSecond(t), w.newTime, w.mediumTime)
    else w
  }

  function Advance(w: Windows, el: u64, t: int): Windows {
    var s := Shift(w, t);
    s.(newSum := AddMod(s.newSum, el),
       mediumSum := if t < s.mediumTime then AddMod(s.mediumSum, el) else s.mediumSum,
       oldSum := if t < s.oldTime then AddMod(s.oldSum, el) else s.oldSum)
  }

  /** A pair is added at its own time. */
  function With(w: Windows, k: bytes, v: bytes): Windows {
    Advance(w, Element(k, v), Stamp(v))
  }

  /** The pair of the key, if any, is taken out at time `t`. */
  function Without(w: Windows, m: Dict, k: bytes, t: int): Windows {
    if k in m then Advance(w, NegMod(Element(k, m[k])), t) else w
  }

  class SyncChecksum {
    var newSum: u64
    var mediumSum: u64
    var oldSum: u64
    var newTime: int
    var mediumTime: int
    var oldTime: int

    constructor ()
      ensures View() == START
    {
      newSum, mediumSum, oldSum := 0, 0, 0;
      newTime, mediumTime, oldTime := ZERO_TIME, ZERO_TIME, ZERO_TIME;
    }

    function View(): Windows
      reads this
    {
      Windows(newSum, mediumSum, oldSum, newTime, mediumTime, oldTime)
    }

    method Sum(el: u64, t: int)
      modifies this
      ensures View() == Advance(old(View()), el, t)
    {
      if t > newTime {
        oldTime := mediumTime;
        mediumTime := newTime;
        newTime := NextSecond(t);
        oldSum := mediumSum;
        mediumSum := newSum;
      }
      newSum := AddMod(newSum, el);
      if t < mediumTime {
        mediumSum := AddMod(mediumSum, el);
      }
      if t < oldTime {
        oldSum := AddMod(oldSum, el);
      }
    }

    method Sub(el: u64, t: int)
      modifies this
      ensures View() == Advance(old(View()), NegMod(el), t)
    {
      Sum(NegMod(el), t);
    }

    /** The reported checksum: the oldest window, after moving the time forward. */
    method Checksum(now: int) returns (r: u64)
      modifies this
      ensures View() == Advance(old(View()), 0, now) && r == oldSum
    {
      Sum(0, now);
      r := oldSum;
    }
  }

  // ------------------------------------------------- meaning of the windows

  datatype Event = Event(el: u64, t: int)

  function Feed(w: Windows, es: seq<Event>): Windows {
    if es == [] then w
    else Advance(Feed(w, es[..|es| - 1]), es[|es| - 1].el, es[|es| - 1].t)
  }

  /** The sum of all events strictly before `limit`. */
  function SumBefore(es: seq<Event>, limit: int): u64 {
    if es == [] then 0
    else
      var e := es[|es| - 1];
      var before := SumBefore(es[..|es| - 1], limit);
      if e.t < limit then AddMod(before, e.el) else before
  }

  function SumAll(es: seq<Event>): u64 {
    if es == [] then 0 else AddMod(SumAll(es[..|es| - 1]), es[|es| - 1].el)
  }

  /** Each window holds exactly the events strictly before its time. */
  ghost predicate Exact(w: Windows, es: seq<Event>) {
    && w.oldTime <= w.mediumTime <= w.newTime
    && w.newSum == SumAll(es)
    && w.mediumSum == SumBefore(es, w.mediumTime)
    && w.oldSum == SumBefore(es, w.oldTime)
  }

  ghost predicate AllBefore(es: seq<Event>, limit: int) {
    forall i :: 0 <= i < |es| && es[i].el != 0 ==> es[i].t < limit
  }

  lemma {:induction false} SumBeforeAll(es: seq<Event>, limit: int)
    requires AllBefore(es, limit)
    ensures SumBefore(es, limit) == SumAll(es)
  {
    if es != [] {
      SumBeforeAll(es[..|es| - 1], limit);
    }
  }

  /** One event keeps the windows exact if and only if it does not fall on the current end. */
  lemma AdvanceExact(w: Windows, es: seq<Event>, e: Event)
    requires Exact(w, es) && AllBefore(es, w.newTime)
    ensures var w', es' := Advance(w, e.el, e.t), es + [e];
      && Exact(w', es')
      && (AllBefore(es', w'.newTime) <==> e.el == 0 || e.t != w.newTime)
  {
    var w', es' := Advance(w, e.el, e.t), es + [e];
    assert es'[..|es|] == es && es'[|es|] == e;
    SumBeforeAll(es, w.newTime);
    if e.el == 0 || e.t != w.newTime {
      assert AllBefore(es', w'.newTime);
    }
  }

  ghost predicate OffBoundary(es: seq<Event>) {
    forall i :: 0 <= i < |es| && es[i].el != 0 ==> es[i].t % NANOS_PER_SECOND != 0
  }

  /** For every arrival order of events off the whole seconds, all windows are exact. */
  lemma {:induction false} WindowsExact(es: seq<Event>)
    requires OffBoundary(es)
    ensures Exact(Feed(START, es), es) && AllBefore(es, Feed(START, es).newTime)
    ensures Feed(START, es).newTime % NANOS_PER_SECOND == 0
  {
    if es != [] {
      var n := |es| - 1;
      WindowsExact(es[..n]);
      assert es[..n] + [es[n]] == es;
      AdvanceExact(Feed(START, es[..n]), es[..n], es[n]);
    }
  }

  /** An event on a window end is later counted as if it were strictly before it. */
  lemma BoundaryEventMiscounted()
    ensures var s := NANOS_PER_SECOND;
      var es := [Event(1, s / 2), Event(1, s), Event(1, 3 * s / 2)];
      Feed(START, es).mediumTime == s && Feed(START, es).mediumSum == 2 && SumBefore(es, s) == 1
  {
    var s := NANOS_PER_SECOND;
    var e1, e2, e3 := Event(1, s / 2), Event(1, s), Event(1, 3 * s / 2);
    assert [e1, e2, e3][..2] == [e1, e2] && [e1, e2][..1] == [e1] && [e1][..0] == [];
    assert Feed(START, [e1]) == Windows(1, 0, 0, s, ZERO_TIME, ZERO_TIME);
    assert Feed(START, [e1, e2]) == Windows(2, 0, 0, s, ZERO_TIME, ZERO_TIME);
    assert SumBefore([e1], s) == 1 && SumBefore([e1, e2], s) == 1;
  }

  /** After two window shifts without writes the reported checksum is the newest one. */
  lemma QuietWindows(w: Windows, t1: int, t2: int)
    requires t1 > w.newTime && t2 > NextSecond(t1)
    ensures var w' := Advance(Advance(w, 0, t1), 0, t2);
      w'.oldSum == w'.mediumSum == w'.newSum == w.newSum
  {
    var w1 := Advance(w, 0, t1);
    assert w1.newTime == NextSecond(t1) && w1.mediumSum == w.newSum;
    assert Shift(w1, t2).oldSum == w1.mediumSum;
  }
}
