/** The state of one chunk in core/core.go: presence, protection timers, defragmentation. */
module Chunks {
  import opened Bytes
  import opened Dictionary
  import opened Views
  import opened PMaps
  import opened Iteration
  import opened Defragmentation
  import opened Checksums

  class MetaChunk {
    const chunkSize: nat
    var pm: PMap?
    var present: bool
    var protected: bool
    var revision: int
    var protectionTime: int
    /** The times of the protections whose goroutine still sleeps. */
    var timers: multiset<int>

    /** Only present chunks are protected, and the timer of the latest protection is pending. */
    ghost predicate Guarded()
      reads this
    {
      && chunkSize <= TWO_32
      && (present <==> pm != null)
      && (pm != null ==> pm.st.size == chunkSize)
      && (protected ==> present && protectionTime in timers)
    }

    constructor (chunkSize: nat)
      requires chunkSize <= TWO_32
      ensures Guarded() && !present && !protected && timers == multiset{} && this.chunkSize == chunkSize
    {
      this.chunkSize := chunkSize;
      pm, present, protected, revision := null, false, false, 0;
      protectionTime, timers := ZERO_TIME, multiset{};
    }

    method SetPresent()
      requires Guarded()
      modifies this
      ensures Guarded() && present && protected == old(protected) && timers == old(timers)
      ensures protectionTime == old(protectionTime)
      ensures if old(present) then pm == old(pm) else fresh(pm) && pm.Valid() && pm.Model() == map[]
    {
      if !present {
        pm := new PMap(chunkSize);
        present := true;
      }
    }

    method SetNoPresent()
      requires Guarded()
      modifies this
      ensures Guarded() && !present && !protected && timers == old(timers)
      ensures protectionTime == old(protectionTime)
    {
      if present {
        pm := null;
        present := false;
        protected := false;
      }
    }

    method SetProtected(now: int) returns (ok: bool)
      requires Guarded()
      modifies this
      ensures Guarded() && ok == old(present) && present == old(present)
      ensures ok ==> protected && protectionTime == now && timers == old(timers) + multiset{now}
      ensures !ok ==> protected == old(protected) && timers == old(timers) && protectionTime == old(protectionTime)
    {
      if !present {
        return false;
      }
      protected := true;
      protectionTime := now;
      timers := timers + multiset{now};
      return true;
    }

    /** A sleeping goroutine wakes up. A timer of an older protection clears nothing. */
    method Expire(t: int)
      requires Guarded() && t in timers
      modifies this
      ensures Guarded() && present == old(present) && timers == old(timers) - multiset{t}
      ensures protected <==> old(protected) && old(protectionTime) != t
      ensures old(protectionTime) != t ==> protectionTime == old(protectionTime)
    {
      timers := timers - multiset{t};
      if protectionTime == t {
        protectionTime := ZERO_TIME;
        protected := false;
      }
    }

    /** Replace the map by its copy and count the revision; a failing Set ends in a panic. */
    method Defragment() returns (ok: bool)
      requires Guarded() && pm != null && pm.Valid()
      requires Legible(pm)
      modifies this
      ensures Guarded() && pm != null && fresh(pm) && revision == old(revision) + 1
      ensures ok == old(Copyable(Selection(pm)))
      ensures ok ==>
        && pm.Valid() && pm.Durable() && pm.Summed() && pm.st.size == chunkSize
        && pm.st.deleted == 0 && pm.st.length == LiveBytes(pm.Model()) <= old(pm.st.length)
        && (pm.Model() == old(pm.Model()) <==>
              old(pm.image.pos.Keys <= pm.Sight().Keys && LeadersAgree(pm.st.log, pm.Sight(), pm.image.pos)))
      ensures old(NoImitation(pm.st.log, pm.image.pos) && AllPlain(pm.image.pos) && AllPlain(pm.Sight())) ==>
        ok && pm.Model() == old(pm.Model())
    {
      revision := revision + 1;
      ok, pm := Defragmentation.Defragment(pm);
    }
  }

  datatype Event = Appear | Vanish | Protect(now: int) | Wake(t: int)

  /** The chunk appeared and has not vanished since. */
  ghost predicate PresentAfter(events: seq<Event>, n: nat)
    requires n <= |events|
  {
    exists i :: 0 <= i < n && events[i] == Appear && forall j :: i < j < n ==> events[j] != Vanish
  }

  /** Event `i` protected a present chunk, and nothing after it has ended or replaced that. */
  ghost predicate Protects(events: seq<Event>, i: nat, n: nat)
    requires n <= |events|
  {
    && i < n && events[i].Protect? && PresentAfter(events, i)
    && forall j :: i < j < n ==> !events[j].Protect? && events[j] != Vanish && events[j] != Wake(events[i].now)
  }

  lemma PresentStep(events: seq<Event>, n: nat)
    requires n < |events|
    ensures PresentAfter(events, n + 1) <==>
      events[n] == Appear || (PresentAfter(events, n) && events[n] != Vanish)
  {
    if PresentAfter(events, n) && events[n] != Vanish {
      var i :| 0 <= i < n && events[i] == Appear && forall j :: i < j < n ==> events[j] != Vanish;
      assert events[i] == Appear && forall j :: i < j < n + 1 ==> events[j] != Vanish;
    }
  }

  lemma ProtectStep(events: seq<Event>, i: nat, n: nat)
    requires n < |events|
    ensures Protects(events, i, n + 1) <==>
      if i == n then events[n].Protect? && PresentAfter(events, n)
      else
        && Protects(events, i, n)
        && !events[n].Protect? && events[n] != Vanish && events[n] != Wake(events[i].now)
  {
  }

  method HandleEvent(c: MetaChunk, e: Event)
    requires c.Guarded()
    modifies c
    ensures c.Guarded()
    ensures c.present <==> e == Appear || (old(c.present) && e != Vanish)
    ensures c.protected <==>
      if e.Protect? then old(c.present) else old(c.protected) && e != Vanish && e != Wake(old(c.protectionTime))
    ensures c.protected ==> c.protectionTime == if e.Protect? then e.now else old(c.protectionTime)
  {
    match e
    case Appear => c.SetPresent();
    case Vanish => c.SetNoPresent();
    case Protect(now) => var _ := c.SetProtected(now);
    case Wake(t) =>
      if t in c.timers {
        c.Expire(t);
      }
  }

  /**
    Over any interleaving of events, a chunk is protected exactly when its latest
    protection has not run out and the chunk has not vanished since.
   */
  method RunChunk(chunkSize: nat, events: seq<Event>) returns (c: MetaChunk)
    requires chunkSize <= TWO_32
    ensures c.Guarded()
    ensures c.present <==> PresentAfter(events, |events|)
    ensures c.protected <==> exists i :: Protects(events, i, |events|)
  {
    c := new MetaChunk(chunkSize);
    ghost var w := -1;
    for n := 0 to |events|
      invariant fresh(c) && c.Guarded() && (c.present <==> PresentAfter(events, n))
      invariant -1 <= w < n && (c.protected <==> w >= 0)
      invariant w >= 0 ==> Protects(events, w, n) && events[w].now == c.protectionTime
      invariant forall i: nat :: Protects(events, i, n) ==> i == w
    {
      PresentStep(events, n);
      forall i: nat
        ensures Protects(events, i, n + 1) <==>
          if i == n then events[n].Protect? && PresentAfter(events, n)
          else Protects(events, i, n) && !events[n].Protect? && events[n] != Vanish && events[n] != Wake(events[i].now)
      {
        ProtectStep(events, i, n);
      }
      HandleEvent(c, events[n]);
      w := if !c.protected then -1 else if events[n].Protect? then n else w;
    }
  }
}
