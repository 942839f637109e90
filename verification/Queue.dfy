/** The deadline queue of com/comclient.go: a doubly linked list sorted by deadline. */
module Queues {
  import opened Guards

  datatype Entry = Entry(t: int, tid: nat)

  /** timeoutMsg */
  class Node {
    var t: int
    var tid: nat
    var prev: Node?
    var next: Node?

    constructor (t: int, tid: nat)
      ensures this.t == t && this.tid == tid && prev == null && next == null
    {
      this.t, this.tid, prev, next := t, tid, null, null;
    }
  }

  ghost predicate Sorted(es: seq<Entry>) {
    forall i, j :: 0 <= i < j < |es| ==> es[i].t <= es[j].t
  }

  /** Insert behind all entries whose deadline is not later: older entries stay first. */
  function Insert(es: seq<Entry>, e: Entry): (r: seq<Entry>)
    ensures |r| == |es| + 1
  {
    if es == [] then [e]
    else
      var n := |es| - 1;
      if es[n].t > e.t then Insert(es[..n], e) + [es[n]] else es + [e]
  }

  /** Where `Insert` puts the entry. */
  lemma {:induction false} InsertAt(es: seq<Entry>, e: Entry, k: nat)
    requires k <= |es| && (k == 0 || es[k - 1].t <= e.t)
    requires forall i :: k <= i < |es| ==> es[i].t > e.t
    ensures Insert(es, e) == es[..k] + [e] + es[k..]
  {
    if k == |es| {
      assert es[..k] == es && es[k..] == [];
    } else {
      var n := |es| - 1;
      InsertAt(es[..n], e, k);
      assert es[..n][..k] == es[..k] && es[..n][k..] + [es[n]] == es[k..];
    }
  }

  lemma {:induction false} InsertMultiset(es: seq<Entry>, e: Entry)
    ensures multiset(Insert(es, e)) == multiset(es) + multiset{e}
  {
    if es != [] {
      var n := |es| - 1;
      assert es == es[..n] + [es[n]];
      if es[n].t > e.t {
        InsertMultiset(es[..n], e);
      }
    }
  }

  lemma InsertMember(es: seq<Entry>, e: Entry, x: Entry)
    ensures x in Insert(es, e) <==> x in es || x == e
  {
    InsertMultiset(es, e);
    assert x in Insert(es, e) <==> x in multiset(Insert(es, e));
  }

  lemma {:induction false} InsertOrdered(es: seq<Entry>, e: Entry)
    requires Sorted(es)
    ensures Sorted(Insert(es, e))
  {
    if es != [] {
      var n := |es| - 1;
      if es[n].t > e.t {
        var r := Insert(es[..n], e);
        InsertOrdered(es[..n], e);
        forall i | 0 <= i < |r|
          ensures r[i].t <= es[n].t
        {
          InsertMember(es[..n], e, r[i]);
        }
      }
    }
  }

  lemma InsertSorted(es: seq<Entry>, e: Entry)
    requires Sorted(es)
    ensures Sorted(Insert(es, e)) && multiset(Insert(es, e)) == multiset(es) + multiset{e}
    ensures forall x :: x in Insert(es, e) <==> x in es || x == e
  {
    InsertOrdered(es, e);
    InsertMultiset(es, e);
    forall x
      ensures x in Insert(es, e) <==> x in es || x == e
    {
      InsertMember(es, e, x);
    }
  }

  /** The deadlines of all entries have passed. */
  ghost predicate Expired(es: seq<Entry>, now: int) {
    forall i :: 0 <= i < |es| ==> es[i].t < now
  }

  ghost predicate Unexpired(es: seq<Entry>, now: int) {
    forall i :: 0 <= i < |es| ==> es[i].t >= now
  }

  lemma TakeMore(es: seq<Entry>, k: nat)
    requires k < |es|
    ensures es[..k + 1] == es[..k] + [es[k]]
  {
  }

  lemma HeadUnexpired(es: seq<Entry>, now: int)
    requires Sorted(es) && (es != [] ==> es[0].t >= now)
    ensures Unexpired(es, now)
  {
  }

  lemma DropMore(ns: seq<Node>, k: nat)
    requires k < |ns|
    ensures ns[k..][1..] == ns[k + 1..]
  {
  }

  lemma SpliceMembers(ns: seq<Node>, tm: Node, k: nat)
    requires k <= |ns|
    ensures forall n :: n in ns[..k] + [tm] + ns[k..] ==> n in ns || n == tm
  {
  }

  lemma PopFirst(removed: seq<Entry>, es: seq<Entry>, now: int)
    requires es != [] && Expired(removed, now) && es[0].t < now
    ensures (removed + [es[0]]) + es[1..] == removed + es
    ensures Expired(removed + [es[0]], now)
  {
  }

  /** The entries that a clean at `now` leaves: it stops at the first unexpired one. */
  function Remaining(es: seq<Entry>, now: int): seq<Entry> {
    if es != [] && es[0].t < now then Remaining(es[1..], now) else es
  }

  lemma {:induction false} RemainingIs(removed: seq<Entry>, es: seq<Entry>, now: int)
    requires Expired(removed, now) && Unexpired(es, now)
    ensures Remaining(removed + es, now) == es
  {
    if removed == [] {
      assert removed + es == es;
    } else {
      assert (removed + es)[1..] == removed[1..] + es;
      RemainingIs(removed[1..], es, now);
    }
  }

  lemma {:induction false} RemainingMember(es: seq<Entry>, now: int, x: Entry)
    requires x in Remaining(es, now)
    ensures x in es
  {
    if es != [] && es[0].t < now {
      RemainingMember(es[1..], now, x);
    }
  }

  /** The first `k` entries are removed, the others and their nodes are left. */
  ghost predicate Split(es0: seq<Entry>, ns0: seq<Node>, k: nat, removed: seq<Entry>, es: seq<Entry>, ns: seq<Node>) {
    && k <= |es0| && k <= |ns0| && k == |removed| && removed + es == es0 && ns == ns0[k..]
    && forall n :: n in ns ==> n in ns0
  }

  lemma Undone(es: seq<Entry>, ns: seq<Node>)
    ensures Split(es, ns, 0, [], es, ns)
  {
  }

  lemma SplitMore(es0: seq<Entry>, ns0: seq<Node>, k: nat, removed: seq<Entry>, es: seq<Entry>, ns: seq<Node>, now: int)
    requires Split(es0, ns0, k, removed, es, ns) && Expired(removed, now) && |es| == |ns|
    ensures es != [] && es[0].t < now ==>
      Split(es0, ns0, k + 1, removed + [es[0]], es[1..], ns[1..]) && Expired(removed + [es[0]], now)
  {
    if es != [] && es[0].t < now {
      PopFirst(removed, es, now);
      DropMore(ns0, k);
    }
  }

  /** The node behind node `i`. */
  ghost function Follower(ns: seq<Node>, i: nat): Node?
    requires i < |ns|
  {
    if i + 1 == |ns| then null else ns[i + 1]
  }

  class Queue {
    /** Earliest deadline. */
    var head: Node?
    /** Latest deadline. */
    var tail: Node?
    var l: nat
    /** From head to tail. */
    ghost var nodes: seq<Node>
    ghost var es: seq<Entry>

    /** Node `i` is linked to its neighbours; `next` leads towards the head. */
    ghost predicate Linked(i: nat)
      requires i < |nodes|
      reads this, nodes
    {
      && nodes[i].next == (if i == 0 then null else nodes[i - 1])
      && nodes[i].prev == Follower(nodes, i)
    }

    ghost predicate Chain()
      reads this, nodes
    {
      && l == |nodes|
      && head == (if l == 0 then null else nodes[0])
      && tail == (if l == 0 then null else nodes[l - 1])
      && (forall i {:trigger Linked(i)} :: 0 <= i < |nodes| ==> Linked(i))
      && (forall i, j :: 0 <= i < j < |nodes| ==> nodes[i] != nodes[j])
    }

    /** The pointers are those of the list `ns`, whatever the ghost fields say. */
    ghost predicate ListOf(ns: seq<Node>)
      reads this, ns
    {
      && l == |ns|
      && head == (if l == 0 then null else ns[0])
      && tail == (if l == 0 then null else ns[l - 1])
      && (l > 0 ==> ns[0].next == null)
      && (forall i :: 0 < i < |ns| ==> ns[i].next == ns[i - 1])
      && (forall i :: 0 <= i < |ns| ==> ns[i].prev == Follower(ns, i))
    }

    lemma ChainIsList()
      requires Chain()
      ensures ListOf(nodes)
    {
      assert l > 0 ==> Linked(0);
      forall i | 0 <= i < |nodes|
        ensures nodes[i].next == (if i == 0 then null else nodes[i - 1]) && nodes[i].prev == Follower(nodes, i)
      {
        assert Linked(i);
      }
    }

    /** With a node before its head, the queue is no list at all. */
    lemma NoList(ns: seq<Node>)
      requires head != null && head.next != null
      ensures !ListOf(ns)
    {
    }

    /** A well-formed list of length `l`, sorted by deadline, holding the entries `es`. */
    ghost predicate Valid()
      reads this, nodes
    {
      && Chain()
      && |es| == |nodes|
      && (forall i :: 0 <= i < |nodes| ==> es[i] == Entry(nodes[i].t, nodes[i].tid))
      && Sorted(es)
    }

    constructor ()
      ensures Valid() && es == [] && nodes == []
    {
      head, tail, l := null, null, 0;
      nodes, es := [], [];
    }

    /** The walk of push from the tail: stops at the head or at a deadline that is not later. */
    method FindSlot(t: int) returns (x: Node, ghost j: nat)
      requires Valid() && l > 0
      ensures j < |nodes| && x == nodes[j]
      ensures j == 0 || es[j].t <= t
      ensures forall i :: j < i < |es| ==> es[i].t > t
    {
      x := tail;
      j := l - 1;
      while x.next != null && x.t > t
        invariant j < |nodes| && x == nodes[j]
        invariant forall i :: j < i < |es| ==> es[i].t > t
        decreases j
      {
        assert Linked(j);
        x := x.next;
        j := j - 1;
      }
      assert Linked(j);
    }

    /** The pointer updates after the walk: `tm` goes behind `x`. */
    method Splice(x: Node, tm: Node, ghost j: nat)
      requires Chain() && j < |nodes| && x == nodes[j] && tm !in nodes
      modifies `l, `tail, `nodes, nodes`prev, nodes`next, tm`prev, tm`next
      ensures Chain() && nodes == old(nodes)[..j + 1] + [tm] + old(nodes)[j + 1..]
    {
      ghost var ns := nodes;
      assert Linked(j) && (j + 1 < |ns| ==> Linked(j + 1));
      l := l + 1;
      var prev := x.prev;
      x.prev := tm;
      tm.next := x;
      tm.prev := prev;
      if prev != null {
        prev.next := tm;
      } else {
        tail := tm;
      }
      nodes := ns[..j + 1] + [tm] + ns[j + 1..];
      forall i | 0 <= i < |nodes|
        ensures Linked(i)
      {
        if i <= j {
          assert old(Linked(i)) && nodes[i] == ns[i];
        } else if i > j + 1 {
          assert old(Linked(i - 1)) && nodes[i] == ns[i - 1];
        }
      }
    }

    /** A deadline that is not before the head's goes to its sorted place. */
    method PushSorted(x: Node, tm: Node, ghost j: nat)
      requires Valid() && j < |nodes| && x == nodes[j] && tm !in nodes
      requires es[j].t <= tm.t && forall i :: j < i < |es| ==> es[i].t > tm.t
      modifies this, nodes`prev, nodes`next, tm`prev, tm`next
      ensures Valid() && es == Insert(old(es), Entry(tm.t, tm.tid))
      ensures nodes == old(nodes)[..j + 1] + [tm] + old(nodes)[j + 1..]
    {
      ghost var ns, olds, e := nodes, es, Entry(tm.t, tm.tid);
      InsertAt(es, e, j + 1);
      InsertSorted(es, e);
      es := olds[..j + 1] + [e] + olds[j + 1..];
      forall i | 0 <= i < |nodes|
        ensures Linked(i)
      {
        assert old(Linked(i));
      }
      Splice(x, tm, j);
      forall i | 0 <= i < |nodes|
        ensures es[i] == Entry(nodes[i].t, nodes[i].tid)
      {
        if i <= j {
          assert nodes[i] == ns[i] && es[i] == olds[i];
        } else if i > j + 1 {
          assert nodes[i] == ns[i - 1] && es[i] == olds[i - 1];
        }
      }
    }

    /** The walk along `prev` from the head misses the old one and ends one node short of `l`. */
    ghost predicate Short(ns: seq<Node>, tm: Node)
      reads this, ns, tm
    {
      && ns != [] && l == |ns| + 1 && head == tm && tm.prev == Follower(ns, 0)
      && forall i :: 0 < i < |ns| ==> ns[i].prev == Follower(ns, i)
    }

    /** The fall-through after "to head". */
    method PushEarly(x: Node, tm: Node)
      requires Valid() && l > 0 && x == nodes[0] && tm !in nodes && tm.t < x.t
      modifies this, nodes`prev, nodes`next, tm`prev, tm`next
      ensures !Valid() && Short(old(nodes), tm)
      ensures head.next == x && x.next == tm && x.prev == tm
      ensures forall ns: seq<Node> :: !ListOf(ns)
    {
      forall i | 0 <= i < |nodes|
        ensures nodes[i].prev == Follower(nodes, i)
      {
        assert Linked(i);
      }
      head := tm;
      x.next := tm;
      tm.prev := x;
      l := l + 1;
      var prev := x.prev;
      x.prev := tm;
      tm.next := x;
      tm.prev := prev;
      if prev != null {
        prev.next := tm;
      } else {
        tail := tm;
      }
      forall ns: seq<Node>
        ensures !ListOf(ns)
      {
        NoList(ns);
      }
    }

    /**
      Push keeps the list well formed exactly when the queue is empty or the new deadline
      is not before the head's; otherwise the code falls through from its "to head"
      branch and leaves the new head and the old one pointing at each other. Then the walk
      along `prev` from the head skips the old head, so it is one node shorter than `l` says.
     */
    method Push(tm: Node)
      requires Valid() && tm !in nodes && tm.prev == null && tm.next == null
      modifies this, nodes`prev, nodes`next, tm`prev, tm`next
      ensures Valid() <==> old(es) == [] || old(es)[0].t <= tm.t
      ensures Valid() ==> es == Insert(old(es), Entry(tm.t, tm.tid))
      ensures Valid() ==> forall n :: n in nodes ==> n in old(nodes) || n == tm
      ensures !Valid() ==> head == tm && tm.next == old(head) != null && old(head).next == tm
      ensures !Valid() ==> Short(old(nodes), tm)
    {
      if l == 0 {
        l := l + 1;
        tail := tm;
        head := tm;
        nodes, es := [tm], [Entry(tm.t, tm.tid)];
        return;
      }
      var x, j := FindSlot(tm.t);
      assert Linked(j);
      if x.next == null && x.t > tm.t {
        PushEarly(x, tm);
        return;
      }
      SpliceMembers(nodes, tm, j + 1);
      PushSorted(x, tm, j);
    }

    /** One turn of clean: unlink the head and clear its pointers for the pool. */
    method PopHead() returns (f: Node)
      requires Valid() && l > 0
      modifies this, nodes[0], nodes[if l > 1 then 1 else 0]
      ensures Valid() && es == old(es)[1..] && nodes == old(nodes)[1..]
      ensures f == old(nodes)[0] && f.prev == null && f.next == null
      ensures Entry(f.t, f.tid) == old(es)[0]
    {
      ghost var ns := nodes;
      f := head;
      assert Linked(0) && (l > 1 ==> Linked(1));
      head := f.prev;
      l := l - 1;
      if l == 1 {
        head.next := null;
        tail := head;
      } else if l > 1 {
        head.next := null;
      } else {
        head := null;
        tail := null;
      }
      f.next := null;
      f.prev := null;
      nodes, es := ns[1..], es[1..];
      forall i | 0 <= i < |nodes|
        ensures Linked(i)
      {
        assert nodes[i] == ns[i + 1];
        assert old(Linked(i + 1));
      }
    }

    /** The same as `Valid`, but unfolded only where a proof asks for it. */
    ghost predicate Sealed()
      reads this, nodes
    {
      forall n: int {:trigger Asked(n)} :: Asked(n) ==> Valid()
    }

    lemma Unseal()
      requires Sealed()
      ensures Valid()
    {
      assert Asked(0);
    }

    lemma Seal()
      requires Valid()
      ensures Sealed() && |es| == |nodes| && Sorted(es)
    {
    }

    /** Take the head off if its deadline has passed. */
    method PopExpired(now: int) returns (popped: bool, e: Entry)
      requires Sealed() && |es| == |nodes|
      modifies this, nodes
      ensures Sealed() && |es| == |nodes| && Sorted(es)
      ensures popped == (old(es) != [] && old(es)[0].t < now)
      ensures popped ==> es == old(es)[1..] && nodes == old(nodes)[1..] && e == old(es)[0]
      ensures !popped ==> es == old(es) && nodes == old(nodes)
    {
      Unseal();
      popped, e := false, Entry(0, 0);
      if l > 0 && now > head.t {
        var f := PopHead();
        popped, e := true, Entry(f.t, f.tid);
      }
      Seal();
    }

    /** Remove exactly the entries whose deadline has passed, earliest first. */
    method CleanSealed(now: int) returns (removed: seq<Entry>)
      requires Sealed() && |es| == |nodes| && Sorted(es)
      modifies this, nodes
      ensures Sealed() && removed + es == old(es)
      ensures |removed| <= |old(nodes)| && nodes == old(nodes)[|removed|..]
      ensures Expired(removed, now) && Unexpired(es, now)
    {
      ghost var es0, ns0 := es, nodes;
      removed := [];
      Undone(es0, ns0);
      var more := true;
      while more
        invariant Sealed() && |es| == |nodes| && Sorted(es)
        invariant Split(es0, ns0, |removed|, removed, es, nodes) && Expired(removed, now)
        invariant !more ==> es == [] || es[0].t >= now
        decreases more, |es|
      {
        SplitMore(es0, ns0, |removed|, removed, es, nodes, now);
        var e;
        more, e := PopExpired(now);
        if more {
          removed := removed + [e];
        }
      }
      HeadUnexpired(es, now);
    }

    method Clean(now: int) returns (removed: seq<Entry>)
      requires Valid()
      modifies this, nodes
      ensures Valid() && removed + es == old(es)
      ensures |removed| <= |old(nodes)| && nodes == old(nodes)[|removed|..]
      ensures Expired(removed, now) && Unexpired(es, now)
    {
      Seal();
      removed := CleanSealed(now);
      Unseal();
    }

    /** One turn of forall: take the head off; the other links are not repaired. */
    method Detach(ghost k: nat) returns (e: Entry)
      requires Tail(k) && l > 0 && k < |nodes|
      modifies `head, `l, nodes[k]
      ensures Tail(k + 1) && e == es[k]
    {
      var f := head;
      e := Entry(f.t, f.tid);
      head := f.prev;
      f.next := null;
      f.prev := null;
      l := l - 1;
    }

    /** From node `k` on the list is intact in the direction that forall walks. */
    ghost predicate Tail(k: nat)
      reads this, nodes
    {
      && k <= |nodes| && l == |nodes| - k && |es| == |nodes|
      && (l > 0 ==> head == nodes[k])
      && (forall i :: k <= i < |nodes| ==>
            nodes[i].prev == Follower(nodes, i) && es[i] == Entry(nodes[i].t, nodes[i].tid))
      && (forall i, j :: 0 <= i < j < |nodes| ==> nodes[i] != nodes[j])
    }

    lemma TailOfAll()
      requires Valid()
      ensures Tail(0)
    {
      forall i | 0 <= i < |nodes|
        ensures nodes[i].prev == Follower(nodes, i)
      {
        assert Linked(i);
      }
    }

    /** The close path: hand out every entry, earliest first, and empty the queue. */
    method Drain() returns (removed: seq<Entry>)
      requires Valid()
      modifies this, nodes
      ensures Valid() && es == [] && nodes == [] && removed == old(es)
    {
      ghost var k := 0;
      removed := [];
      TailOfAll();
      while l > 0
        invariant Tail(k) && nodes == old(nodes) && es == old(es)
        invariant removed == es[..k]
        decreases l
      {
        TakeMore(es, k);
        var e := Detach(k);
        removed := removed + [e];
        k := k + 1;
      }
      head := null;
      tail := null;
      nodes, es := [], [];
    }
  }
}
