/** Which directories can hold a ".." that has outlived the inode it names. mkdir counts the ".." of a new
    directory in the parent's links and rmdir takes that link back; a directory is named here as long as
    its ".." is counted. */
module InodeNests {
  import Counting
  import opened InodeTable
  import opened InodeSafety

  /** The named directories in p. */
  ghost function Kids(nodes: seq<Ino>, named: set<nat>, p: nat): (kids: set<nat>) {
    set c | c in named && c < |nodes| && c != p && nodes[c].up == Some(p)
  }

  /** The links of directory p are its name and its named subdirectories. */
  ghost predicate Exact(nodes: seq<Ino>, named: set<nat>, p: nat) {
    p < |nodes| && nodes[p].nlink == |Kids(nodes, named, p)| + if p in named then 1 else 0
  }

  /** An empty directory that has its link, and whose ".." is not counted yet, or not any more. */
  ghost predicate Pending(nodes: seq<Ino>, named: set<nat>, p: nat) {
    p < |nodes| && p !in named && nodes[p].nlink == 1 && Kids(nodes, named, p) == {}
  }

  /** Thread t has inode i locked. */
  predicate Locks(s: State, t: nat, i: nat) {
    t < |s.pcs| && s.pcs[t].Locked? && At(s, s.pcs[t]) && Inum(s, s.pcs[t]) == i
  }

  ghost predicate InUse(s: State, i: nat) {
    exists t: nat :: Locks(s, t, i)
  }

  /** A directory is counted exactly, but for a locked one that is being made or removed. */
  ghost predicate Fits(s: State, named: set<nat>, p: nat) {
    p < |s.nodes| ==>
      if s.nodes[p].up.None? then p !in named && |Kids(s.nodes, named, p)| <= s.nodes[p].nlink
      else Exact(s.nodes, named, p) || (Pending(s.nodes, named, p) && InUse(s, p))
  }

  ghost predicate Nested(s: State, named: set<nat>) {
    && (forall p: nat {:trigger Fits(s, named, p)} :: Fits(s, named, p))
    && (forall c | c in named :: c < |s.nodes|)
    && forall i: nat {:trigger s.nodes[i]} | i < |s.nodes| && !s.nodes[i].alloc :: s.nodes[i].nlink == 0
  }

  /** The ".." of c, which is locked and empty, names another directory p, which thread t has locked and
      is neither making nor removing. */
  ghost predicate Within(s: State, named: set<nat>, t: nat, c: nat, p: nat) {
    && InUse(s, c) && c < |s.nodes| && s.nodes[c].up == Some(p) && c != p && Kids(s.nodes, named, c) == {}
    && Locks(s, t, p) && (s.nodes[p].up.Some? ==> Exact(s.nodes, named, p))
  }

  /** What create, link and unlink keep to beyond the steps of the table. A name is given to what is no
      directory, or is not one yet; ".." is written in an inode that just got its link, and then counted.
      rmdir takes that count back before it takes the directory's own link, and only from an empty one.
      Nobody looks ".." up in a directory they are making or removing, or unlocks it. */
  ghost predicate Careful(s: State, named: set<nat>, e: Event, after: set<nat>) {
    match e
    case Link(t) =>
      || (after == named && forall i: nat | i < |s.nodes| && Locks(s, t, i) :: s.nodes[i].up.None?)
      || exists c: nat, p: nat :: Within(s, named, t, c, p) && Pending(s.nodes, named, c) && after == named + {c}
    case Unlink(t) =>
      || (after == named && forall i: nat | i < |s.nodes| && Locks(s, t, i) :: i !in named && Kids(s.nodes, named, i) == {})
      || exists c: nat, p: nat :: Within(s, named, t, c, p) && c in named && after == named - {c}
    case Nest(t, u) =>
      after == named && forall i: nat | i < |s.nodes| && Locks(s, t, i) :: s.nodes[i].up.None? && Pending(s.nodes, named, i)
    case Unlock(t) => after == named && forall i: nat | Locks(s, t, i) :: Settled(s, named, i)
    case Dotdot(t, u, k) => after == named && forall i: nat | Locks(s, u, i) :: Settled(s, named, i)
    case _ => after == named
  }

  ghost predicate Settled(s: State, named: set<nat>, i: nat) {
    i < |s.nodes| && (s.nodes[i].up.Some? ==> Exact(s.nodes, named, i))
  }

  /** The slot a thread is on is in use. */
  lemma OnInUse(s: State, u: nat, k: nat)
    requires Counted(s) && u < |s.pcs| && On(s.pcs[u], k)
    ensures k < |s.slots| && s.slots[k].ref > 0
  {
    Counting.CountOn(s.pcs, u, Users(k));
  }

  lemma StillLocked(s: State, e: Event, r: State, u: nat, k: nat)
    requires Next(s, e, r) && u < |s.pcs| && s.pcs[u] == Locked(k) && (u != e.t || !e.Unlock?)
    ensures |r.nodes| == |s.nodes| && u < |r.pcs| && r.pcs[u] == Locked(k)
  {
  }

  /** A lock is kept until its holder unlocks. */
  lemma LocksStay(s: State, e: Event, r: State, u: nat, i: nat)
    requires Inv(s) && Next(s, e, r) && Locks(s, u, i) && (u != e.t || !e.Unlock?)
    ensures Locks(r, u, i)
  {
    var k := s.pcs[u].k;
    StillLocked(s, e, r, u, k);
    SlotKept(s, e, r, u, k);
    NextCounted(s, e, r);
    OnInUse(r, u, k);
  }

  /** A directory that is neither settled nor let go is in use still. */
  lemma StaysInUse(s: State, named: set<nat>, e: Event, r: State, after: set<nat>, p: nat)
    requires Inv(s) && Next(s, e, r) && Careful(s, named, e, after) && InUse(s, p) && p < |s.nodes|
    ensures InUse(r, p) || Settled(s, named, p)
  {
    var u: nat :| Locks(s, u, p);
    if u != e.t || !e.Unlock? {
      LocksStay(s, e, r, u, p);
    }
  }

  /** A thread that holds a lock has an allocated inode. */
  lemma LockedAlloc(s: State, t: nat, i: nat)
    requires Safe(s) && Locks(s, t, i)
    ensures i < |s.nodes| && s.nodes[i].alloc
  {
    assert Uses(s.pcs[t], s.pcs[t].k);
  }

  /** The subdirectories of p are the same when named and the ".." entries of the named are. */
  lemma SameKids(nodes: seq<Ino>, r: seq<Ino>, named: set<nat>, p: nat)
    requires |r| == |nodes| && forall c: nat | c < |nodes| && c in named :: r[c].up == nodes[c].up
    ensures Kids(r, named, p) == Kids(nodes, named, p)
  {
  }

  /** Steps that write no inode. */
  lemma QuietFits(s: State, named: set<nat>, e: Event, r: State, p: nat)
    requires Inv(s) && Nested(s, named) && Next(s, e, r) && Careful(s, named, e, named) && r.nodes == s.nodes
    ensures Fits(r, named, p)
  {
    assert Fits(s, named, p);
    if p < |s.nodes| && InUse(s, p) { StaysInUse(s, named, e, r, named, p); }
  }

  /** Steps that write inode i, whose ".." is not counted: the other directories. */
  lemma OtherFits(s: State, named: set<nat>, e: Event, r: State, i: nat, p: nat)
    requires Inv(s) && Nested(s, named) && Next(s, e, r) && !e.Unlock? && i < |s.nodes| && |r.nodes| == |s.nodes|
    requires r.nodes == s.nodes[i := r.nodes[i]] && (i in named ==> r.nodes[i].up == s.nodes[i].up)
    ensures Kids(r.nodes, named, p) == Kids(s.nodes, named, p)
    ensures p != i ==> Fits(r, named, p)
  {
    SameKids(s.nodes, r.nodes, named, p);
    assert Fits(s, named, p);
    if p < |s.nodes| && InUse(s, p) {
      var u: nat :| Locks(s, u, p);
      LocksStay(s, e, r, u, p);
    }
  }

  /** A name given or taken, ".." written, an inode allocated or freed. */
  lemma AloneFits(s: State, named: set<nat>, e: Event, r: State, i: nat, p: nat)
    requires Inv(s) && Safe(s) && Nested(s, named) && Next(s, e, r) && Careful(s, named, e, named)
    requires e.Claim? || e.FreeDisk? || e.Nest?
    requires i == if e.Claim? then e.i else s.slots[s.pcs[e.t].k].inum
    ensures Fits(r, named, p)
  {
    assert Fits(s, named, i);
    if e.FreeDisk? {
      assert HoldsLock(s.pcs[e.t], s.pcs[e.t].k);
    } else if e.Nest? {
      assert Locks(s, e.t, i);
      LocksStay(s, e, r, e.t, i);
    }
    OtherFits(s, named, e, r, i, p);
  }

  lemma NameFits(s: State, named: set<nat>, e: Event, r: State, i: nat, p: nat)
    requires Inv(s) && Nested(s, named) && Next(s, e, r) && (e.Link? || e.Unlink?)
    requires Locks(s, e.t, i)
    requires if e.Link? then s.nodes[i].up.None? else i !in named && Kids(s.nodes, named, i) == {}
    ensures Fits(r, named, p)
  {
    assert Fits(s, named, i);
    OtherFits(s, named, e, r, i, p);
  }

  lemma OneMoreKid(nodes: seq<Ino>, named: set<nat>, c: nat, p: nat, q: nat)
    requires c < |nodes| && c !in named && c != p && nodes[c].up == Some(p)
    ensures |Kids(nodes, named + {c}, q)| == |Kids(nodes, named, q)| + if q == p then 1 else 0
  {
    if q == p {
      assert Kids(nodes, named + {c}, q) == Kids(nodes, named, q) + {c};
    } else {
      assert Kids(nodes, named + {c}, q) == Kids(nodes, named, q);
    }
  }

  /** Counting c: its parent p has one more subdirectory and one more link. */
  lemma CountFits(s: State, named: set<nat>, e: Event, r: State, c: nat, p: nat, q: nat)
    requires Inv(s) && Nested(s, named) && Next(s, e, r) && e.Link? && Within(s, named, e.t, c, p) && Pending(s.nodes, named, c)
    ensures Fits(r, named + {c}, q)
  {
    OtherFits(s, named, e, r, p, q);
    assert q == p || q == c ==> Fits(s, named, q);
    OneMoreKid(r.nodes, named, c, p, q);
  }

  /** And taking the count back. */
  lemma UncountFits(s: State, named: set<nat>, e: Event, r: State, c: nat, p: nat, q: nat)
    requires Inv(s) && Nested(s, named) && Next(s, e, r) && e.Unlink? && Within(s, named, e.t, c, p) && c in named
    ensures Fits(r, named - {c}, q)
  {
    OtherFits(s, named, e, r, p, q);
    assert Fits(s, named, p) && Fits(s, named, c);
    OneMoreKid(r.nodes, named - {c}, c, p, q);
    assert named - {c} + {c} == named;
    if q == c {
      var u: nat :| Locks(s, u, c);
      LocksStay(s, e, r, u, c);
    }
  }

  lemma NextFits(s: State, named: set<nat>, e: Event, r: State, after: set<nat>, p: nat)
    requires Inv(s) && Safe(s) && Nested(s, named) && Next(s, e, r) && Careful(s, named, e, after)
    ensures Fits(r, after, p)
  {
    if e.Claim? {
      AloneFits(s, named, e, r, e.i, p);
    } else if e.FreeDisk? || e.Nest? {
      AloneFits(s, named, e, r, Inum(s, s.pcs[e.t]), p);
    } else if e.Link? || e.Unlink? {
      LinkFits(s, named, e, r, after, p);
    } else {
      QuietFits(s, named, e, r, p);
    }
  }

  lemma LinkFits(s: State, named: set<nat>, e: Event, r: State, after: set<nat>, p: nat)
    requires Inv(s) && Nested(s, named) && Next(s, e, r) && Careful(s, named, e, after) && (e.Link? || e.Unlink?)
    ensures Fits(r, after, p)
  {
    var i := Inum(s, s.pcs[e.t]);
    assert Locks(s, e.t, i);
    if after == named && if e.Link? then s.nodes[i].up.None? else i !in named && Kids(s.nodes, named, i) == {} {
      NameFits(s, named, e, r, i, p);
    } else if e.Link? {
      var c: nat, q: nat :| Within(s, named, e.t, c, q) && Pending(s.nodes, named, c) && after == named + {c};
      CountFits(s, named, e, r, c, q, p);
    } else {
      var c: nat, q: nat :| Within(s, named, e.t, c, q) && c in named && after == named - {c};
      UncountFits(s, named, e, r, c, q, p);
    }
  }

  /** An inode without type has no links. */
  lemma FreeUnlinked(s: State, named: set<nat>, e: Event, r: State, i: nat)
    requires Inv(s) && Safe(s) && Nested(s, named) && Next(s, e, r) && i < |r.nodes| && !r.nodes[i].alloc
    ensures r.nodes[i].nlink == 0
  {
    if e.Link? || e.Unlink? || e.Nest? || e.FreeDisk? {
      assert HoldsLock(s.pcs[e.t], s.pcs[e.t].k) && Uses(s.pcs[e.t], s.pcs[e.t].k);
    }
  }

  lemma NextNested(s: State, named: set<nat>, e: Event, r: State, after: set<nat>)
    requires Inv(s) && Safe(s) && Nested(s, named) && Next(s, e, r) && Careful(s, named, e, after)
    ensures Nested(r, after)
  {
    forall p: nat ensures Fits(r, after, p) { NextFits(s, named, e, r, after, p); }
    forall i: nat | i < |r.nodes| && !r.nodes[i].alloc ensures r.nodes[i].nlink == 0 { FreeUnlinked(s, named, e, r, i); }
  }

  /** The inode a stale ".." names has no links, and is not the directory that holds the entry. */
  lemma StaleTarget(s: State, named: set<nat>, e: Event, d: nat)
    requires Inv(s) && Safe(s) && Nested(s, named) && Stale(s, e) && Locks(s, e.u, d)
    ensures d < |s.nodes| && s.nodes[d].up.Some? && s.nodes[d].up.i < |s.nodes| && s.nodes[d].up.i != d
    ensures s.nodes[s.nodes[d].up.i].nlink == 0
  {
    var i := s.nodes[d].up.i;
    LockedAlloc(s, e.u, d);
    assert Uses(s.pcs[e.u], s.pcs[e.u].k);
    if v: nat :| Frees(s, v, i) {
      assert HoldsLock(s.pcs[v], s.pcs[v].k);
      Shared(s, e.u, s.pcs[e.u].k, v, s.pcs[v].k);
    } else if v: nat :| Claims(s, v, i) {
      assert s.pcs[v] == Claimed(i);
    }
  }

  /** A stale ".." lies in a directory that has lost its name. Its links are the subdirectories made in it
      since, so it has none exactly when there are no such. */
  lemma StaleUnnamed(s: State, named: set<nat>, e: Event, after: set<nat>, d: nat)
    requires Inv(s) && Safe(s) && Nested(s, named) && Careful(s, named, e, after) && Stale(s, e) && Locks(s, e.u, d)
    ensures d !in named && d < |s.nodes| && s.nodes[d].nlink == |Kids(s.nodes, named, d)|
    ensures s.nodes[d].nlink == 0 <==> Kids(s.nodes, named, d) == {}
  {
    StaleTarget(s, named, e, d);
    var i := s.nodes[d].up.i;
    assert Fits(s, named, i) && Kids(s.nodes, named, i) == {};
    assert d in named ==> d in Kids(s.nodes, named, i);
    assert Settled(s, named, d);
  }

  /** A run in which create, link and unlink keep to their order; named tells, before each step, which
      directories have their ".." counted. */
  ghost predicate Orderly(ss: seq<State>, es: seq<Event>, named: seq<set<nat>>) {
    && Run(ss, es) && |named| == |ss| && Nested(ss[0], named[0])
    && forall n {:trigger es[n]} | 0 <= n < |es| :: Careful(ss[n], named[n], es[n], named[n + 1])
  }

  lemma {:induction false} RunNested(ss: seq<State>, es: seq<Event>, named: seq<set<nat>>, n: nat)
    requires Orderly(ss, es, named) && n < |ss| && NoStale(ss, es, n)
    ensures Nested(ss[n], named[n])
  {
    if n > 0 {
      RunNested(ss, es, named, n - 1);
      RunSafe(ss, es, n - 1);
      assert Next(ss[n - 1], es[n - 1], ss[n]) && Careful(ss[n - 1], named[n - 1], es[n - 1], named[n]);
      NextNested(ss[n - 1], named[n - 1], es[n - 1], ss[n], named[n]);
    }
  }

  /** Over every run: the first stale ".." that is followed lies in a directory d that has lost its name,
      and d has no links of its own unless a subdirectory was made in it after that. */
  lemma FirstStale(ss: seq<State>, es: seq<Event>, named: seq<set<nat>>, n: nat, d: nat)
    requires Orderly(ss, es, named) && n < |es| && NoStale(ss, es, n)
    requires es[n].Dotdot? && Locks(ss[n], es[n].u, d) && Stale(ss[n], es[n])
    ensures d !in named[n] && d < |ss[n].nodes| && ss[n].nodes[d].nlink == |Kids(ss[n].nodes, named[n], d)|
    ensures ss[n].nodes[d].nlink == 0 <==> Kids(ss[n].nodes, named[n], d) == {}
  {
    RunNested(ss, es, named, n);
    RunSafe(ss, es, n);
    StaleUnnamed(ss[n], named[n], es[n], named[n + 1], d);
  }
}
