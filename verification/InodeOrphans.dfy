/** Inodes that are lost: allocated, unlinked, and in nobody's hands. */
module InodeOrphans {
  import opened InodeTable
  import opened InodeSafety

  /** An allocated inode without links that nobody holds or claims. */
  ghost predicate Orphan(s: State, i: nat) {
    && i < |s.nodes| && s.nodes[i].alloc && s.nodes[i].nlink == 0
    && (forall t: nat {:trigger s.pcs[t]} | t < |s.pcs| :: s.pcs[t] != Claimed(i))
    && forall t: nat, k: nat {:trigger Uses(s.pcs[t], k)} | t < |s.pcs| && k < |s.slots| && Uses(s.pcs[t], k) :: s.slots[k].inum != i
  }

  /** Nobody but thread t uses slot k, and nobody has claimed inode i. */
  ghost predicate Alone(s: State, t: nat, k: nat, i: nat) {
    && (forall u: nat {:trigger Uses(s.pcs[u], k)} | u < |s.pcs| && u != t :: !Uses(s.pcs[u], k))
    && forall u: nat {:trigger s.pcs[u]} | u < |s.pcs| :: s.pcs[u] != Claimed(i)
  }

  /** iput by the only user of an unlinked inode that does not free it: another iput of the same slot,
      which freed the inode's last life, has not yet given its reference back, so ref is above 1; or the
      inode was never loaded. */
  ghost predicate MissedFree(s: State, e: Event, i: nat) {
    && e.Iput? && e.t < |s.pcs| && s.pcs[e.t].Ref? && At(s, s.pcs[e.t])
    && var k := s.pcs[e.t].k;
       && s.slots[k].inum == i && s.nodes[i].alloc && s.nodes[i].nlink == 0
       && (s.slots[k].ref > 1 || !s.slots[k].valid) && Alone(s, e.t, k, i)
  }

  /** A step that finds inode i through a "..". */
  predicate Finds(s: State, e: Event, i: nat) {
    e.Dotdot? && UpOf(s, e.u) == Some(i)
  }

  lemma Missed(s: State, e: Event, r: State, i: nat)
    requires Inv(s) && Next(s, e, r) && MissedFree(s, e, i)
    ensures Orphan(r, i)
  {
    var t, k := e.t, s.pcs[e.t].k;
    forall u: nat, j: nat | u < |r.pcs| && j < |r.slots| && Uses(r.pcs[u], j) ensures r.slots[j].inum != i {
      assert u != t && Uses(s.pcs[u], j);
      Shared(s, t, k, u, j);
    }
    forall u: nat | u < |r.pcs| ensures r.pcs[u] != Claimed(i) {
      assert s.pcs[u] != Claimed(i);
    }
  }

  /** No thread but t uses or claims inode i. */
  ghost predicate OthersOff(s: State, t: nat, i: nat) {
    && (forall u: nat, k: nat {:trigger Uses(s.pcs[u], k)} | u < |s.pcs| && u != t && k < |s.slots| && Uses(s.pcs[u], k) :: s.slots[k].inum != i)
    && forall u: nat {:trigger s.pcs[u]} | u < |s.pcs| && u != t :: s.pcs[u] != Claimed(i)
  }

  lemma OthersWereOff(s: State, e: Event, r: State, i: nat)
    requires Counted(s) && Next(s, e, r) && Orphan(r, i)
    ensures OthersOff(s, e.t, i)
  {
    forall u: nat, k: nat | u < |s.pcs| && u != e.t && k < |s.slots| && Uses(s.pcs[u], k) ensures s.slots[k].inum != i {
      SlotKept(s, e, r, u, k);
      assert Uses(r.pcs[u], k);
    }
    forall u: nat | u < |s.pcs| && u != e.t ensures s.pcs[u] != Claimed(i) {
      assert r.pcs[u] != Claimed(i);
    }
  }

  /** Whoever used or claimed inode i before the step that orphans it is the one who took the step. */
  lemma LeftBy(s: State, e: Event, r: State, i: nat)
    requires Next(s, e, r) && !Orphan(s, i) && Orphan(r, i) && OthersOff(s, e.t, i)
    ensures MissedFree(s, e, i)
  {
    var pc := s.pcs[e.t];
    assert r.pcs == s.pcs[e.t := r.pcs[e.t]];
    if e.Iput? {
      assert Doomed(s, pc.k) ==> Uses(r.pcs[e.t], pc.k);
    } else if e.Adopt? {
      assert Uses(r.pcs[e.t], e.k);
    } else if e.Lock? || e.Link? || e.Unlink? || e.Nest? || e.Unlock? {
      assert Uses(r.pcs[e.t], pc.k);
    }
  }

  /** A step orphans an inode exactly when it is a missed free of it. */
  lemma OrphanedIff(s: State, e: Event, r: State, i: nat)
    requires Inv(s) && Next(s, e, r) && !Orphan(s, i)
    ensures Orphan(r, i) <==> MissedFree(s, e, i)
  {
    if MissedFree(s, e, i) {
      Missed(s, e, r, i);
    } else if Orphan(r, i) {
      OthersWereOff(s, e, r, i);
      LeftBy(s, e, r, i);
    }
  }

  /** Only ".." brings anyone to an orphan. */
  lemma NobodyComes(s: State, e: Event, r: State, i: nat, u: nat, k: nat)
    requires Counted(s) && Next(s, e, r) && Orphan(s, i) && !Finds(s, e, i)
    requires u < |r.pcs| && k < |r.slots| && Uses(r.pcs[u], k)
    ensures r.slots[k].inum != i
  {
    if u != e.t {
      assert Uses(s.pcs[u], k);
      SlotKept(s, e, r, u, k);
    } else if e.Idup? {
      assert Uses(s.pcs[e.u], k);
    } else {
      assert Uses(s.pcs[u], k) || e.Iget? || e.Adopt? || e.Dotdot?;
    }
  }

  /** An orphan stays allocated and unlinked. */
  lemma OrphanKept(s: State, e: Event, r: State, i: nat)
    requires Next(s, e, r) && Orphan(s, i)
    ensures i < |r.nodes| && r.nodes[i].alloc && r.nodes[i].nlink == 0
    ensures forall t: nat {:trigger r.pcs[t]} | t < |r.pcs| :: r.pcs[t] != Claimed(i)
  {
    var pc := s.pcs[e.t];
    if !pc.Idle? && !pc.Claimed? && pc.k < |s.slots| {
      assert Uses(pc, pc.k) ==> s.slots[pc.k].inum != i;
    }
  }

  /** An orphan is never freed, and only a ".." that still holds its number finds it again. */
  lemma OrphanStays(s: State, e: Event, r: State, i: nat)
    requires Inv(s) && Next(s, e, r) && Orphan(s, i)
    ensures Orphan(r, i) <==> !Finds(s, e, i)
  {
    OrphanKept(s, e, r, i);
    if Finds(s, e, i) {
      assert Uses(r.pcs[e.t], e.k) && r.slots[e.k].inum == i;
    } else {
      forall u: nat, k: nat | u < |r.pcs| && k < |r.slots| && Uses(r.pcs[u], k) ensures r.slots[k].inum != i {
        NobodyComes(s, e, r, i, u, k);
      }
    }
  }

  /** After a step an inode is an orphan exactly when it was one before and was not found, or the step
      is a missed free of it. */
  lemma OrphanStep(s: State, e: Event, r: State, i: nat)
    requires Inv(s) && Next(s, e, r)
    ensures Orphan(r, i) <==> (Orphan(s, i) && !Finds(s, e, i)) || MissedFree(s, e, i)
  {
    if Orphan(s, i) {
      OrphanStays(s, e, r, i);
      if MissedFree(s, e, i) { assert Uses(s.pcs[e.t], s.pcs[e.t].k); }
    } else {
      OrphanedIff(s, e, r, i);
    }
  }

  /** Step m is a missed free of inode i, and none of the steps between it and n found i again. */
  ghost predicate LostAt(ss: seq<State>, es: seq<Event>, m: nat, n: nat, i: nat) {
    && m < n <= |es| && n <= |ss| && MissedFree(ss[m], es[m], i)
    && forall l: nat {:trigger es[l]} | m < l < n :: !Finds(ss[l], es[l], i)
  }

  ghost predicate Lost(ss: seq<State>, es: seq<Event>, n: nat, i: nat) {
    exists m: nat {:trigger LostAt(ss, es, m, n, i)} :: LostAt(ss, es, m, n, i)
  }

  lemma LostStep(ss: seq<State>, es: seq<Event>, n: nat, i: nat)
    requires 0 < n <= |es| && n <= |ss|
    ensures Lost(ss, es, n, i) <==> (Lost(ss, es, n - 1, i) && !Finds(ss[n - 1], es[n - 1], i)) || MissedFree(ss[n - 1], es[n - 1], i)
  {
    var p := n - 1;
    if MissedFree(ss[p], es[p], i) {
      assert LostAt(ss, es, p, n, i);
    } else if m: nat :| LostAt(ss, es, m, n, i) {
      assert LostAt(ss, es, m, p, i) && !Finds(ss[p], es[p], i);
    } else if m: nat :| LostAt(ss, es, m, p, i) {
      assert !Finds(ss[p], es[p], i) ==> LostAt(ss, es, m, n, i);
    }
  }

  /** Over every run, an inode is lost exactly when a missed free of it has happened and no ".." found it since. */
  lemma {:induction false} OrphanIffMissed(ss: seq<State>, es: seq<Event>, n: nat, i: nat)
    requires Run(ss, es) && n < |ss|
    ensures Orphan(ss[n], i) <==> Lost(ss, es, n, i)
  {
    if n > 0 {
      OrphanIffMissed(ss, es, n - 1, i);
      RunInv(ss, es, n - 1);
      assert Next(ss[n - 1], es[n - 1], ss[n]);
      OrphanStep(ss[n - 1], es[n - 1], ss[n], i);
      LostStep(ss, es, n, i);
    }
  }
}
