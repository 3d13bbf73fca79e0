/** When the references the inode table hands out are good: what holds until a ".." entry that has
    outlived its directory is followed, and what following one does. */
module InodeSafety {
  import opened Counting
  import opened InodeTable

  /** Behind a slot that someone relies on there is an allocated inode. */
  ghost predicate Alive(s: State) {
    forall t: nat, k: nat {:trigger Uses(s.pcs[t], k)} |
      t < |s.pcs| && k < |s.slots| && Uses(s.pcs[t], k) && s.slots[k].inum < |s.nodes| :: s.nodes[s.slots[k].inum].alloc
  }

  /** A thread that is freeing an inode is its only holder, and the inode has no links. */
  ghost predicate LastHolder(s: State) {
    forall t: nat, k: nat {:trigger HoldsLock(s.pcs[t], k)} | t < |s.pcs| && k < |s.slots| && s.pcs[t] == Freeing(k) ::
      s.slots[k].ref == 1 && s.slots[k].inum < |s.nodes| && s.nodes[s.slots[k].inum].nlink == 0
  }

  /** A freshly claimed inode has no links, one claimant and no users. */
  ghost predicate ClaimsOk(s: State) {
    && (forall t: nat {:trigger s.pcs[t]} | t < |s.pcs| && s.pcs[t].Claimed? ::
          s.pcs[t].i < |s.nodes| && s.nodes[s.pcs[t].i].alloc && s.nodes[s.pcs[t].i].nlink == 0)
    && (forall t: nat, u: nat {:trigger s.pcs[t], s.pcs[u]} | t < u < |s.pcs| && s.pcs[t].Claimed? && s.pcs[u].Claimed? ::
          s.pcs[t].i != s.pcs[u].i)
    && forall t: nat, u: nat, k: nat {:trigger s.pcs[t], Uses(s.pcs[u], k)} |
         t < |s.pcs| && u < |s.pcs| && s.pcs[t].Claimed? && k < |s.slots| && Uses(s.pcs[u], k) ::
         s.slots[k].inum != s.pcs[t].i
  }

  ghost predicate Safe(s: State) {
    Alive(s) && LastHolder(s) && ClaimsOk(s)
  }

  /** Thread v is freeing inode i. */
  predicate Frees(s: State, v: nat, i: nat) {
    v < |s.pcs| && s.pcs[v].Freeing? && s.pcs[v].k < |s.slots| && s.slots[s.pcs[v].k].inum == i
  }

  /** Thread v has claimed inode i and not yet taken a reference to it. */
  predicate Claims(s: State, v: nat, i: nat) {
    v < |s.pcs| && s.pcs[v] == Claimed(i)
  }

  /** Following ".." to an inode that is free, is being freed, or was given to someone else who has not
      come for it yet. */
  ghost predicate Stale(s: State, e: Event) {
    && e.Dotdot? && UpOf(s, e.u).Some?
    && var i := UpOf(s, e.u).i;
       i < |s.nodes| && (!s.nodes[i].alloc || (exists v: nat :: Frees(s, v, i)) || exists v: nat :: Claims(s, v, i))
  }

  /** A thread that is freeing stays the only holder, whatever another does. */
  lemma StillLast(s: State, e: Event, r: State, u: nat, k: nat)
    requires Inv(s) && Safe(s) && Next(s, e, r) && !Stale(s, e) && u < |s.pcs| && u != e.t && s.pcs[u] == Freeing(k)
    ensures k < |r.slots| && r.slots[k].ref == 1 && r.slots[k].inum < |r.nodes| && r.nodes[r.slots[k].inum].nlink == 0
  {
    SlotKept(s, e, r, u, k);
    assert HoldsLock(s.pcs[u], k) && Uses(s.pcs[u], k);
    var pc := s.pcs[e.t];
    if e.Dotdot? {
      assert Frees(s, u, s.slots[k].inum);
    } else if e.Idup? {
      Shared(s, e.u, s.pcs[e.u].k, u, k);
    } else if !pc.Idle? && !pc.Claimed? {
      Shared(s, e.t, pc.k, u, k);
    }
  }

  lemma NextLastHolder(s: State, e: Event, r: State)
    requires Inv(s) && Safe(s) && Next(s, e, r) && !Stale(s, e)
    ensures LastHolder(r)
  {
    forall u: nat, k: nat | u < |r.pcs| && k < |r.slots| && r.pcs[u] == Freeing(k)
      ensures r.slots[k].ref == 1 && r.slots[k].inum < |r.nodes| && r.nodes[r.slots[k].inum].nlink == 0
    {
      if u != e.t { StillLast(s, e, r, u, k); }
    }
  }

  /** The inode another thread relies on stays allocated. */
  lemma StillAlive(s: State, e: Event, r: State, u: nat, k: nat)
    requires Inv(s) && Safe(s) && Next(s, e, r) && u < |s.pcs| && u != e.t && Uses(s.pcs[u], k)
    ensures k < |r.slots| && r.slots[k].inum < |r.nodes| && r.nodes[r.slots[k].inum].alloc
  {
    SlotKept(s, e, r, u, k);
    if e.FreeDisk? {
      assert HoldsLock(s.pcs[e.t], s.pcs[e.t].k);
      Shared(s, e.t, s.pcs[e.t].k, u, k);
    }
  }

  lemma Newcomer(s: State, e: Event, r: State, k: nat)
    requires Inv(s) && Safe(s) && Next(s, e, r) && !Stale(s, e) && k < |r.slots| && Uses(r.pcs[e.t], k)
    ensures r.slots[k].inum < |r.nodes| && r.nodes[r.slots[k].inum].alloc
  {
    if e.Idup? {
      assert Uses(s.pcs[e.u], k);
    } else {
      assert Uses(s.pcs[e.t], k) || e.Iget? || e.Adopt? || e.Dotdot?;
    }
  }

  lemma NextAlive(s: State, e: Event, r: State)
    requires Inv(s) && Safe(s) && Next(s, e, r) && !Stale(s, e)
    ensures Alive(r)
  {
    forall u: nat, k: nat | u < |r.pcs| && k < |r.slots| && Uses(r.pcs[u], k) && r.slots[k].inum < |r.nodes|
      ensures r.nodes[r.slots[k].inum].alloc
    {
      if u != e.t { StillAlive(s, e, r, u, k); } else { Newcomer(s, e, r, k); }
    }
  }

  /** Another thread's claim stands: its inode is still allocated and unlinked. */
  lemma StillClaimed(s: State, e: Event, r: State, u: nat)
    requires Inv(s) && Safe(s) && Next(s, e, r) && u < |s.pcs| && u != e.t && s.pcs[u].Claimed?
    ensures var i := s.pcs[u].i; i < |r.nodes| && r.nodes[i].alloc && r.nodes[i].nlink == 0
    ensures r.pcs[e.t].Claimed? ==> r.pcs[e.t].i != s.pcs[u].i
  {
    if e.Link? || e.Unlink? || e.Nest? || e.FreeDisk? {
      assert Uses(s.pcs[e.t], s.pcs[e.t].k);
    } else {
      assert e.Claim? || r.nodes == s.nodes;
    }
  }

  /** And nobody comes to use it. */
  lemma StillUnused(s: State, e: Event, r: State, u: nat, k: nat)
    requires Inv(s) && Safe(s) && Next(s, e, r) && !Stale(s, e)
    requires u < |s.pcs| && u != e.t && s.pcs[u].Claimed? && k < |r.slots| && Uses(r.pcs[e.t], k)
    ensures r.slots[k].inum != s.pcs[u].i
  {
    if e.Idup? {
      assert Uses(s.pcs[e.u], k);
    } else if e.Dotdot? {
      assert Claims(s, u, s.pcs[u].i);
    } else {
      assert Uses(s.pcs[e.t], k) || e.Iget? || e.Adopt?;
    }
  }

  /** No thread uses an inode that is just being claimed. */
  lemma NobodyUses(s: State, e: Event, r: State, u: nat, k: nat)
    requires Inv(s) && Safe(s) && Next(s, e, r) && e.Claim? && u < |s.pcs| && Uses(s.pcs[u], k)
    ensures k < |s.slots| && s.slots[k].inum != e.i
  {
    SlotKept(s, e, r, u, k);
  }

  lemma ClaimApart(s: State, e: Event, r: State, t: nat, u: nat, k: nat)
    requires Inv(s) && Safe(s) && Next(s, e, r) && !Stale(s, e)
    requires t < |r.pcs| && u < |r.pcs| && r.pcs[t].Claimed? && k < |r.slots| && Uses(r.pcs[u], k)
    ensures r.slots[k].inum != r.pcs[t].i
  {
    if u == e.t {
      StillUnused(s, e, r, t, k);
    } else {
      SlotKept(s, e, r, u, k);
      if t == e.t {
        NobodyUses(s, e, r, u, k);
      }
    }
  }

  lemma ClaimsStand(s: State, e: Event, r: State, t: nat, u: nat)
    requires Inv(s) && Safe(s) && Next(s, e, r) && t < u < |r.pcs| && r.pcs[t].Claimed? && r.pcs[u].Claimed?
    ensures r.pcs[t].i != r.pcs[u].i
  {
    if u == e.t { StillClaimed(s, e, r, t); } else if t == e.t { StillClaimed(s, e, r, u); }
  }

  lemma NextClaims(s: State, e: Event, r: State)
    requires Inv(s) && Safe(s) && Next(s, e, r) && !Stale(s, e)
    ensures ClaimsOk(r)
  {
    forall u: nat | u < |r.pcs| && r.pcs[u].Claimed?
      ensures r.pcs[u].i < |r.nodes| && r.nodes[r.pcs[u].i].alloc && r.nodes[r.pcs[u].i].nlink == 0
    {
      if u != e.t { StillClaimed(s, e, r, u); }
    }
    forall t: nat, u: nat | t < u < |r.pcs| && r.pcs[t].Claimed? && r.pcs[u].Claimed? ensures r.pcs[t].i != r.pcs[u].i {
      ClaimsStand(s, e, r, t, u);
    }
    forall t: nat, u: nat, k: nat | t < |r.pcs| && u < |r.pcs| && r.pcs[t].Claimed? && k < |r.slots| && Uses(r.pcs[u], k)
      ensures r.slots[k].inum != r.pcs[t].i
    {
      ClaimApart(s, e, r, t, u, k);
    }
  }

  /** A stale lookup gives out a reference to a free inode, joins one that is being freed, or takes one
      that was given to someone else. */
  lemma StaleBreaks(s: State, e: Event, r: State)
    requires Inv(s) && Next(s, e, r) && Stale(s, e)
    ensures !Safe(r)
  {
    var i, k := UpOf(s, e.u).i, e.k;
    assert Uses(r.pcs[e.t], k) && r.slots[k].inum == i;
    if v: nat :| Frees(s, v, i) {
      var j := s.pcs[v].k;
      SlotKept(s, e, r, v, j);
      assert HoldsLock(r.pcs[v], j);
      assert r.slots[j].ref >= 2 by {
        CountOn(s.pcs, v, Users(j));
      }
    } else if v: nat :| Claims(s, v, i) {
      assert r.pcs[v] == Claimed(i);
    }
  }

  /** References stay good exactly as long as no stale ".." is followed. */
  lemma SafeIff(s: State, e: Event, r: State)
    requires Inv(s) && Safe(s) && Next(s, e, r)
    ensures Safe(r) <==> !Stale(s, e)
  {
    if Stale(s, e) {
      StaleBreaks(s, e, r);
    } else {
      NextAlive(s, e, r);
      NextLastHolder(s, e, r);
      NextClaims(s, e, r);
    }
  }

  /** None of the first n steps of a run follows a stale "..". */
  ghost predicate NoStale(ss: seq<State>, es: seq<Event>, n: nat) {
    forall m: nat {:trigger es[m]} | m < n && m < |es| && m < |ss| :: !Stale(ss[m], es[m])
  }

  lemma NoStaleStep(ss: seq<State>, es: seq<Event>, n: nat)
    requires 0 < n <= |es| && n <= |ss|
    ensures NoStale(ss, es, n) <==> NoStale(ss, es, n - 1) && !Stale(ss[n - 1], es[n - 1])
  {
  }

  lemma InitSafe(s: State)
    requires Init(s)
    ensures Safe(s)
  {
  }

  /** Over every run: references are good as long as no stale ".." was followed, and no longer. */
  lemma {:induction false} RunSafe(ss: seq<State>, es: seq<Event>, n: nat)
    requires Run(ss, es) && n < |ss| && (n > 0 ==> NoStale(ss, es, n - 1))
    ensures Inv(ss[n]) && (Safe(ss[n]) <==> NoStale(ss, es, n))
  {
    RunInv(ss, es, n);
    if n == 0 {
      InitSafe(ss[0]);
    } else {
      NoStaleStep(ss, es, n);
      if n > 1 { NoStaleStep(ss, es, n - 1); }
      RunSafe(ss, es, n - 1);
      assert Next(ss[n - 1], es[n - 1], ss[n]);
      SafeIff(ss[n - 1], es[n - 1], ss[n]);
    }
  }

  /** Thread t can take the lock of its slot now, and ilock would find an inode without a type. */
  predicate NoType(s: State, t: nat) {
    && t < |s.pcs| && (s.pcs[t].New? || s.pcs[t].Ref?) && At(s, s.pcs[t])
    && s.slots[s.pcs[t].k].lock.Free? && !s.slots[s.pcs[t].k].valid && !s.nodes[Inum(s, s.pcs[t])].alloc
  }

  /** As long as no stale ".." was followed, ilock never finds an inode without a type. */
  lemma NeverNoType(ss: seq<State>, es: seq<Event>, n: nat, t: nat)
    requires Run(ss, es) && n < |ss| && NoStale(ss, es, n)
    ensures !NoType(ss[n], t)
  {
    RunSafe(ss, es, n);
    var s := ss[n];
    if t < |s.pcs| && (s.pcs[t].New? || s.pcs[t].Ref?) {
      assert Uses(s.pcs[t], s.pcs[t].k) && At(s, s.pcs[t]) ==> s.nodes[Inum(s, s.pcs[t])].alloc;
    }
  }

  /** And an inode is freed on disk only by its only holder, unlinked, once per allocation. */
  lemma FreedByLast(ss: seq<State>, es: seq<Event>, n: nat)
    requires Run(ss, es) && n < |es| && es[n].FreeDisk? && NoStale(ss, es, n)
    ensures es[n].t < |ss[n].pcs| && ss[n].pcs[es[n].t].Freeing? && ss[n].pcs[es[n].t].k < |ss[n].slots|
    ensures var s, k := ss[n], ss[n].pcs[es[n].t].k; var i := s.slots[k].inum;
      && i < |s.nodes| == |s.allocs| == |s.frees| && s.nodes[i].alloc && s.nodes[i].nlink == 0
      && s.frees[i] + 1 == s.allocs[i] && forall u: nat | u < |s.pcs| && u != es[n].t :: !On(s.pcs[u], k)
  {
    RunSafe(ss, es, n);
    var s, t := ss[n], es[n].t;
    assert Next(s, es[n], ss[n + 1]);
    var k := s.pcs[t].k;
    assert HoldsLock(s.pcs[t], k) && Uses(s.pcs[t], k);
    forall u: nat | u < |s.pcs| && u != t ensures !On(s.pcs[u], k) {
      if On(s.pcs[u], k) { Shared(s, t, k, u, k); }
    }
  }

  /** Steps es lead through states ss. */
  ghost predicate Steps(ss: seq<State>, es: seq<Event>) {
    |ss| == |es| + 1 && forall n {:trigger es[n]} | 0 <= n < |es| :: Next(ss[n], es[n], ss[n + 1])
  }

  /** What thread t waits for at its slot: the end of an iput that frees the inode, or nothing. */
  ghost predicate Awaits(s: State, t: nat) {
    && t < |s.pcs| && s.pcs[t].Ref? && At(s, s.pcs[t])
    && var k := s.pcs[t].k;
       !s.nodes[s.slots[k].inum].alloc
       || (s.slots[k].lock.By? && s.slots[k].lock.t < |s.pcs| && s.pcs[s.slots[k].lock.t] == Freeing(k))
  }

  /** How far that iput has come. */
  function Phase(s: State, t: nat): (n: nat)
    requires t < |s.pcs| && s.pcs[t].Ref? && At(s, s.pcs[t])
  {
    var lock := s.slots[s.pcs[t].k].lock;
    if lock.Free? || lock.t >= |s.pcs| then 0
    else if s.pcs[lock.t].Freeing? then 3 else if s.pcs[lock.t].Clearing? then 2 else 1
  }

  /** The next step of that iput. */
  lemma GoesOn(s: State, t: nat) returns (e: Event, r: State)
    requires Inv(s) && Awaits(s, t) && s.slots[s.pcs[t].k].lock.By?
    ensures Next(s, e, r) && Awaits(r, t) && Phase(r, t) < Phase(s, t)
  {
    var k := s.pcs[t].k;
    var w, i := s.slots[k].lock.t, s.slots[k].inum;
    assert HoldsLock(s.pcs[w], k) && Backed(s, k);
    if s.pcs[w] == Freeing(k) {
      e := FreeDisk(w);
      r := Moved(SetNode(s, i, s.nodes[i].(alloc := false, up := None)), w, Clearing(k)).(frees := s.frees[i := s.frees[i] + 1]);
    } else if s.pcs[w] == Clearing(k) {
      e := Clear(w);
      r := Moved(SetSlot(s, k, s.slots[k].(valid := false)), w, Cleared(k));
    } else {
      e := Release(w);
      r := Moved(SetSlot(s, k, s.slots[k].(lock := Free)), w, Leaving(k));
    }
  }

  /** A thread with a reference to an inode that is free or being freed can be brought, by steps of the
      iput that frees it alone, to where its ilock finds no type. */
  lemma {:induction false} Drive(s: State, t: nat) returns (ss: seq<State>, es: seq<Event>)
    requires Inv(s) && Awaits(s, t)
    ensures Steps(ss, es) && ss[0] == s && |es| <= 3 && |es| <= Phase(s, t) && NoType(ss[|es|], t)
    decreases Phase(s, t)
  {
    var k := s.pcs[t].k;
    if s.slots[k].lock.Free? {
      assert Backed(s, k);
      return [s], [];
    }
    var e, r := GoesOn(s, t);
    NextInv(s, e, r);
    var ss', es' := Drive(r, t);
    ss, es := Prepend(s, e, ss', es');
  }

  lemma Prepend(s: State, e: Event, ss: seq<State>, es: seq<Event>) returns (ss': seq<State>, es': seq<Event>)
    requires Steps(ss, es) && Next(s, e, ss[0])
    ensures Steps(ss', es') && ss'[0] == s && |es'| == |es| + 1 && ss'[|es'|] == ss[|es|]
  {
    ss', es' := [s] + ss, [e] + es;
  }

  /** Following ".." to an inode that is free or being freed lets ilock panic within three steps. */
  lemma StalePanics(s: State, e: Event, r: State) returns (ss: seq<State>, es: seq<Event>)
    requires Inv(s) && Next(s, e, r) && e.Dotdot?
    requires var i := UpOf(s, e.u).i; !s.nodes[i].alloc || exists v: nat :: Frees(s, v, i)
    ensures Steps(ss, es) && ss[0] == r && |es| <= 3 && NoType(ss[|es|], e.t)
  {
    var i := UpOf(s, e.u).i;
    NextInv(s, e, r);
    if s.nodes[i].alloc {
      var v: nat :| Frees(s, v, i);
      SlotKept(s, e, r, v, s.pcs[v].k);
      assert HoldsLock(s.pcs[v], s.pcs[v].k);
    }
    ss, es := Drive(r, e.t);
  }
}
