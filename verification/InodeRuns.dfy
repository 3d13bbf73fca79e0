/** Runs of the inode table, step by step: one in which an inode is lost, one in which a ".." that has
    outlived its directory makes ilock panic, and one in which the directory with that ".." has links. */
module InodeRuns {
  import opened InodeTable
  import opened InodeNests
  import opened InodeSafety
  import opened InodeOrphans

  lemma Extend(ss: seq<State>, es: seq<Event>, s: State, e: Event, r: State) returns (ss': seq<State>, es': seq<Event>)
    requires Run(ss, es) && ss[|es|] == s && Next(s, e, r)
    ensures Run(ss', es') && ss'[|es'|] == r
  {
    ss', es' := ss + [r], es + [e];
  }

  lemma Start(s: State) returns (ss: seq<State>, es: seq<Event>)
    requires Init(s)
    ensures Run(ss, es) && ss[|es|] == s
  {
    ss, es := [s], [];
  }

  /** A state with one slot, one inode and two threads. */
  function Scene(alloc: bool, nlink: nat, slot: Slot, a: Pc, b: Pc, allocs: nat, frees: nat): (s: State) {
    State([Ino(alloc, nlink, None)], [slot], [a, b], [allocs], [frees])
  }

  /** Thread 0 takes inode 0. */
  lemma Taken() returns (ss: seq<State>, es: seq<Event>)
    ensures Run(ss, es) && ss[|es|] == Scene(true, 1, Slot(0, 1, false, Free), Ref(0), Idle, 1, 0)
  {
    var s0 := Scene(true, 1, Slot(0, 0, false, Free), Idle, Idle, 1, 0);
    var s1 := Scene(true, 1, Slot(0, 1, false, Free), Ref(0), Idle, 1, 0);
    ss, es := Start(s0);
    ss, es := Extend(ss, es, s0, Iget(0, 0, 0), s1);
  }

  /** It removes the last link. */
  lemma Unlinked() returns (ss: seq<State>, es: seq<Event>)
    ensures Run(ss, es) && ss[|es|] == Scene(true, 0, Slot(0, 1, true, By(0)), Locked(0), Idle, 1, 0)
  {
    ss, es := Taken();
    var s0 := ss[|es|];
    var s1 := Scene(true, 1, Slot(0, 1, true, By(0)), Locked(0), Idle, 1, 0);
    var s2 := Scene(true, 0, Slot(0, 1, true, By(0)), Locked(0), Idle, 1, 0);
    ss, es := Extend(ss, es, s0, Lock(0), s1);
    ss, es := Extend(ss, es, s1, Unlink(0), s2);
  }

  /** It drops inode 0, which frees it on disk. */
  lemma Dropped() returns (ss: seq<State>, es: seq<Event>)
    ensures Run(ss, es) && ss[|es|] == Scene(false, 0, Slot(0, 1, true, By(0)), Clearing(0), Idle, 1, 1)
  {
    ss, es := Unlinked();
    var s0 := ss[|es|];
    var s1 := Scene(true, 0, Slot(0, 1, true, Free), Ref(0), Idle, 1, 0);
    var s2 := Scene(true, 0, Slot(0, 1, true, By(0)), Freeing(0), Idle, 1, 0);
    var s3 := Scene(false, 0, Slot(0, 1, true, By(0)), Clearing(0), Idle, 1, 1);
    ss, es := Extend(ss, es, s0, Unlock(0), s1);
    ss, es := Extend(ss, es, s1, Iput(0), s2);
    ss, es := Extend(ss, es, s2, FreeDisk(0), s3);
  }

  /** It lets go of the slot's lock; before it gives its reference back, thread 1 allocates inode 0 anew. */
  lemma Reclaimed() returns (ss: seq<State>, es: seq<Event>)
    ensures Run(ss, es) && ss[|es|] == Scene(true, 0, Slot(0, 1, false, Free), Leaving(0), Claimed(0), 2, 1)
  {
    ss, es := Dropped();
    var s0 := ss[|es|];
    var s1 := Scene(false, 0, Slot(0, 1, false, By(0)), Cleared(0), Idle, 1, 1);
    var s2 := Scene(false, 0, Slot(0, 1, false, Free), Leaving(0), Idle, 1, 1);
    var s3 := Scene(true, 0, Slot(0, 1, false, Free), Leaving(0), Claimed(0), 2, 1);
    ss, es := Extend(ss, es, s0, Clear(0), s1);
    ss, es := Extend(ss, es, s1, Release(0), s2);
    ss, es := Extend(ss, es, s2, Claim(1, 0), s3);
  }

  /** Thread 1 takes and locks the same slot. */
  lemma Adopted() returns (ss: seq<State>, es: seq<Event>)
    ensures Run(ss, es) && ss[|es|] == Scene(true, 0, Slot(0, 2, true, Free), Leaving(0), Ref(0), 2, 1)
  {
    ss, es := Reclaimed();
    var s0 := ss[|es|];
    var s1 := Scene(true, 0, Slot(0, 2, false, Free), Leaving(0), New(0), 2, 1);
    var s2 := Scene(true, 0, Slot(0, 2, true, By(1)), Leaving(0), Locked(0), 2, 1);
    var s3 := Scene(true, 0, Slot(0, 2, true, Free), Leaving(0), Ref(0), 2, 1);
    ss, es := Extend(ss, es, s0, Adopt(1, 0), s1);
    ss, es := Extend(ss, es, s1, Lock(1), s2);
    ss, es := Extend(ss, es, s2, Unlock(1), s3);
  }

  /** Orphans do happen: thread 1 drops inode 0 without having linked it, and thread 0, giving its
      reference back at last, does not look again. */
  lemma OrphanRun() returns (ss: seq<State>, es: seq<Event>)
    ensures Run(ss, es) && Orphan(ss[|es|], 0) && forall t | 0 <= t < |ss[|es|].pcs| :: ss[|es|].pcs[t].Idle?
  {
    ss, es := Adopted();
    var s0 := ss[|es|];
    var s1 := Scene(true, 0, Slot(0, 1, true, Free), Leaving(0), Idle, 2, 1);
    var s2 := Scene(true, 0, Slot(0, 0, true, Free), Idle, Idle, 2, 1);
    ss, es := Extend(ss, es, s0, Iput(1), s1);
    ss, es := Extend(ss, es, s1, Leave(0), s2);
  }

  /** A run that keeps to the order of create and unlink and has followed no ".." so far, up to state s,
      where the directories in named have their ".." counted. */
  ghost predicate Leads(ss: seq<State>, es: seq<Event>, ns: seq<set<nat>>, s: State, named: set<nat>) {
    Orderly(ss, es, ns) && ss[|es|] == s && ns[|es|] == named && forall n | 0 <= n < |es| :: !es[n].Dotdot?
  }

  lemma Onward(ss: seq<State>, es: seq<Event>, ns: seq<set<nat>>, s: State, named: set<nat>, e: Event, r: State, after: set<nat>)
    returns (ss': seq<State>, es': seq<Event>, ns': seq<set<nat>>)
    requires Leads(ss, es, ns, s, named) && Next(s, e, r) && Careful(s, named, e, after) && !e.Dotdot?
    ensures Leads(ss', es', ns', r, after)
  {
    ss', es', ns' := ss + [r], es + [e], ns + [after];
  }

  /** Directory a is inode 0, with n links; its subdirectory b is inode 1, with m links; inode 2 is free.
      Slot 0 is for b and slot 1 for a; thread 0 is at home in b, threads 1 and 2 remove directories. */
  function House(a: bool, n: nat, m: nat, b: Slot, c: Slot, p: Pc, q: Pc, v: Pc): (s: State) {
    State([Ino(a, n, None), Ino(true, m, Some(0)), Ino(false, 0, None)], [b, c], [p, q, v], [1, 1, 0],
          [if a then 0 else 1, 0, 0])
  }

  /** Nobody is at home yet. */
  lemma Empty() returns (ss: seq<State>, es: seq<Event>, ns: seq<set<nat>>)
    ensures Leads(ss, es, ns, House(true, 2, 1, Slot(0, 0, false, Free), Slot(0, 0, false, Free), Idle, Idle, Idle), {1})
  {
    var s0 := House(true, 2, 1, Slot(0, 0, false, Free), Slot(0, 0, false, Free), Idle, Idle, Idle);
    ss, es, ns := [s0], [], [{1}];
    assert Kids(s0.nodes, {1}, 0) == {1};
  }

  /** Thread 0 makes b its current directory. */
  lemma MovedIn() returns (ss: seq<State>, es: seq<Event>, ns: seq<set<nat>>)
    ensures Leads(ss, es, ns, House(true, 2, 1, Slot(1, 1, false, Free), Slot(0, 0, false, Free), Ref(0), Idle, Idle), {1})
  {
    ss, es, ns := Empty();
    var s0 := ss[|es|];
    var s1 := House(true, 2, 1, Slot(1, 1, false, Free), Slot(0, 0, false, Free), Ref(0), Idle, Idle);
    ss, es, ns := Onward(ss, es, ns, s0, {1}, Iget(0, 1, 0), s1, {1});
  }

  /** Thread 2 has a locked, to remove b from it. */
  lemma AtHome() returns (ss: seq<State>, es: seq<Event>, ns: seq<set<nat>>)
    ensures Leads(ss, es, ns, House(true, 2, 1, Slot(1, 1, false, Free), Slot(0, 1, true, By(2)), Ref(0), Idle, Locked(1)), {1})
  {
    ss, es, ns := MovedIn();
    var s0 := ss[|es|];
    var s1 := House(true, 2, 1, Slot(1, 1, false, Free), Slot(0, 1, false, Free), Ref(0), Idle, Ref(1));
    var s2 := House(true, 2, 1, Slot(1, 1, false, Free), Slot(0, 1, true, By(2)), Ref(0), Idle, Locked(1));
    ss, es, ns := Onward(ss, es, ns, s0, {1}, Iget(2, 0, 1), s1, {1});
    ss, es, ns := Onward(ss, es, ns, s1, {1}, Lock(2), s2, {1});
  }

  /** Thread 1 has b locked. */
  lemma BothLocked() returns (ss: seq<State>, es: seq<Event>, ns: seq<set<nat>>)
    ensures Leads(ss, es, ns, House(true, 2, 1, Slot(1, 2, true, By(1)), Slot(0, 1, true, By(2)), Ref(0), Locked(0), Locked(1)), {1})
  {
    ss, es, ns := AtHome();
    var s0 := ss[|es|];
    var s1 := House(true, 2, 1, Slot(1, 2, false, Free), Slot(0, 1, true, By(2)), Ref(0), Ref(0), Locked(1));
    var s2 := House(true, 2, 1, Slot(1, 2, true, By(1)), Slot(0, 1, true, By(2)), Ref(0), Locked(0), Locked(1));
    ss, es, ns := Onward(ss, es, ns, s0, {1}, Iget(1, 1, 0), s1, {1});
    ss, es, ns := Onward(ss, es, ns, s1, {1}, Lock(1), s2, {1});
  }

  /** And a gives up the link of b's "..". */
  lemma LinkBack() returns (ss: seq<State>, es: seq<Event>, ns: seq<set<nat>>)
    ensures Leads(ss, es, ns, House(true, 1, 1, Slot(1, 2, true, By(1)), Slot(0, 1, true, By(2)), Ref(0), Locked(0), Locked(1)), {})
  {
    ss, es, ns := BothLocked();
    var s0 := ss[|es|];
    var s1 := House(true, 1, 1, Slot(1, 2, true, By(1)), Slot(0, 1, true, By(2)), Ref(0), Locked(0), Locked(1));
    assert Locks(s0, 1, 1) && Within(s0, {1}, 2, 1, 0);
    ss, es, ns := Onward(ss, es, ns, s0, {1}, Unlink(2), s1, {});
  }

  /** Thread 2 lets a go. */
  lemma LetGo() returns (ss: seq<State>, es: seq<Event>, ns: seq<set<nat>>)
    ensures Leads(ss, es, ns, House(true, 1, 1, Slot(1, 2, true, By(1)), Slot(0, 0, true, Free), Ref(0), Locked(0), Idle), {})
  {
    ss, es, ns := LinkBack();
    var s0 := ss[|es|];
    var s1 := House(true, 1, 1, Slot(1, 2, true, By(1)), Slot(0, 1, true, Free), Ref(0), Locked(0), Ref(1));
    var s2 := House(true, 1, 1, Slot(1, 2, true, By(1)), Slot(0, 0, true, Free), Ref(0), Locked(0), Idle);
    ss, es, ns := Onward(ss, es, ns, s0, {}, Unlock(2), s1, {});
    ss, es, ns := Onward(ss, es, ns, s1, {}, Iput(2), s2, {});
  }

  /** And b loses its link. */
  lemma NoName() returns (ss: seq<State>, es: seq<Event>, ns: seq<set<nat>>)
    ensures Leads(ss, es, ns, House(true, 1, 0, Slot(1, 2, true, By(1)), Slot(0, 0, true, Free), Ref(0), Locked(0), Idle), {})
  {
    ss, es, ns := LetGo();
    var s0 := ss[|es|];
    var s1 := House(true, 1, 0, Slot(1, 2, true, By(1)), Slot(0, 0, true, Free), Ref(0), Locked(0), Idle);
    ss, es, ns := Onward(ss, es, ns, s0, {}, Unlink(1), s1, {});
  }

  /** Thread 1 lets b go, which thread 0 still holds. */
  lemma Vacated() returns (ss: seq<State>, es: seq<Event>, ns: seq<set<nat>>)
    ensures Leads(ss, es, ns, House(true, 1, 0, Slot(1, 1, true, Free), Slot(0, 0, true, Free), Ref(0), Idle, Idle), {})
  {
    ss, es, ns := NoName();
    var s0 := ss[|es|];
    var s1 := House(true, 1, 0, Slot(1, 2, true, Free), Slot(0, 0, true, Free), Ref(0), Ref(0), Idle);
    var s2 := House(true, 1, 0, Slot(1, 1, true, Free), Slot(0, 0, true, Free), Ref(0), Idle, Idle);
    ss, es, ns := Onward(ss, es, ns, s0, {}, Unlock(1), s1, {});
    ss, es, ns := Onward(ss, es, ns, s1, {}, Iput(1), s2, {});
  }

  /** It comes for a. */
  lemma Removed() returns (ss: seq<State>, es: seq<Event>, ns: seq<set<nat>>)
    ensures Leads(ss, es, ns, House(true, 1, 0, Slot(1, 1, true, Free), Slot(0, 1, false, Free), Ref(0), Ref(1), Idle), {})
  {
    ss, es, ns := Vacated();
    var s0 := ss[|es|];
    var s1 := House(true, 1, 0, Slot(1, 1, true, Free), Slot(0, 1, false, Free), Ref(0), Ref(1), Idle);
    ss, es, ns := Onward(ss, es, ns, s0, {}, Iget(1, 0, 1), s1, {});
  }

  /** It removes a, which has no other name and is empty by now. */
  lemma Emptied() returns (ss: seq<State>, es: seq<Event>, ns: seq<set<nat>>)
    ensures Leads(ss, es, ns, House(true, 0, 0, Slot(1, 1, true, Free), Slot(0, 1, true, By(1)), Ref(0), Locked(1), Idle), {})
  {
    ss, es, ns := Removed();
    var s0 := ss[|es|];
    var s1 := House(true, 1, 0, Slot(1, 1, true, Free), Slot(0, 1, true, By(1)), Ref(0), Locked(1), Idle);
    var s2 := House(true, 0, 0, Slot(1, 1, true, Free), Slot(0, 1, true, By(1)), Ref(0), Locked(1), Idle);
    ss, es, ns := Onward(ss, es, ns, s0, {}, Lock(1), s1, {});
    ss, es, ns := Onward(ss, es, ns, s1, {}, Unlink(1), s2, {});
  }

  lemma ParentGone() returns (ss: seq<State>, es: seq<Event>, ns: seq<set<nat>>)
    ensures Leads(ss, es, ns, House(true, 0, 0, Slot(1, 1, true, Free), Slot(0, 1, true, Free), Ref(0), Ref(1), Idle), {})
  {
    ss, es, ns := Emptied();
    var s1 := House(true, 0, 0, Slot(1, 1, true, Free), Slot(0, 1, true, Free), Ref(0), Ref(1), Idle);
    ss, es, ns := Onward(ss, es, ns, ss[|es|], {}, Unlock(1), s1, {});
  }

  /** Its iput finds a unlinked and unused. */
  lemma ParentDropped() returns (ss: seq<State>, es: seq<Event>, ns: seq<set<nat>>)
    ensures Leads(ss, es, ns, House(true, 0, 0, Slot(1, 1, true, Free), Slot(0, 1, true, By(1)), Ref(0), Freeing(1), Idle), {})
  {
    ss, es, ns := ParentGone();
    var s0 := ss[|es|];
    var s1 := House(true, 0, 0, Slot(1, 1, true, Free), Slot(0, 1, true, By(1)), Ref(0), Freeing(1), Idle);
    ss, es, ns := Onward(ss, es, ns, s0, {}, Iput(1), s1, {});
  }

  /** And frees it on disk. */
  lemma ParentFreed() returns (ss: seq<State>, es: seq<Event>, ns: seq<set<nat>>)
    ensures Leads(ss, es, ns, House(false, 0, 0, Slot(1, 1, true, Free), Slot(0, 1, false, By(1)), Ref(0), Cleared(1), Idle), {})
  {
    ss, es, ns := ParentDropped();
    var s0 := ss[|es|];
    var s1 := House(false, 0, 0, Slot(1, 1, true, Free), Slot(0, 1, true, By(1)), Ref(0), Clearing(1), Idle);
    var s2 := House(false, 0, 0, Slot(1, 1, true, Free), Slot(0, 1, false, By(1)), Ref(0), Cleared(1), Idle);
    ss, es, ns := Onward(ss, es, ns, s0, {}, FreeDisk(1), s1, {});
    ss, es, ns := Onward(ss, es, ns, s1, {}, Clear(1), s2, {});
  }

  /** Thread 1 gives its reference to a back. */
  lemma Left() returns (ss: seq<State>, es: seq<Event>, ns: seq<set<nat>>)
    ensures Leads(ss, es, ns, House(false, 0, 0, Slot(1, 1, true, Free), Slot(0, 0, false, Free), Ref(0), Idle, Idle), {})
  {
    ss, es, ns := ParentFreed();
    var s0 := ss[|es|];
    var s1 := House(false, 0, 0, Slot(1, 1, true, Free), Slot(0, 1, false, Free), Ref(0), Leaving(1), Idle);
    var s2 := House(false, 0, 0, Slot(1, 1, true, Free), Slot(0, 0, false, Free), Ref(0), Idle, Idle);
    ss, es, ns := Onward(ss, es, ns, s0, {}, Release(1), s1, {});
    ss, es, ns := Onward(ss, es, ns, s1, {}, Leave(1), s2, {});
  }

  /** Thread 0, still at home in b, locks it. */
  lemma StillHome() returns (ss: seq<State>, es: seq<Event>, ns: seq<set<nat>>)
    ensures Leads(ss, es, ns, House(false, 0, 0, Slot(1, 1, true, By(0)), Slot(0, 0, false, Free), Locked(0), Idle, Idle), {})
  {
    ss, es, ns := Left();
    var s0 := ss[|es|];
    var s1 := House(false, 0, 0, Slot(1, 1, true, By(0)), Slot(0, 0, false, Free), Locked(0), Idle, Idle);
    ss, es, ns := Onward(ss, es, ns, s0, {}, Lock(0), s1, {});
  }

  /** The last step of a run follows a ".." that has become stale, in directory d, and no step before does. */
  ghost predicate EndsStale(ss: seq<State>, es: seq<Event>, ns: seq<set<nat>>, d: nat) {
    && Orderly(ss, es, ns) && |es| > 0 && NoStale(ss, es, |es| - 1)
    && es[|es| - 1].Dotdot? && Stale(ss[|es| - 1], es[|es| - 1]) && Locks(ss[|es| - 1], es[|es| - 1].u, d)
  }

  lemma FollowUp(ss: seq<State>, es: seq<Event>, ns: seq<set<nat>>, s: State, named: set<nat>, e: Event, r: State, d: nat)
    returns (ss': seq<State>, es': seq<Event>, ns': seq<set<nat>>)
    requires Leads(ss, es, ns, s, named) && Next(s, e, r) && Careful(s, named, e, named) && Stale(s, e) && Locks(s, e.u, d)
    ensures EndsStale(ss', es', ns', d) && ss'[|es'| - 1] == s && es'[|es'| - 1] == e && ss'[|es'|] == r
  {
    ss', es', ns' := ss + [r], es + [e], ns + [named];
  }

  /** Stale entries do happen: the ".." of b still names a, iget takes a slot for it, and ilock finds no type. */
  lemma PanicRun() returns (ss: seq<State>, es: seq<Event>, ns: seq<set<nat>>)
    ensures EndsStale(ss, es, ns, 1) && ss[|es| - 1].nodes[1].nlink == 0 && NoType(ss[|es|], 2)
  {
    ss, es, ns := StillHome();
    var s0 := ss[|es|];
    var s1 := House(false, 0, 0, Slot(1, 1, true, By(0)), Slot(0, 1, false, Free), Locked(0), Idle, Ref(1));
    ss, es, ns := FollowUp(ss, es, ns, s0, {}, Dotdot(2, 0, 1), s1, 1);
  }

  /** The house after a is gone, with thread 0 at home in b, which has m links; x is inode 2, allocated n
      times so far. */
  function Attic(m: nat, x: Ino, c: Slot, q: Pc, v: Pc, n: nat): (s: State) {
    State([Ino(false, 0, None), Ino(true, m, Some(0)), x], [Slot(1, 1, true, By(0)), c], [Locked(0), q, v], [1, 1, n], [1, 0, 0])
  }

  /** Thread 1 allocates inode x. */
  lemma Bought() returns (ss: seq<State>, es: seq<Event>, ns: seq<set<nat>>)
    ensures Leads(ss, es, ns, Attic(0, Ino(true, 0, None), Slot(2, 1, false, Free), New(1), Idle, 1), {})
  {
    ss, es, ns := StillHome();
    var s0 := ss[|es|];
    var s1 := Attic(0, Ino(true, 0, None), Slot(0, 0, false, Free), Claimed(2), Idle, 1);
    var s2 := Attic(0, Ino(true, 0, None), Slot(2, 1, false, Free), New(1), Idle, 1);
    ss, es, ns := Onward(ss, es, ns, s0, {}, Claim(1, 2), s1, {});
    ss, es, ns := Onward(ss, es, ns, s1, {}, Adopt(1, 1), s2, {});
  }

  /** And locks it. */
  lemma Furnished() returns (ss: seq<State>, es: seq<Event>, ns: seq<set<nat>>)
    ensures Leads(ss, es, ns, Attic(0, Ino(true, 0, None), Slot(2, 1, true, By(1)), Locked(1), Idle, 1), {})
  {
    ss, es, ns := Bought();
    var s0 := ss[|es|];
    var s1 := Attic(0, Ino(true, 0, None), Slot(2, 1, true, By(1)), Locked(1), Idle, 1);
    ss, es, ns := Onward(ss, es, ns, s0, {}, Lock(1), s1, {});
  }

  /** Its ".." names b. */
  lemma Framed() returns (ss: seq<State>, es: seq<Event>, ns: seq<set<nat>>)
    ensures Leads(ss, es, ns, Attic(0, Ino(true, 1, Some(1)), Slot(2, 1, true, By(1)), Locked(1), Idle, 1), {})
  {
    ss, es, ns := Furnished();
    var s0 := ss[|es|];
    var s1 := Attic(0, Ino(true, 1, None), Slot(2, 1, true, By(1)), Locked(1), Idle, 1);
    var s2 := Attic(0, Ino(true, 1, Some(1)), Slot(2, 1, true, By(1)), Locked(1), Idle, 1);
    ss, es, ns := Onward(ss, es, ns, s0, {}, Link(1), s1, {});
    ss, es, ns := Onward(ss, es, ns, s1, {}, Nest(1, 0), s2, {});
  }

  /** Which is counted in b. create does not ask whether b has a name. */
  lemma Extended() returns (ss: seq<State>, es: seq<Event>, ns: seq<set<nat>>)
    ensures Leads(ss, es, ns, Attic(1, Ino(true, 1, Some(1)), Slot(2, 1, true, By(1)), Locked(1), Idle, 1), {2})
  {
    ss, es, ns := Framed();
    var s0 := ss[|es|];
    var s1 := Attic(1, Ino(true, 1, Some(1)), Slot(2, 1, true, By(1)), Locked(1), Idle, 1);
    assert Locks(s0, 1, 2) && Within(s0, {}, 0, 2, 1);
    ss, es, ns := Onward(ss, es, ns, s0, {}, Link(0), s1, {2});
  }

  /** It lets x go. */
  lemma Settles() returns (ss: seq<State>, es: seq<Event>, ns: seq<set<nat>>)
    ensures Leads(ss, es, ns, Attic(1, Ino(true, 1, Some(1)), Slot(2, 0, true, Free), Idle, Idle, 1), {2})
  {
    ss, es, ns := Extended();
    var s0 := ss[|es|];
    var s1 := Attic(1, Ino(true, 1, Some(1)), Slot(2, 1, true, Free), Ref(1), Idle, 1);
    var s2 := Attic(1, Ino(true, 1, Some(1)), Slot(2, 0, true, Free), Idle, Idle, 1);
    ss, es, ns := Onward(ss, es, ns, s0, {2}, Unlock(1), s1, {2});
    ss, es, ns := Onward(ss, es, ns, s1, {2}, Iput(1), s2, {2});
  }

  /** A stale ".." can lie in a directory with links: b has x now, and its ".." still names a. */
  lemma LinkedStaleRun() returns (ss: seq<State>, es: seq<Event>, ns: seq<set<nat>>)
    ensures EndsStale(ss, es, ns, 1) && ss[|es| - 1].nodes[1].nlink == 1 && NoType(ss[|es|], 2)
  {
    ss, es, ns := Settles();
    var s0 := ss[|es|];
    var s1 := Attic(1, Ino(true, 1, Some(1)), Slot(0, 1, false, Free), Idle, Ref(1), 1);
    assert Kids(s0.nodes, {2}, 1) == {2};
    ss, es, ns := FollowUp(ss, es, ns, s0, {2}, Dotdot(2, 0, 1), s1, 1);
  }
}
