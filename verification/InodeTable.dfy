/** The in-memory inode table as a state machine: any number of threads take, lock, drop and free
    inodes in any interleaving, with the window in iput where the table lock is let go. Here are the
    steps and what every run keeps. */
module InodeTable {
  import opened Counting

  /** The number a directory's ".." entry holds, if it has one. */
  datatype Parent = None | Some(i: nat)

  /** An inode on disk: allocated or not (type 0), its link count, and its ".." entry. */
  datatype Ino = Ino(alloc: bool, nlink: nat, up: Parent)

  datatype Owner = Free | By(t: nat)

  /** A slot of the table, with the owner of its sleep lock. */
  datatype Slot = Slot(inum: nat, ref: nat, valid: bool, lock: Owner)

  /** What a thread does with its one reference. Claimed: ialloc marked inode i, iget comes next.
      New: that iget is done, the inode is to be locked. Freeing to Leaving: inside iput, after it let
      the table lock go, before the disk inode is freed, before valid is cleared, before the sleep lock
      is released, and before the table lock is taken again. */
  datatype Pc =
    | Idle
    | Claimed(i: nat)
    | New(k: nat)
    | Ref(k: nat)
    | Locked(k: nat)
    | Freeing(k: nat)
    | Clearing(k: nat)
    | Cleared(k: nat)
    | Leaving(k: nat)

  /** allocs and frees count, for each inode, how often it was allocated and freed. */
  datatype State = State(nodes: seq<Ino>, slots: seq<Slot>, pcs: seq<Pc>, allocs: seq<nat>, frees: seq<nat>)

  predicate On(pc: Pc, k: nat) {
    !pc.Idle? && !pc.Claimed? && pc.k == k
  }

  /** Holders that still rely on the inode behind slot k. */
  predicate Uses(pc: Pc, k: nat) {
    (pc.New? || pc.Ref? || pc.Locked? || pc.Freeing?) && pc.k == k
  }

  predicate HoldsLock(pc: Pc, k: nat) {
    (pc.Locked? || pc.Freeing? || pc.Clearing? || pc.Cleared?) && pc.k == k
  }

  /** The threads on slot k. */
  function Users(k: nat): (on: Pc -> bool) {
    pc => On(pc, k)
  }

  datatype Event =
    | Iget(t: nat, i: nat, k: nat)
    | Dotdot(t: nat, u: nat, k: nat)
    | Idup(t: nat, u: nat)
    | Claim(t: nat, i: nat)
    | Adopt(t: nat, k: nat)
    | Lock(t: nat)
    | Link(t: nat)
    | Unlink(t: nat)
    | Nest(t: nat, u: nat)
    | Unlock(t: nat)
    | Iput(t: nat)
    | FreeDisk(t: nat)
    | Clear(t: nat)
    | Release(t: nat)
    | Leave(t: nat)

  /** iget under the table lock: the slot in use for inode i gets one more reference, or, when there
      is none, an empty slot is filled. */
  ghost predicate Gets(slots: seq<Slot>, i: nat, k: nat, r: seq<Slot>) {
    && k < |slots|
    && if slots[k].ref > 0
       then slots[k].inum == i && r == slots[k := slots[k].(ref := slots[k].ref + 1)]
       else (forall j | 0 <= j < |slots| && slots[j].ref > 0 :: slots[j].inum != i)
            && r == slots[k := slots[k].(inum := i, ref := 1, valid := false)]
  }

  /** The test at the head of iput: last reference, in memory, no links. */
  predicate Doomed(s: State, k: nat) {
    k < |s.slots| && s.slots[k].ref == 1 && s.slots[k].valid && s.slots[k].inum < |s.nodes| && s.nodes[s.slots[k].inum].nlink == 0
  }

  function Drop(s: Slot): (r: Slot)
    requires s.ref > 0
  {
    s.(ref := s.ref - 1)
  }

  /** The slot a thread works on, and the inode behind it. */
  predicate At(s: State, pc: Pc) {
    !pc.Idle? && !pc.Claimed? && pc.k < |s.slots| && s.slots[pc.k].inum < |s.nodes| && s.slots[pc.k].ref > 0
  }

  /** The inode number behind the slot a thread works on. */
  function Inum(s: State, pc: Pc): (i: nat)
    requires At(s, pc)
    ensures i < |s.nodes|
  {
    s.slots[pc.k].inum
  }

  /** What the ".." entry of the directory that thread u has locked says. */
  function UpOf(s: State, u: nat): (p: Parent) {
    if u < |s.pcs| && s.pcs[u].Locked? && At(s, s.pcs[u]) then s.nodes[Inum(s, s.pcs[u])].up else None
  }

  function Moved(s: State, t: nat, pc: Pc): (r: State)
    requires t < |s.pcs|
  {
    s.(pcs := s.pcs[t := pc])
  }

  function SetSlot(s: State, k: nat, x: Slot): (r: State)
    requires k < |s.slots|
  {
    s.(slots := s.slots[k := x])
  }

  function SetNode(s: State, i: nat, x: Ino): (r: State)
    requires i < |s.nodes|
  {
    s.(nodes := s.nodes[i := x])
  }

  /** One step of one thread.
      Iget follows an ordinary name: the entry is read under its directory's lock, it was made after
      the link was counted and is cleared before the link is given back, so the inode has a link.
      "." is the directory that is locked, so it is Idup. Dotdot follows "..", whatever has become of
      the inode it names: unlink takes its link away and leaves the entry. Nest writes that entry.
      Lock stops the machine instead when it loads an inode that has no type. */
  ghost predicate Next(s: State, e: Event, r: State) {
    && e.t < |s.pcs| && |s.allocs| == |s.frees| == |s.nodes|
    && var pc := s.pcs[e.t];
       match e
       case Iget(t, i, k) =>
         && pc.Idle? && i < |s.nodes| && s.nodes[i].alloc && s.nodes[i].nlink > 0
         && Gets(s.slots, i, k, r.slots) && r == Moved(s, t, Ref(k)).(slots := r.slots)
       case Dotdot(t, u, k) =>
         && pc.Idle? && UpOf(s, u).Some? && UpOf(s, u).i < |s.nodes|
         && Gets(s.slots, UpOf(s, u).i, k, r.slots) && r == Moved(s, t, Ref(k)).(slots := r.slots)
       case Idup(t, u) =>
         && pc.Idle? && u < |s.pcs| && (s.pcs[u].Ref? || s.pcs[u].Locked?) && At(s, s.pcs[u])
         && var k := s.pcs[u].k; r == Moved(SetSlot(s, k, s.slots[k].(ref := s.slots[k].ref + 1)), t, Ref(k))
       case Claim(t, i) =>
         && pc.Idle? && i < |s.nodes| && !s.nodes[i].alloc
         && r == Moved(SetNode(s, i, Ino(true, 0, None)), t, Claimed(i)).(allocs := s.allocs[i := s.allocs[i] + 1])
       case Adopt(t, k) =>
         pc.Claimed? && Gets(s.slots, pc.i, k, r.slots) && r == Moved(s, t, New(k)).(slots := r.slots)
       case Lock(t) =>
         && (pc.New? || pc.Ref?) && At(s, pc) && s.slots[pc.k].lock.Free?
         && (s.slots[pc.k].valid || s.nodes[Inum(s, pc)].alloc)
         && r == Moved(SetSlot(s, pc.k, s.slots[pc.k].(lock := By(t), valid := true)), t, Locked(pc.k))
       case Link(t) =>
         && pc.Locked? && At(s, pc)
         && var i := Inum(s, pc); r == SetNode(s, i, s.nodes[i].(nlink := s.nodes[i].nlink + 1))
       case Unlink(t) =>
         && pc.Locked? && At(s, pc)
         && var i := Inum(s, pc); s.nodes[i].nlink > 0 && r == SetNode(s, i, s.nodes[i].(nlink := s.nodes[i].nlink - 1))
       case Nest(t, u) =>
         && pc.Locked? && At(s, pc) && u < |s.pcs| && s.pcs[u].Locked? && At(s, s.pcs[u])
         && var i := Inum(s, pc); r == SetNode(s, i, s.nodes[i].(up := Some(Inum(s, s.pcs[u]))))
       case Unlock(t) =>
         pc.Locked? && At(s, pc) && r == Moved(SetSlot(s, pc.k, s.slots[pc.k].(lock := Free)), t, Ref(pc.k))
       case Iput(t) =>
         && pc.Ref? && At(s, pc)
         && if Doomed(s, pc.k)
            then s.slots[pc.k].lock.Free? && r == Moved(SetSlot(s, pc.k, s.slots[pc.k].(lock := By(t))), t, Freeing(pc.k))
            else r == Moved(SetSlot(s, pc.k, Drop(s.slots[pc.k])), t, Idle)
       case FreeDisk(t) =>
         && pc.Freeing? && At(s, pc)
         && var i := Inum(s, pc);
            r == Moved(SetNode(s, i, s.nodes[i].(alloc := false, up := None)), t, Clearing(pc.k)).(frees := s.frees[i := s.frees[i] + 1])
       case Clear(t) =>
         pc.Clearing? && At(s, pc) && r == Moved(SetSlot(s, pc.k, s.slots[pc.k].(valid := false)), t, Cleared(pc.k))
       case Release(t) =>
         pc.Cleared? && At(s, pc) && r == Moved(SetSlot(s, pc.k, s.slots[pc.k].(lock := Free)), t, Leaving(pc.k))
       case Leave(t) =>
         pc.Leaving? && At(s, pc) && r == Moved(SetSlot(s, pc.k, Drop(s.slots[pc.k])), t, Idle)
  }

  /** An empty table over disk inodes that are linked exactly when they are allocated. */
  ghost predicate Init(s: State) {
    && |s.allocs| == |s.frees| == |s.nodes|
    && (forall i | 0 <= i < |s.nodes| :: (s.nodes[i].alloc <==> s.nodes[i].nlink > 0) && s.frees[i] == 0)
    && (forall i | 0 <= i < |s.nodes| :: s.allocs[i] == if s.nodes[i].alloc then 1 else 0)
    && (forall k | 0 <= k < |s.slots| :: s.slots[k].ref == 0 && s.slots[k].lock.Free?)
    && forall t | 0 <= t < |s.pcs| :: s.pcs[t].Idle?
  }

  /** ref is the number of outstanding handles. */
  ghost predicate Counted(s: State) {
    && (forall t: nat {:trigger s.pcs[t]} | t < |s.pcs| && !s.pcs[t].Idle? && !s.pcs[t].Claimed? :: s.pcs[t].k < |s.slots|)
    && forall k: nat {:trigger s.slots[k]} | k < |s.slots| :: s.slots[k].ref == Count(s.pcs, Users(k))
  }

  /** At most one slot in use stands for an inode. */
  ghost predicate Unique(slots: seq<Slot>) {
    forall j, k | 0 <= j < k < |slots| && slots[j].ref > 0 && slots[k].ref > 0 :: slots[j].inum != slots[k].inum
  }

  /** A sleep lock is held by the thread that stands in its critical section, and by no other. */
  ghost predicate LockOk(s: State) {
    && (forall t: nat, k: nat {:trigger HoldsLock(s.pcs[t], k)} | t < |s.pcs| && HoldsLock(s.pcs[t], k) ::
          k < |s.slots| && s.slots[k].lock == By(t))
    && forall k: nat {:trigger s.slots[k]} | k < |s.slots| && s.slots[k].lock.By? ::
         s.slots[k].lock.t < |s.pcs| && HoldsLock(s.pcs[s.slots[k].lock.t], k)
  }

  /** Slots in use and claims name inodes of the disk. */
  ghost predicate InRange(s: State) {
    && (forall k: nat {:trigger s.slots[k]} | k < |s.slots| && s.slots[k].ref > 0 :: s.slots[k].inum < |s.nodes|)
    && forall t: nat {:trigger s.pcs[t]} | t < |s.pcs| && s.pcs[t].Claimed? :: s.pcs[t].i < |s.nodes|
  }

  /** An iput has freed the inode behind slot k and is about to clear its valid flag. */
  predicate BeingCleared(s: State, k: nat) {
    k < |s.slots| && s.slots[k].lock.By? && s.slots[k].lock.t < |s.pcs| && s.pcs[s.slots[k].lock.t] == Clearing(k)
  }

  /** The inode in memory behind slot k is one that is allocated, but for the moment in which iput has
      freed it and not yet cleared the flag. */
  ghost predicate Backed(s: State, k: nat) {
    k < |s.slots| && s.slots[k].ref > 0 && s.slots[k].valid && s.slots[k].inum < |s.nodes| && !BeingCleared(s, k) ==>
      s.nodes[s.slots[k].inum].alloc
  }

  ghost predicate ValidOk(s: State) {
    && (forall t: nat, k: nat {:trigger HoldsLock(s.pcs[t], k)} | t < |s.pcs| && k < |s.slots| ::
          s.pcs[t] == Locked(k) || s.pcs[t] == Freeing(k) ==> s.slots[k].valid)
    && forall k: nat {:trigger Backed(s, k)} :: Backed(s, k)
  }

  /** Each allocation is freed at most once. */
  ghost predicate Balanced(s: State) {
    && |s.allocs| == |s.frees| == |s.nodes|
    && forall i: nat {:trigger s.nodes[i]} | i < |s.nodes| :: s.frees[i] + (if s.nodes[i].alloc then 1 else 0) == s.allocs[i]
  }

  /** What every step keeps. */
  ghost predicate Inv(s: State) {
    Counted(s) && Unique(s.slots) && LockOk(s) && InRange(s) && ValidOk(s) && Balanced(s)
  }

  lemma InitInv(s: State)
    requires Init(s)
    ensures Inv(s)
  {
    forall k: nat | k < |s.slots| ensures s.slots[k].ref == Count(s.pcs, Users(k)) {
      CountNone(s.pcs, Users(k));
    }
  }

  lemma NextCounted(s: State, e: Event, r: State)
    requires Counted(s) && Next(s, e, r)
    ensures Counted(r)
  {
    forall k: nat | k < |r.slots| ensures r.slots[k].ref == Count(r.pcs, Users(k)) {
      CountedAt(s, e, r, k);
    }
  }

  lemma CountedAt(s: State, e: Event, r: State, k: nat)
    requires Counted(s) && Next(s, e, r) && k < |r.slots|
    ensures r.slots[k].ref == Count(r.pcs, Users(k))
  {
    CountUpdate(s.pcs, e.t, r.pcs[e.t], Users(k));
    assert s.slots[k].ref == Count(s.pcs, Users(k));
  }

  lemma NextUnique(s: State, e: Event, r: State)
    requires Unique(s.slots) && Next(s, e, r)
    ensures Unique(r.slots)
  {
  }

  /** How a step by thread t moves the sleep locks: not at all, or it takes or gives back that of k. */
  ghost predicate LockMove(s: State, t: nat, r: State, k: int) {
    && t < |s.pcs| == |r.pcs| && |r.slots| == |s.slots| && -1 <= k < |s.slots| && r.pcs == s.pcs[t := r.pcs[t]]
    && (forall j: nat {:trigger r.slots[j]} | j < |r.slots| && j != k :: r.slots[j].lock == s.slots[j].lock)
    && (forall j: nat {:trigger HoldsLock(r.pcs[t], j)} | j != k :: HoldsLock(r.pcs[t], j) == HoldsLock(s.pcs[t], j))
    && (k >= 0 ==> (s.slots[k].lock.Free? && r.slots[k].lock == By(t) && HoldsLock(r.pcs[t], k))
                   || (HoldsLock(s.pcs[t], k) && r.slots[k].lock.Free? && !HoldsLock(r.pcs[t], k)))
  }

  lemma LockEffect(s: State, e: Event, r: State) returns (k: int)
    requires Next(s, e, r)
    ensures LockMove(s, e.t, r, k)
  {
    k := -1;
    if MovesLock(s, e) {
      k := s.pcs[e.t].k;
      LocksOne(s, e, r);
    } else {
      LocksNone(s, e, r);
    }
  }

  predicate MovesLock(s: State, e: Event) {
    e.Lock? || e.Unlock? || e.Release? || (e.Iput? && e.t < |s.pcs| && s.pcs[e.t].Ref? && Doomed(s, s.pcs[e.t].k))
  }

  lemma LocksOne(s: State, e: Event, r: State)
    requires Next(s, e, r) && MovesLock(s, e)
    ensures LockMove(s, e.t, r, s.pcs[e.t].k)
  {
  }

  lemma LocksNone(s: State, e: Event, r: State)
    requires Next(s, e, r) && !MovesLock(s, e)
    ensures LockMove(s, e.t, r, -1)
  {
  }

  lemma NextLockOk(s: State, t: nat, r: State, k: int)
    requires LockOk(s) && LockMove(s, t, r, k)
    ensures LockOk(r)
  {
    forall u: nat, j: nat | u < |r.pcs| && HoldsLock(r.pcs[u], j) ensures j < |r.slots| && r.slots[j].lock == By(u) {
      assert HoldsLock(s.pcs[t], j) ==> s.slots[j].lock == By(t);
      assert u != t ==> HoldsLock(s.pcs[u], j);
    }
    forall j: nat | j < |r.slots| && r.slots[j].lock.By?
      ensures r.slots[j].lock.t < |r.pcs| && HoldsLock(r.pcs[r.slots[j].lock.t], j)
    {
      if s.slots[j].lock.By? {
        var u := s.slots[j].lock.t;
        assert HoldsLock(s.pcs[u], j);
        assert u == t && j != k ==> HoldsLock(r.pcs[t], j);
      }
    }
  }

  lemma NextInRange(s: State, e: Event, r: State)
    requires InRange(s) && Next(s, e, r)
    ensures InRange(r)
  {
    forall k: nat | k < |r.slots| && r.slots[k].ref > 0 ensures r.slots[k].inum < |r.nodes| {
      assert s.slots[k].ref > 0 ==> s.slots[k].inum < |s.nodes|;
    }
    assert r.pcs == s.pcs[e.t := r.pcs[e.t]];
  }

  /** A slot someone is on is in use and keeps its inode. */
  lemma SlotKept(s: State, e: Event, r: State, u: nat, k: nat)
    requires Counted(s) && Next(s, e, r) && u < |s.pcs| && On(s.pcs[u], k)
    ensures k < |s.slots| == |r.slots| && s.slots[k].ref > 0 && r.slots[k].inum == s.slots[k].inum
  {
    CountOn(s.pcs, u, Users(k));
    assert s.slots[k].ref == Count(s.pcs, Users(k));
  }

  /** Two threads on slots of the same inode are on one slot, which counts them both. */
  lemma Shared(s: State, t: nat, j: nat, u: nat, k: nat)
    requires Counted(s) && Unique(s.slots) && t < |s.pcs| && u < |s.pcs| && t != u && On(s.pcs[t], j) && On(s.pcs[u], k)
    ensures j < |s.slots| && k < |s.slots| && s.slots[j].ref > 0 && s.slots[k].ref > 0
    ensures s.slots[j].inum == s.slots[k].inum ==> j == k && s.slots[k].ref >= 2
  {
    CountOn(s.pcs, t, Users(j));
    CountOn(s.pcs, u, Users(k));
    assert s.slots[j].ref == Count(s.pcs, Users(j)) && s.slots[k].ref == Count(s.pcs, Users(k));
    if j == k {
      if t < u { CountTwo(s.pcs, t, u, Users(k)); } else { CountTwo(s.pcs, u, t, Users(k)); }
    }
  }

  /** A slot whose lock another thread holds keeps its valid flag. */
  lemma FlagKept(s: State, e: Event, r: State, u: nat, k: nat)
    requires Counted(s) && LockOk(s) && Next(s, e, r) && u < |s.pcs| && u != e.t && HoldsLock(s.pcs[u], k)
    ensures k < |s.slots| == |r.slots| && r.slots[k].valid == s.slots[k].valid
  {
    SlotKept(s, e, r, u, k);
    assert !HoldsLock(s.pcs[e.t], k);
  }

  /** Threads in the critical section of a slot keep it in memory. */
  lemma StillValid(s: State, e: Event, r: State, u: nat, k: nat)
    requires Counted(s) && LockOk(s) && ValidOk(s) && Next(s, e, r) && u < |r.pcs| && k < |r.slots|
    requires r.pcs[u] == Locked(k) || r.pcs[u] == Freeing(k)
    ensures r.slots[k].valid
  {
    if u != e.t {
      assert HoldsLock(s.pcs[u], k);
      FlagKept(s, e, r, u, k);
    } else {
      assert HoldsLock(s.pcs[u], k) || e.Lock? || e.Iput?;
    }
  }

  lemma FreedBacked(s: State, e: Event, r: State, k: nat)
    requires Unique(s.slots) && LockOk(s) && ValidOk(s) && Next(s, e, r) && e.FreeDisk?
    ensures Backed(r, k)
  {
    var j := s.pcs[e.t].k;
    assert HoldsLock(s.pcs[e.t], j);
    assert Backed(s, k);
    assert r.slots == s.slots && r.pcs[e.t] == Clearing(j);
    if k < |s.slots| && k != j && s.slots[k].lock.By? && s.slots[k].lock.t != e.t {
      assert r.pcs[s.slots[k].lock.t] == s.pcs[s.slots[k].lock.t];
    }
  }

  /** Clearing a flag goes on until it is cleared. */
  lemma ClearingGoesOn(s: State, e: Event, r: State, k: nat)
    requires LockOk(s) && Next(s, e, r) && BeingCleared(s, k)
    ensures BeingCleared(r, k) || !r.slots[k].valid
  {
    assert HoldsLock(s.pcs[e.t], k) ==> s.slots[k].lock == By(e.t);
  }

  lemma StillBacked(s: State, e: Event, r: State, k: nat)
    requires LockOk(s) && InRange(s) && ValidOk(s) && Next(s, e, r) && !e.FreeDisk? && !BeingCleared(s, k)
    ensures Backed(r, k)
  {
    assert Backed(s, k);
  }

  lemma NextValidOk(s: State, e: Event, r: State)
    requires Counted(s) && Unique(s.slots) && LockOk(s) && InRange(s) && ValidOk(s) && Next(s, e, r)
    ensures ValidOk(r)
  {
    forall u: nat, k: nat | u < |r.pcs| && k < |r.slots|
      ensures r.pcs[u] == Locked(k) || r.pcs[u] == Freeing(k) ==> r.slots[k].valid
    {
      if r.pcs[u] == Locked(k) || r.pcs[u] == Freeing(k) { StillValid(s, e, r, u, k); }
    }
    forall k: nat ensures Backed(r, k) {
      if e.FreeDisk? {
        FreedBacked(s, e, r, k);
      } else if BeingCleared(s, k) {
        ClearingGoesOn(s, e, r, k);
      } else {
        StillBacked(s, e, r, k);
      }
    }
  }

  lemma NextBalanced(s: State, e: Event, r: State)
    requires Balanced(s) && LockOk(s) && ValidOk(s) && Next(s, e, r)
    ensures Balanced(r)
  {
    if e.FreeDisk? {
      var k := s.pcs[e.t].k;
      assert HoldsLock(s.pcs[e.t], k) && Backed(s, k);
    }
  }

  lemma NextInv(s: State, e: Event, r: State)
    requires Inv(s) && Next(s, e, r)
    ensures Inv(r)
  {
    NextCounted(s, e, r);
    NextUnique(s, e, r);
    var k := LockEffect(s, e, r);
    NextLockOk(s, e.t, r, k);
    NextInRange(s, e, r);
    NextValidOk(s, e, r);
    NextBalanced(s, e, r);
  }

  /** A run: states ss, and the steps es between them. */
  ghost predicate Run(ss: seq<State>, es: seq<Event>) {
    |ss| == |es| + 1 && Init(ss[0]) && forall n {:trigger es[n]} | 0 <= n < |es| :: Next(ss[n], es[n], ss[n + 1])
  }

  /** Every state of every interleaving: one slot per inode in use, ref equal to the outstanding
      handles, locks exclusive, each allocation freed at most once. */
  lemma {:induction false} RunInv(ss: seq<State>, es: seq<Event>, n: nat)
    requires Run(ss, es) && n < |ss|
    ensures Inv(ss[n])
  {
    if n == 0 {
      InitInv(ss[0]);
    } else {
      RunInv(ss, es, n - 1);
      assert Next(ss[n - 1], es[n - 1], ss[n]);
      NextInv(ss[n - 1], es[n - 1], ss[n]);
    }
  }

  /** iput's acquiresleep never blocks: when it holds the last reference, the lock is free. */
  lemma NeverBlocks(ss: seq<State>, es: seq<Event>, n: nat, t: nat)
    requires Run(ss, es) && n < |ss| && t < |ss[n].pcs| && ss[n].pcs[t].Ref? && Doomed(ss[n], ss[n].pcs[t].k)
    ensures ss[n].slots[ss[n].pcs[t].k].lock.Free?
  {
    RunInv(ss, es, n);
    var s := ss[n];
    var k := s.pcs[t].k;
    if s.slots[k].lock.By? {
      var u := s.slots[k].lock.t;
      assert HoldsLock(s.pcs[u], k);
      Shared(s, t, k, u, k);
    }
  }

  /** iput decides to free an inode only when nobody else is on its slot, it has no links, and this
      allocation has not been freed before. */
  lemma DecidedByLast(ss: seq<State>, es: seq<Event>, n: nat)
    requires Run(ss, es) && n < |es| && es[n].Iput? && ss[n + 1].pcs[es[n].t].Freeing?
    ensures var s, k := ss[n], ss[n + 1].pcs[es[n].t].k;
      && k < |s.slots| && s.slots[k].inum < |s.nodes| == |s.allocs| == |s.frees|
      && (var i := s.slots[k].inum; s.nodes[i].alloc && s.nodes[i].nlink == 0 && s.frees[i] + 1 == s.allocs[i])
      && forall u: nat | u < |s.pcs| && u != es[n].t :: !On(s.pcs[u], k)
  {
    RunInv(ss, es, n);
    var s, t := ss[n], es[n].t;
    assert Next(s, es[n], ss[n + 1]);
    var k := s.pcs[t].k;
    assert Backed(s, k);
    forall u: nat | u < |s.pcs| && u != t ensures !On(s.pcs[u], k) {
      if On(s.pcs[u], k) { Shared(s, t, k, u, k); }
    }
    assert !BeingCleared(s, k);
  }
}
