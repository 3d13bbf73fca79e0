/** Accounts of blocks: what an operation on one inode may touch, what it conserves,
    and when a block is lost. */
module Ledger {
  import opened Blocks
  import opened Volume
  import opened Truncation

  /** Blocks in use outside the tree of inode i stay exactly the same. */
  ghost predicate Conserved(v: Vol, r: Vol, i: nat) {
    |r.used| == |v.used| &&
    forall b: nat {:trigger OwnedBy(v, i, b)} {:trigger OwnedBy(r, i, b)} | b < |v.used| ::
      (r.used[b] && !OwnedBy(r, i, b)) == (v.used[b] && !OwnedBy(v, i, b))
  }

  /** All that an operation on inode i may do: other inodes keep their fields, pointers and bytes,
      and the blocks outside the tree of i are conserved. */
  ghost predicate Touched(v: Vol, r: Vol, i: nat) {
    && Own(v) && Own(r) && SameShape(v, r) && i < |v.nodes|
    && r.nodes == v.nodes[i := r.nodes[i]]
    && (forall t {:trigger Ok(v, t)} {:trigger Ok(r, t)} | Ok(v, t) && t.i != i :: Ptr(r, t) == Ptr(v, t))
    && (forall j: nat, k: nat {:trigger ByteAt(r, j, k)} | j < |v.nodes| && j != i && k < MAXBYTES ::
          ByteAt(r, j, k) == ByteAt(v, j, k))
    && Conserved(v, r, i)
  }

  lemma ExtendsConserves(v: Vol, r: Vol, i: nat)
    requires Extends(v, r, i)
    ensures Conserved(v, r, i)
  {
    forall b: nat | b < |v.used|
      ensures (r.used[b] && !OwnedBy(r, i, b)) == (v.used[b] && !OwnedBy(v, i, b))
    {
      assert r.used[b] || !r.used[b];
      if OwnedBy(v, i, b) {
        var s :| Ok(v, s) && s.i == i && Ptr(v, s) == b;
        assert Ok(r, s);
      }
      if OwnedBy(r, i, b) && !OwnedBy(v, i, b) {
        var s :| Ok(r, s) && s.i == i && Ptr(r, s) == b;
        assert Ok(v, s);
      }
    }
  }

  lemma TouchedRefl(v: Vol, i: nat)
    requires Own(v) && i < |v.nodes|
    ensures Touched(v, v, i)
  {
  }

  lemma GrewTouched(v: Vol, r: Vol, i: nat)
    requires Grew(v, r, i)
    ensures Touched(v, r, i)
  {
    ExtendsConserves(v, r, i);
  }

  lemma WroteTouched(v: Vol, r: Vol, i: nat, off: nat, data: seq<Byte>)
    requires Wrote(v, r, i, off, data)
    ensures Touched(v, r, i)
  {
    ExtendsConserves(v, r, i);
  }

  lemma TouchedTrans(v: Vol, r: Vol, q: Vol, i: nat)
    requires Touched(v, r, i) && Touched(r, q, i)
    ensures Touched(v, q, i)
  {
    forall t | Ok(v, t) && t.i != i ensures Ptr(q, t) == Ptr(v, t) {
      assert Ok(r, t);
    }
    forall b: nat | b < |v.used|
      ensures (q.used[b] && !OwnedBy(q, i, b)) == (v.used[b] && !OwnedBy(v, i, b))
    {
      assert OwnedBy(r, i, b) || !OwnedBy(r, i, b);
    }
  }

  lemma RetagTouched(v: Vol, i: nat, d: Dinode)
    requires Own(v) && i < |v.nodes| && d.addrs == v.nodes[i].addrs
    ensures Touched(v, Retag(v, i, d), i)
  {
    RetagKeeps(v, i, d);
    var r := Retag(v, i, d);
    forall b: nat ensures OwnedBy(r, i, b) == OwnedBy(v, i, b) {
      if OwnedBy(v, i, b) {
        var s :| Ok(v, s) && s.i == i && Ptr(v, s) == b;
        assert Ok(r, s);
      }
      if OwnedBy(r, i, b) {
        var s :| Ok(r, s) && s.i == i && Ptr(r, s) == b;
        assert Ok(v, s);
      }
    }
  }

  /** Truncation takes exactly the released blocks out of the tree of i and out of use. */
  lemma TruncatedOwned(v: Vol, r: Vol, i: nat, b: nat)
    requires Own(v) && Truncated(v, r, i)
    ensures OwnedBy(r, i, b) <==> OwnedBy(v, i, b) && !Released(v, i, b)
    ensures Released(v, i, b) ==> OwnedBy(v, i, b)
  {
    if OwnedBy(r, i, b) {
      var s :| Ok(r, s) && s.i == i && Ptr(r, s) == b;
      assert Ok(v, s) && Ptr(v, s) == b;
      NotGone(v, i, s);
    }
    if OwnedBy(v, i, b) && !Released(v, i, b) {
      var s :| Ok(v, s) && s.i == i && Ptr(v, s) == b;
      assert Ok(r, s) && Ptr(r, s) == b;
    }
    if Released(v, i, b) {
      var s :| Doomed(s, i, NDIRECT + 1, NINDIRECT) && Ptr(v, s) == b;
      assert Ok(v, s);
    }
  }

  lemma TruncatedTouched(v: Vol, r: Vol, i: nat)
    requires Own(v) && Truncated(v, r, i)
    ensures Touched(v, r, i)
  {
    forall b: nat | b < |v.used|
      ensures (r.used[b] && !OwnedBy(r, i, b)) == (v.used[b] && !OwnedBy(v, i, b))
    {
      TruncatedOwned(v, r, i, b);
    }
    forall t | Ok(v, t) && t.i != i ensures Ptr(r, t) == Ptr(v, t) { }
  }

  /** Inode i holds no block at all. */
  ghost predicate Bare(v: Vol, i: nat) {
    forall b: nat {:trigger OwnedBy(v, i, b)} :: !OwnedBy(v, i, b)
  }

  /** itrunc gives every block of the file back if and only if it has no doubly indirect tree. */
  lemma TruncateFreesAll(v: Vol, r: Vol, i: nat)
    requires Own(v) && Truncated(v, r, i)
    ensures Bare(r, i) <==> !Deep(v, i)
  {
    var a := Addr(i, NDIRECT + 1);
    assert Ok(r, a) && Ok(v, a) && Ptr(r, a) == Ptr(v, a);
    if v.nodes[i].addrs[NDIRECT + 1] != 0 {
      assert OwnedBy(r, i, Ptr(r, a));
    } else {
      forall s | Ok(r, s) && s.i == i ensures Ptr(r, s) == 0 { EmptyTree(r, i, s); }
    }
  }

  /** An inode whose words are all zero has an empty tree. */
  lemma EmptyTree(v: Vol, i: nat, s: Slot)
    requires WF(v) && i < |v.nodes| && Ok(v, s) && s.i == i
    requires forall k | 0 <= k < NDIRECT + 2 :: v.nodes[i].addrs[k] == 0
    ensures Ptr(v, s) == 0
    decreases if s.Addr? then 0 else if s.L2? then 2 else 1
  {
    ZeroWords();
    if !s.Addr? { EmptyTree(v, i, Up(s)); }
  }

  /** Any run of operations on inode i is an operation on inode i. */
  lemma {:induction false} RunTouched(run: seq<Vol>, i: nat)
    requires 1 < |run| && forall k | 0 <= k < |run| - 1 :: Touched(run[k], run[k + 1], i)
    ensures Touched(run[0], run[|run| - 1], i)
  {
    if |run| > 2 {
      var n := |run| - 1;
      RunTouched(run[..n], i);
      TouchedTrans(run[0], run[n - 1], run[n], i);
    }
  }

  /** The blocks in the tree of inode i. */
  ghost function Tree(v: Vol, i: nat): (t: set<int>) {
    set b: nat | b < |v.used| && OwnedBy(v, i, b)
  }

  ghost function Held(v: Vol, i: nat): (n: nat) {
    |Tree(v, i)|
  }

  /** What inode i gains is taken from the free blocks, and what it loses returns there. */
  lemma HeldConserved(v: Vol, r: Vol, i: nat)
    requires Touched(v, r, i)
    ensures Free(r) + Held(r, i) == Free(v) + Held(v, i)
  {
    forall b: nat | b < |v.used|
      ensures (b in FreeSet(v) + Tree(v, i)) == (b in FreeSet(r) + Tree(r, i))
      ensures b !in FreeSet(v) * Tree(v, i) && b !in FreeSet(r) * Tree(r, i)
    {
      assert (r.used[b] && !OwnedBy(r, i, b)) == (v.used[b] && !OwnedBy(v, i, b));
    }
    assert FreeSet(v) + Tree(v, i) == FreeSet(r) + Tree(r, i);
    assert FreeSet(v) * Tree(v, i) == {} && FreeSet(r) * Tree(r, i) == {};
  }

  ghost function Image(v: Vol, slots: set<Slot>): (t: set<int>) {
    set s | s in slots :: Ptr(v, s)
  }

  /** Different slots hold different blocks. */
  lemma {:induction false} ImageSize(v: Vol, slots: set<Slot>)
    requires Own(v) && forall s | s in slots :: Ok(v, s) && Ptr(v, s) != 0
    ensures |Image(v, slots)| == |slots|
    decreases |slots|
  {
    if slots == {} {
      assert Image(v, slots) == {};
    } else {
      var s :| s in slots;
      ImageSize(v, slots - {s});
      forall t | t in slots - {s} ensures Ptr(v, t) != Ptr(v, s) { assert Ok(v, s) && Ok(v, t); }
      assert Image(v, slots) == Image(v, slots - {s}) + {Ptr(v, s)};
    }
  }

  /** An inode holds one block for each filled slot. */
  lemma HeldTaken(v: Vol, i: nat)
    requires Own(v) && i < |v.nodes|
    ensures Held(v, i) == |Taken(v, i)| && (Bare(v, i) <==> Taken(v, i) == {})
  {
    var slots := Taken(v, i);
    forall s | s in slots ensures Ok(v, s) { }
    ImageSize(v, slots);
    forall b: nat ensures OwnedBy(v, i, b) <==> b in Image(v, slots) {
      if OwnedBy(v, i, b) {
        var s :| Ok(v, s) && s.i == i && Ptr(v, s) == b;
        assert s in slots;
      }
      if b in Image(v, slots) {
        var s :| s in slots && Ptr(v, s) == b;
        assert Ok(v, s);
      }
    }
    forall b | b in Image(v, slots) ensures 0 <= b < |v.used| {
      var s :| s in slots && Ptr(v, s) == b;
      assert Ok(v, s);
    }
    assert Tree(v, i) == Image(v, slots);
    if s :| s in slots { assert Ok(v, s) && OwnedBy(v, i, Ptr(v, s)); }
  }

  /** Slots of inode i are filled from the free blocks, and emptied into them. */
  lemma TakenConserved(v: Vol, r: Vol, i: nat)
    requires Touched(v, r, i)
    ensures Free(r) + |Taken(r, i)| == Free(v) + |Taken(v, i)|
  {
    HeldConserved(v, r, i);
    HeldTaken(v, i);
    HeldTaken(r, i);
  }

  lemma TakenKept(v: Vol, r: Vol, i: nat, j: nat)
    requires Touched(v, r, i) && i != j && j < |v.nodes|
    ensures Taken(r, j) == Taken(v, j)
  {
    forall s | s in Slots(j) ensures Ptr(r, s) == Ptr(v, s) { assert Ok(v, s); }
  }

  /** The slots itrunc does not empty: the doubly indirect tree. */
  predicate Lasts(s: Slot) {
    s.L1? || s.L2? || (s.Addr? && s.k == NDIRECT + 1)
  }

  function Lasting(tree: set<Slot>): (t: set<Slot>) {
    set s | s in tree && Lasts(s)
  }

  lemma TruncatedTaken(v: Vol, r: Vol, i: nat)
    requires Truncated(v, r, i)
    ensures Taken(r, i) == Lasting(Taken(v, i))
  {
    forall s | s in Slots(i) ensures Ptr(r, s) == if Lasts(s) then Ptr(v, s) else 0 { assert Ok(v, s); }
  }

  /** No block is lost: every data block in use hangs in some tree. */
  ghost predicate NoLeak(v: Vol) {
    forall b: nat {:trigger v.used[b]} | v.start <= b < |v.used| && v.used[b] :: Owned(v, b)
  }

  ghost predicate Owned(v: Vol, b: nat) {
    exists i: nat :: i < |v.nodes| && OwnedBy(v, i, b)
  }

  /** Operations on an inode lose no block. */
  lemma TouchedNoLeak(v: Vol, r: Vol, i: nat)
    requires Touched(v, r, i) && NoLeak(v)
    ensures NoLeak(r)
  {
    forall b: nat | r.start <= b < |r.used| && r.used[b] ensures Owned(r, b) {
      if !OwnedBy(r, i, b) {
        assert v.used[b] && !OwnedBy(v, i, b);
        var j: nat :| j < |v.nodes| && OwnedBy(v, j, b);
        var s :| Ok(v, s) && s.i == j && Ptr(v, s) == b;
        assert Ok(r, s) && Ptr(r, s) == b;
        assert OwnedBy(r, j, b);
      }
    }
  }

  function NoAddrs(): (a: seq<Word32>)
    ensures |a| == NDIRECT + 2 && forall k | 0 <= k < |a| :: a[k] == 0
  {
    seq(NDIRECT + 2, _ => 0)
  }

  /** A fresh inode: everything zero but the type, as ialloc's memset leaves it. */
  function Blank(kind: Short): (d: Dinode)
    ensures |d.addrs| == NDIRECT + 2 && d.size == 0
  {
    Dinode(kind, 0, 0, 0, 0, NoAddrs())
  }

  /** Inode i is wiped: its tree is forgotten, nothing else changes. */
  ghost predicate Wiped(v: Vol, r: Vol, i: nat, kind: Short) {
    && Own(r) && i < |v.nodes| && r == v.(nodes := v.nodes[i := Blank(kind)])
    && (forall t {:trigger Ptr(r, t)} | Ok(v, t) :: Ptr(r, t) == if t.i == i then 0 else Ptr(v, t))
    && (forall j: nat, k: nat {:trigger ByteAt(r, j, k)} | j < |v.nodes| && j != i && k < MAXBYTES ::
          ByteAt(r, j, k) == ByteAt(v, j, k))
  }

  lemma WipePtr(v: Vol, i: nat, kind: Short, t: Slot)
    requires Own(v) && i < |v.nodes| && Ok(v, t)
    ensures Ptr(v.(nodes := v.nodes[i := Blank(kind)]), t) == if t.i == i then 0 else Ptr(v, t)
    decreases if t.Addr? then 0 else if t.L2? then 2 else 1
  {
    ZeroWords();
    if !t.Addr? {
      assert Ok(v, Up(t));
      WipePtr(v, i, kind, Up(t));
    }
  }

  lemma Wipe(v: Vol, i: nat, kind: Short)
    requires Own(v) && i < |v.nodes|
    ensures Wiped(v, v.(nodes := v.nodes[i := Blank(kind)]), i, kind)
  {
    var r := v.(nodes := v.nodes[i := Blank(kind)]);
    forall t | Ok(v, t) ensures Ptr(r, t) == if t.i == i then 0 else Ptr(v, t) { WipePtr(v, i, kind, t); }
    forall s | Ok(r, s) && Ptr(r, s) != 0 ensures r.start <= Ptr(r, s) < |r.used| && r.used[Ptr(r, s)] {
      assert Ok(v, s);
    }
    forall s, t | Ok(r, s) && Ok(r, t) && Ptr(r, s) != 0 && Ptr(r, s) == Ptr(r, t) ensures s == t {
      assert Ok(v, s) && Ok(v, t);
    }
    forall j: nat, k: nat | j < |v.nodes| && j != i && k < MAXBYTES ensures ByteAt(r, j, k) == ByteAt(v, j, k) {
      assert Ok(v, DataSlot(j, k / BSIZE));
    }
  }

  /** Wiping an inode loses blocks if and only if it still holds some: this is how the doubly
      indirect tree that itrunc leaves behind is lost. */
  lemma WipeLeaks(v: Vol, r: Vol, i: nat, kind: Short)
    requires Own(v) && NoLeak(v) && Wiped(v, r, i, kind)
    ensures NoLeak(r) <==> Bare(v, i)
  {
    if Bare(v, i) {
      forall b: nat | r.start <= b < |r.used| && r.used[b] ensures Owned(r, b) {
        assert v.used[b];
        var j: nat :| j < |v.nodes| && OwnedBy(v, j, b);
        assert !OwnedBy(v, i, b);
        var s :| Ok(v, s) && s.i == j && Ptr(v, s) == b;
        assert Ok(r, s) && Ptr(r, s) == b;
        assert OwnedBy(r, j, b);
      }
    } else {
      var b: nat :| OwnedBy(v, i, b);
      var s :| Ok(v, s) && s.i == i && Ptr(v, s) == b;
      assert v.used[b] && r.used[b];
      forall j: nat | j < |r.nodes| ensures !OwnedBy(r, j, b) {
        if t :| Ok(r, t) && t.i == j && Ptr(r, t) == b {
          assert Ok(v, t);
        }
      }
    }
  }

  /** writei's last step: the new size. */
  lemma WriteDone(v0: Vol, v: Vol, i: nat, off: nat, src: seq<Byte>, tot: nat, d: Dinode)
    requires Progress(v0, v, i, off, src, tot) && off + |src| <= MAXBYTES
    requires d == v.nodes[i].(size := Max(v.nodes[i].size, off + tot))
    ensures var r := Retag(v, i, d); FileWritten(v0, r, i, off, src[..tot]) && Touched(v0, r, i) && Free(r) == Free(v)
    ensures NoHoles(v0, i) ==> NoHoles(Retag(v, i, d), i)
  {
    ProgressDone(v0, v, i, off, src, tot, d);
    WroteTouched(v0, v, i, off, src[..tot]);
    RetagTouched(v, i, d);
    TouchedTrans(v0, v, Retag(v, i, d), i);
  }

  /** iput's free: truncated, then marked free. */
  lemma FreeDone(v0: Vol, v: Vol, i: nat, d: Dinode)
    requires Own(v0) && Truncated(v0, v, i) && d == v.nodes[i].(kind := 0)
    ensures var r := Retag(v, i, d); Touched(v0, r, i) && (Bare(r, i) <==> !Deep(v0, i))
    ensures Taken(Retag(v, i, d), i) == Lasting(Taken(v0, i))
  {
    var r := Retag(v, i, d);
    TruncatedTouched(v0, v, i);
    TruncateFreesAll(v0, v, i);
    RetagTouched(v, i, d);
    TouchedTrans(v0, v, r, i);
    RetagBare(v, i, d);
    RetagKeeps(v, i, d);
    TruncatedTaken(v0, v, i);
    assert Taken(r, i) == Taken(v, i);
  }

  lemma RetagBare(v: Vol, i: nat, d: Dinode)
    requires Own(v) && i < |v.nodes| && d.addrs == v.nodes[i].addrs
    ensures Bare(Retag(v, i, d), i) <==> Bare(v, i)
  {
    RetagKeeps(v, i, d);
    var r := Retag(v, i, d);
    forall b: nat ensures OwnedBy(r, i, b) == OwnedBy(v, i, b) {
      if s :| Ok(v, s) && s.i == i && Ptr(v, s) == b { assert Ok(r, s); }
      if s :| Ok(r, s) && s.i == i && Ptr(r, s) == b { assert Ok(v, s); }
    }
  }

  /** The blocks in the trees of the first n inodes. */
  ghost function Trees(v: Vol, n: nat): (t: set<int>) {
    set b: nat | b < |v.used| && OwnedBelow(v, n, b)
  }

  ghost predicate OwnedBelow(v: Vol, n: nat, b: nat) {
    exists j: nat {:trigger OwnedBy(v, j, b)} :: j < n && OwnedBy(v, j, b)
  }

  function Sum(s: seq<nat>): (n: nat) {
    if |s| == 0 then 0 else Sum(s[..|s| - 1]) + s[|s| - 1]
  }

  lemma OneTree(v: Vol, i: nat, j: nat, b: nat)
    requires Own(v) && OwnedBy(v, i, b) && OwnedBy(v, j, b)
    ensures i == j
  {
    var s :| Ok(v, s) && s.i == i && Ptr(v, s) == b;
    var t :| Ok(v, t) && t.i == j && Ptr(v, t) == b;
  }

  lemma OneMoreTree(v: Vol, n: nat)
    requires Own(v)
    ensures |Trees(v, n + 1)| == |Trees(v, n)| + Held(v, n)
  {
    assert Trees(v, n + 1) == Trees(v, n) + Tree(v, n);
    forall b: nat | OwnedBy(v, n, b) ensures !OwnedBelow(v, n, b) {
      if j: nat :| j < n && OwnedBy(v, j, b) {
        OneTree(v, j, n, b);
      }
    }
    assert Trees(v, n) * Tree(v, n) == {};
  }

  /** No block hangs in two trees, so the trees add up. */
  lemma {:induction false} TreesAddUp(v: Vol, held: seq<nat>, n: nat)
    requires Own(v) && n <= |held| == |v.nodes| && forall i: nat {:trigger Held(v, i)} | i < |held| :: held[i] == Held(v, i)
    ensures |Trees(v, n)| == Sum(held[..n])
  {
    if n == 0 {
      assert Trees(v, 0) == {};
    } else {
      TreesAddUp(v, held, n - 1);
      OneMoreTree(v, n - 1);
      assert held[..n][..n - 1] == held[..n - 1];
    }
  }

  function Area(a: int, b: int): (s: set<int>)
    requires a <= b
    ensures |s| == b - a && forall x :: x in s <==> a <= x < b
    decreases b - a
  {
    if a == b then {} else Area(a, b - 1) + {b - 1}
  }

  /** Free blocks and trees lie apart in the data area, and fill it if and only if no block is lost. */
  lemma AreaFilled(v: Vol)
    requires Own(v)
    ensures FreeSet(v) * Trees(v, |v.nodes|) == {} && FreeSet(v) + Trees(v, |v.nodes|) <= Area(v.start, |v.used|)
    ensures NoLeak(v) <==> FreeSet(v) + Trees(v, |v.nodes|) == Area(v.start, |v.used|)
  {
    var n := |v.nodes|;
    var all, area := FreeSet(v) + Trees(v, n), Area(v.start, |v.used|);
    forall b: nat | OwnedBelow(v, n, b) ensures v.start <= b < |v.used| && v.used[b] {
      var j: nat :| j < n && OwnedBy(v, j, b);
      var s :| Ok(v, s) && s.i == j && Ptr(v, s) == b;
    }
    if NoLeak(v) {
      forall b | b in area ensures b in all { assert v.used[b] ==> Owned(v, b); }
    }
    if all == area {
      forall b: nat | v.start <= b < |v.used| && v.used[b] ensures Owned(v, b) { assert b in area; }
    }
  }

  /** The accounts balance if and only if no block is lost. */
  lemma NoLeakIff(v: Vol, held: seq<nat>)
    requires Own(v) && |held| == |v.nodes| && forall i: nat {:trigger Held(v, i)} | i < |held| :: held[i] == Held(v, i)
    ensures Free(v) + Sum(held) <= |v.used| - v.start
    ensures NoLeak(v) <==> Free(v) + Sum(held) == |v.used| - v.start
  {
    var n := |v.nodes|;
    TreesAddUp(v, held, n);
    assert held[..n] == held;
    AreaFilled(v);
    Counts(FreeSet(v) + Trees(v, n), Area(v.start, |v.used|));
  }

  /** Wiping an inode takes its blocks out of its own account and puts them into none. */
  lemma WipedTaken(v: Vol, r: Vol, i: nat, kind: Short, j: nat)
    requires Own(v) && Wiped(v, r, i, kind) && j < |v.nodes|
    ensures Taken(r, j) == if j == i then {} else Taken(v, j)
  {
    forall s | s in Slots(j) ensures Ptr(r, s) == if j == i then 0 else Ptr(v, s) { assert Ok(v, s); }
  }
}
