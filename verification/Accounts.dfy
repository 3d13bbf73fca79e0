/** The blocks of a volume over whole runs: none appears or disappears, except those that an inode
    still holds when it is used again. */
module Accounts {
  import opened Blocks
  import opened Volume
  import opened Layout
  import opened Ledger
  import opened Demand
  import opened FileSystem
  import opened Sizes
  import opened Runs

  /** The blocks each inode holds. */
  function Held(trees: seq<set<Slot>>): (held: seq<nat>)
    ensures |held| == |trees|
  {
    seq(|trees|, i requires 0 <= i < |trees| => |trees[i]|)
  }

  /** All blocks the simple file system knows of. */
  function Total(s: Shot): (n: nat) {
    s.free + Sum(Held(s.trees))
  }

  lemma {:induction false} SumPut(a: seq<nat>, i: nat, x: nat)
    requires i < |a|
    ensures Sum(a[i := x]) + a[i] == Sum(a) + x
  {
    var n := |a| - 1;
    if i == n {
      assert a[i := x][..n] == a[..n];
    } else {
      assert a[i := x][..n] == a[..n][i := x];
      SumPut(a[..n], i, x);
    }
  }

  lemma HeldPut(trees: seq<set<Slot>>, i: nat, tree: set<Slot>)
    requires i < |trees|
    ensures Sum(Held(trees[i := tree])) + |trees[i]| == Sum(Held(trees)) + |tree|
  {
    assert Held(trees[i := tree]) == Held(trees)[i := |tree|];
    SumPut(Held(trees), i, |tree|);
  }

  /** The blocks lost for good in one operation: what a newly created file's inode still held. */
  ghost function LostBy(s: Shot, op: Op, r: Reply): (n: nat) {
    if op.Create? && r.o.Ret? && 0 < r.o.value < |s.trees| then |s.trees[r.o.value]| else 0
  }

  ghost function Lost(hist: seq<Shot>, ops: seq<Op>, rs: seq<Reply>): (n: nat)
    requires |rs| <= |ops| && |rs| <= |hist|
  {
    if |rs| == 0 then 0
    else var k := |rs| - 1; Lost(hist, ops, rs[..k]) + LostBy(hist[k], ops[k], rs[k])
  }

  lemma ServesTotal(s: Shot, op: Op, r: Reply, t: Shot)
    requires Serves(s, op, r, t)
    ensures Total(t) + LostBy(s, op, r) == Total(s)
  {
    match op
    case Create(_) => if r.o.value != 0 { HeldPut(s.trees, r.o.value, {}); }
    case Write(i, _, _, _) => if r.o.value != -1 { HeldPut(s.trees, i, t.trees[i]); }
    case Read(_, _, _, _) =>
    case Truncate(i) => HeldPut(s.trees, i, t.trees[i]);
    case Remove(i) => HeldPut(s.trees, i, t.trees[i]);
  }

  /** Over every run the free blocks, the blocks files hold and the blocks lost add up to the same. */
  lemma {:induction false} Conservation(hist: seq<Shot>, ops: seq<Op>, rs: seq<Reply>)
    requires Traces(hist, ops, rs)
    ensures Total(hist[|rs|]) + Lost(hist, ops, rs) == Total(hist[0])
    decreases |rs|
  {
    if |rs| > 0 {
      var k := |rs| - 1;
      assert Serves(hist[k], ops[k], rs[k], hist[k + 1]);
      Prefix(hist, ops, rs, k);
      Conservation(hist[..|rs|], ops, rs[..k]);
      LostPrefix(hist, hist[..|rs|], ops, rs[..k]);
      ServesTotal(hist[k], ops[k], rs[k], hist[k + 1]);
    }
  }

  lemma Prefix(hist: seq<Shot>, ops: seq<Op>, rs: seq<Reply>, k: nat)
    requires Traces(hist, ops, rs) && k <= |rs|
    ensures Traces(hist[..k + 1], ops, rs[..k])
  {
    forall j | 0 <= j < k ensures Serves(hist[..k + 1][j], ops[j], rs[..k][j], hist[..k + 1][j + 1]) {
      assert Serves(hist[j], ops[j], rs[j], hist[j + 1]);
    }
  }

  lemma {:induction false} LostPrefix(hist: seq<Shot>, pre: seq<Shot>, ops: seq<Op>, rs: seq<Reply>)
    requires |rs| <= |ops| && |rs| <= |pre| <= |hist| && pre == hist[..|pre|]
    ensures Lost(hist, ops, rs) == Lost(pre, ops, rs)
    decreases |rs|
  {
    if |rs| > 0 { LostPrefix(hist, pre, ops, rs[..|rs| - 1]); }
  }

  /** File i has a doubly indirect tree. */
  predicate Deepens(s: Shot, i: nat) {
    i < |s.trees| && Addr(i, NDIRECT + 1) in s.trees[i]
  }

  /** A free inode holds nothing but a doubly indirect tree. */
  ghost predicate Tidy(s: Shot) {
    |s.trees| == |s.files| && forall i: nat {:trigger TidyAt(s, i)} | i < |s.trees| :: TidyAt(s, i)
  }

  ghost predicate TidyAt(s: Shot, i: nat)
    requires i < |s.trees| == |s.files|
  {
    Closed(i, s.trees[i]) && (s.files[i].kind == 0 ==> s.trees[i] == Lasting(s.trees[i]))
  }

  /** So it holds something exactly when it has one. */
  lemma TidyHolds(s: Shot, i: nat)
    requires Tidy(s) && i < |s.trees| && s.files[i].kind == 0
    ensures |s.trees[i]| > 0 <==> Deepens(s, i)
  {
    assert TidyAt(s, i);
    var tree := s.trees[i];
    if tree != {} {
      var a :| a in tree;
      assert a in Lasting(tree);
      if a.L2? { assert Up(a) in tree && Up(Up(a)) in tree; }
      if a.L1? { assert Up(a) in tree; }
    }
  }

  lemma ServesTidy(s: Shot, op: Op, r: Reply, t: Shot)
    requires Serves(s, op, r, t) && Tidy(s)
    ensures Tidy(t)
  {
    forall j: nat | j < |t.trees| ensures |t.files| == |t.trees| == |s.trees| && TidyAt(t, j) {
      assert TidyAt(s, j);
    }
  }

  lemma {:induction false} TracesTidy(hist: seq<Shot>, ops: seq<Op>, rs: seq<Reply>, k: nat)
    requires Traces(hist, ops, rs) && Tidy(hist[0]) && k <= |rs|
    ensures Tidy(hist[k])
  {
    if k > 0 {
      var j := k - 1;
      TracesTidy(hist, ops, rs, j);
      assert Serves(hist[j], ops[j], rs[j], hist[j + 1]);
      ServesTidy(hist[j], ops[j], rs[j], hist[k]);
    }
  }

  /** Operation k created a file in an inode that still had a doubly indirect tree. */
  ghost predicate Reuses(hist: seq<Shot>, ops: seq<Op>, rs: seq<Reply>, k: nat)
    requires k < |rs| <= |ops| && |rs| <= |hist|
  {
    ops[k].Create? && rs[k].o.Ret? && rs[k].o.value > 0 && Deepens(hist[k], rs[k].o.value)
  }

  lemma LosesIff(hist: seq<Shot>, ops: seq<Op>, rs: seq<Reply>, k: nat)
    requires Traces(hist, ops, rs) && Tidy(hist[0]) && k < |rs|
    ensures LostBy(hist[k], ops[k], rs[k]) > 0 <==> Reuses(hist, ops, rs, k)
  {
    TracesTidy(hist, ops, rs, k);
    assert Serves(hist[k], ops[k], rs[k], hist[k + 1]);
    if ops[k].Create? && rs[k].o.value > 0 { TidyHolds(hist[k], rs[k].o.value); }
  }

  ghost predicate Reused(hist: seq<Shot>, ops: seq<Op>, rs: seq<Reply>, n: nat)
    requires n <= |rs| <= |ops| && |rs| <= |hist|
  {
    exists k: nat {:trigger Reuses(hist, ops, rs, k)} :: k < n && Reuses(hist, ops, rs, k)
  }

  lemma {:induction false} LostIff(hist: seq<Shot>, ops: seq<Op>, rs: seq<Reply>, n: nat)
    requires Traces(hist, ops, rs) && Tidy(hist[0]) && n <= |rs|
    ensures Lost(hist, ops, rs[..n]) > 0 <==> Reused(hist, ops, rs, n)
  {
    if n > 0 {
      LostIff(hist, ops, rs, n - 1);
      LosesIff(hist, ops, rs, n - 1);
      LostStep(hist, ops, rs, n - 1);
    }
  }

  lemma LostStep(hist: seq<Shot>, ops: seq<Op>, rs: seq<Reply>, k: nat)
    requires k < |rs| <= |ops| && |rs| <= |hist|
    ensures Lost(hist, ops, rs[..k + 1]) == Lost(hist, ops, rs[..k]) + LostBy(hist[k], ops[k], rs[k])
    ensures Reused(hist, ops, rs, k + 1) <==> Reused(hist, ops, rs, k) || Reuses(hist, ops, rs, k)
  {
    assert rs[..k + 1][..k] == rs[..k];
  }

  lemma HeldShows(v: Vol, s: Shot)
    requires Shows(v, s) && Own(v)
    ensures forall i: nat {:trigger Ledger.Held(v, i)} | i < |s.trees| :: Held(s.trees)[i] == Ledger.Held(v, i)
  {
    forall i: nat | i < |s.trees| ensures Held(s.trees)[i] == Ledger.Held(v, i) {
      assert s.trees[i] == Taken(v, i);
      HeldTaken(v, i);
    }
  }

  /** A run on a volume without lost blocks leaves one without lost blocks if and only if no file was
      created in an inode that still had a doubly indirect tree, which is what itrunc leaves behind. */
  lemma NoLeakRun(hist: seq<Shot>, ops: seq<Op>, rs: seq<Reply>, v: Vol, r: Vol)
    requires Traces(hist, ops, rs) && Tidy(hist[0]) && Own(v) && Own(r) && SameShape(v, r)
    requires Shows(v, hist[0]) && NoLeak(v) && Shows(r, hist[|rs|])
    ensures NoLeak(r) <==> !Reused(hist, ops, rs, |rs|)
    ensures Total(hist[|rs|]) + Lost(hist, ops, rs) == |r.used| - r.start
  {
    Conservation(hist, ops, rs);
    assert rs[..|rs|] == rs;
    LostIff(hist, ops, rs, |rs|);
    HeldShows(v, hist[0]);
    HeldShows(r, hist[|rs|]);
    NoLeakIff(v, Held(hist[0].trees));
    NoLeakIff(r, Held(hist[|rs|].trees));
  }

  /** op reads, writes or truncates file i. */
  predicate UsesFile(op: Op, i: nat) {
    (op.Write? || op.Read? || op.Truncate?) && op.i == i
  }

  /** A write that stays below the doubly indirect blocks. */
  predicate Shallow(op: Op) {
    op.Write? ==> op.off + |op.src| <= FLAT
  }

  /** The first FLAT bytes need no doubly indirect tree, and byte FLAT does. */
  lemma ExtentDeep(i: nat, off: nat, n: nat)
    requires off + n <= MAXBYTES
    ensures off + n <= FLAT ==> Addr(i, NDIRECT + 1) !in Extent(Way(i), off, n)
    ensures off == 0 && n > FLAT ==> Addr(i, NDIRECT + 1) in Extent(Way(i), off, n)
  {
    var a, b := Addr(i, NDIRECT + 1), Last(off, n);
    if n > 0 { assert (off + n - 1) / BSIZE < MAXFILE && (off + n <= FLAT ==> (off + n - 1) / BSIZE < NDIRECT + NINDIRECT); }
    if n == 0 { assert Extent(Way(i), off, n) == {}; } else {
      RoutesAre(i, b, a);
      RoutesFrom(i, off / BSIZE, b);
    }
  }

  /** A write below the doubly indirect blocks makes no doubly indirect tree. */
  lemma ShallowWrite(s: Shot, op: Op, r: Reply, t: Shot)
    requires op.Write? && Serves(s, op, r, t) && Shallow(op) && !Deepens(s, op.i)
    ensures !Deepens(t, op.i)
  {
    if r.o.value != -1 {
      var end := Asked(op.off, |op.src|, r.o.value);
      ExtentDeep(op.i, op.off, end);
    }
  }

  lemma {:induction false} FileAccount(hist: seq<Shot>, ops: seq<Op>, rs: seq<Reply>, i: nat, k: nat)
    requires Traces(hist, ops, rs) && k <= |rs| && i < |hist[0].trees| == |hist[0].files|
    requires forall j | 0 <= j < k :: UsesFile(ops[j], i)
    ensures i < |hist[k].trees| == |hist[k].files| && hist[k].free + |hist[k].trees[i]| == hist[0].free + |hist[0].trees[i]|
    ensures Closed(i, hist[0].trees[i]) ==> Closed(i, hist[k].trees[i])
    ensures !Deepens(hist[0], i) && (forall j | 0 <= j < k :: Shallow(ops[j])) ==> !Deepens(hist[k], i)
  {
    if k > 0 {
      var j := k - 1;
      FileAccount(hist, ops, rs, i, j);
      assert Serves(hist[j], ops[j], rs[j], hist[j + 1]);
      assert UsesFile(ops[j], i);
      if ops[j].Write? && !Deepens(hist[j], i) && Shallow(ops[j]) { ShallowWrite(hist[j], ops[j], rs[j], hist[j + 1]); }
    }
  }

  /** What lasts of a closed tree is nothing exactly when it has no doubly indirect part. */
  lemma LastingEmpty(i: nat, tree: set<Slot>)
    requires Closed(i, tree)
    ensures Lasting(tree) == {} <==> Addr(i, NDIRECT + 1) !in tree
  {
    if a :| a in Lasting(tree) {
      if a.L2? { assert Up(a) in tree && Up(Up(a)) in tree; }
      if a.L1? { assert Up(a) in tree; }
    }
    if Addr(i, NDIRECT + 1) in tree { assert Addr(i, NDIRECT + 1) in Lasting(tree); }
  }

  /** Growing a file that holds nothing and truncating it restores the free count if and only if it
      has no doubly indirect tree by then; a file whose writes stay below that never has one. */
  lemma GrowThenTruncate(hist: seq<Shot>, ops: seq<Op>, rs: seq<Reply>, i: nat)
    requires Traces(hist, ops, rs) && 0 < |rs| && i < |hist[0].trees| == |hist[0].files| && hist[0].trees[i] == {}
    requires forall j | 0 <= j < |rs| - 1 :: UsesFile(ops[j], i)
    requires ops[|rs| - 1] == Truncate(i)
    ensures hist[|rs|].free == hist[0].free <==> !Deepens(hist[|rs| - 1], i)
    ensures (forall j | 0 <= j < |rs| - 1 :: Shallow(ops[j])) ==> hist[|rs|].free == hist[0].free
  {
    var n := |rs| - 1;
    FileAccount(hist, ops, rs, i, n);
    assert Serves(hist[n], ops[n], rs[n], hist[n + 1]);
    LastingEmpty(i, hist[n].trees[i]);
  }
}
