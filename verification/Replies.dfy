/** Runs of the file system are determined: the operations and the state they begin in fix every reply,
    every later state, and whether and where the machine stops. */
module Replies {
  import opened Blocks
  import opened Volume
  import opened Ledger
  import opened Demand
  import opened FileSystem
  import opened Runs

  /** Of two closed trees that fill part of one route, one has what the other lacks, or the other way. */
  lemma EitherHas(i: nat, d: Slot, a: set<Slot>, t: set<Slot>, u: set<Slot>, x: Slot, y: Slot)
    requires Closed(i, t) && Closed(i, u) && a <= t <= a + Above(d) && a <= u <= a + Above(d)
    requires x in t && y in u
    ensures x in u || y in t
  {
    assert (x in a || x in Above(d)) && (y in a || y in Above(d));
    assert (!x.Addr? ==> Up(x) in t) && (!y.Addr? ==> Up(y) in u);
    assert x.L2? ==> Up(Up(x)) in t;
    assert y.L2? ==> Up(Up(y)) in u;
  }

  /** So one is part of the other. */
  lemma Nested(i: nat, d: Slot, a: set<Slot>, t: set<Slot>, u: set<Slot>)
    requires Closed(i, t) && Closed(i, u) && a <= t <= a + Above(d) && a <= u <= a + Above(d)
    ensures t <= u || u <= t
  {
    forall x, y | x in t && y in u ensures x in u || y in t { EitherHas(i, d, a, t, u, x, y); }
  }

  /** And of one size they are the same. */
  lemma NestedSame(i: nat, d: Slot, a: set<Slot>, t: Stock<Slot>, u: Stock<Slot>)
    requires Closed(i, t.tree) && Closed(i, u.tree) && a <= t.tree <= a + Above(d) && a <= u.tree <= a + Above(d)
    requires t.free == u.free && |t.tree| == |u.tree|
    ensures t == u
  {
    Nested(i, d, a, t.tree, u.tree);
    if t.tree <= u.tree { Counts(t.tree, u.tree); } else { Counts(u.tree, t.tree); }
  }

  lemma LastRoute(tree: set<Slot>, i: nat, off: nat, n: nat, tot: nat, end: nat)
    requires tot < n && Even(off, tot) && end == Asked(off, n, tot)
    ensures tree + Extent(Way(i), off, end) == tree + Extent(Way(i), off, tot) + Above(DataSlot(i, (off + tot) / BSIZE))
  {
    ExtentStep(Way(i), off, n, tot, end - tot);
  }

  /** So a loop that ran out of blocks leaves one tree only. */
  lemma LeavesOnce(s: Stock<Slot>, t: Stock<Slot>, u: Stock<Slot>, i: nat, off: nat, n: nat, tot: nat)
    requires Leaves(s, t, Way(i), off, n, tot) && Leaves(s, u, Way(i), off, n, tot) && tot <= n && (tot == n || Even(off, tot))
    requires Closed(i, t.tree) && Closed(i, u.tree) && t.free + |t.tree| == u.free + |u.tree|
    requires Need(s.tree, Way(i), off, tot) <= s.free
    ensures t == u
  {
    var end := Asked(off, n, tot);
    if Need(s.tree, Way(i), off, end) > s.free {
      var a, d := s.tree + Extent(Way(i), off, tot), DataSlot(i, (off + tot) / BSIZE);
      LastRoute(s.tree, i, off, n, tot, end);
      NestedSame(i, d, a, t, u);
    }
  }

  lemma WritesOnce(s: Shot, op: Op, o: Outcome, t: Shot, p: Outcome, u: Shot)
    requires op.Write? && Writes(s, op.i, op.off, op.src, op.ok, o, t) && Writes(s, op.i, op.off, op.src, op.ok, p, u)
    ensures o == p && t == u
  {
    var i, n := op.i, |op.src|;
    if !Refused(s.files[i].data, op.off, op.src) {
      GoingStart(StockAt(s, i), Way(i), op.off, n, op.ok);
      GoesTells(StockAt(s, i), Way(i), op.off, n, 0, op.ok);
      LeavesOnce(StockAt(s, i), StockAt(t, i), StockAt(u, i), i, op.off, n, o.value);
      assert t.trees[i] == u.trees[i];
    }
  }

  /** An operation has one reply and one outcome. */
  lemma ServesOnce(s: Shot, op: Op, r: Reply, t: Shot, q: Reply, u: Shot)
    requires Serves(s, op, r, t) && Serves(s, op, q, u)
    ensures r == q && t == u
  {
    match op
    case Create(_) =>
    case Write(_, _, _, _) => WritesOnce(s, op, r.o, t, q.o, u);
    case Read(_, _, _, _) => assert |r.out| == 0 ==> r.out == []; assert |q.out| == 0 ==> q.out == [];
    case Truncate(i) => assert t.trees[i] == u.trees[i];
    case Remove(i) => assert t.trees[i] == u.trees[i];
  }

  /** A write that ends within the direct and indirect blocks never stops the machine for lack of blocks. */
  lemma FlatNeverStops(s: Shot, op: Op)
    requires op.Write? && op.i < |s.files| && s.files[op.i].kind != 0 && op.off + |op.src| <= 71680
    ensures !Stops(s, op)
  {
    if |s.files| == |s.trees| {
      GoingStart(StockAt(s, op.i), Way(op.i), op.off, |op.src|, op.ok);
      GoesTells(StockAt(s, op.i), Way(op.i), op.off, |op.src|, 0, op.ok);
    }
  }

  lemma StepOnce(hist: seq<Shot>, rs: seq<Reply>, hist': seq<Shot>, rs': seq<Reply>, ops: seq<Op>, k: nat)
    requires Traces(hist, ops, rs) && Traces(hist', ops, rs') && k < |rs| && k < |rs'| && hist[k] == hist'[k]
    ensures rs[k] == rs'[k] && hist[k + 1] == hist'[k + 1]
  {
    var s, t, u, r, q := hist[k], hist[k + 1], hist'[k + 1], rs[k], rs'[k];
    ServesOnce(s, ops[k], r, t, q, u);
  }

  lemma {:induction false} TracesOnce(hist: seq<Shot>, rs: seq<Reply>, hist': seq<Shot>, rs': seq<Reply>, ops: seq<Op>, k: nat)
    requires Traces(hist, ops, rs) && Traces(hist', ops, rs') && hist[0] == hist'[0] && k <= |rs| && k <= |rs'|
    ensures hist[k] == hist'[k] && (k > 0 ==> rs[k - 1] == rs'[k - 1])
  {
    if k > 0 {
      TracesOnce(hist, rs, hist', rs', ops, k - 1);
      StepOnce(hist, rs, hist', rs', ops, k - 1);
    }
  }

  /** How Run ends: with all operations served, or at one that stops the machine. */
  ghost predicate Complete(hist: seq<Shot>, ops: seq<Op>, rs: seq<Reply>, hang: bool) {
    && Traces(hist, ops, rs)
    && (if hang then |rs| < |ops| && Stops(hist[|rs|], ops[|rs|]) else |rs| == |ops|)
  }

  lemma NotLonger(hist: seq<Shot>, rs: seq<Reply>, hang: bool, hist': seq<Shot>, rs': seq<Reply>, hang': bool, ops: seq<Op>)
    requires Complete(hist, ops, rs, hang) && Complete(hist', ops, rs', hang') && hist[0] == hist'[0]
    ensures |rs'| <= |rs|
  {
    var k := |rs|;
    if k < |rs'| {
      TracesOnce(hist, rs, hist', rs', ops, k);
      assert Serves(hist'[k], ops[k], rs'[k], hist'[k + 1]);
      StopsOrServes(hist'[k], ops[k], rs'[k], hist'[k + 1]);
    }
  }

  /** Two runs of the same operations from the same state are the same. */
  lemma RunOnce(hist: seq<Shot>, rs: seq<Reply>, hang: bool, hist': seq<Shot>, rs': seq<Reply>, hang': bool, ops: seq<Op>)
    requires Complete(hist, ops, rs, hang) && Complete(hist', ops, rs', hang') && hist[0] == hist'[0]
    ensures hist == hist' && rs == rs' && hang == hang'
  {
    NotLonger(hist, rs, hang, hist', rs', hang', ops);
    NotLonger(hist', rs', hang', hist, rs, hang, ops);
    forall k: nat | k <= |rs| ensures hist[k] == hist'[k] && (k > 0 ==> rs[k - 1] == rs'[k - 1]) {
      TracesOnce(hist, rs, hist', rs', ops, k);
    }
    forall k: nat | k < |rs| ensures rs[k] == rs'[k] {
      TracesOnce(hist, rs, hist', rs', ops, k + 1);
    }
  }

  /** Every block a file's data lies in has its slots filled. */
  ghost predicate Solid(s: Shot) {
    |s.files| == |s.trees| && forall i: nat, bn: nat {:trigger SolidAt(s, i, bn)} | i < |s.files| :: SolidAt(s, i, bn)
  }

  ghost predicate SolidAt(s: Shot, i: nat, bn: nat)
    requires i < |s.files| == |s.trees|
  {
    |s.files[i].data| <= MAXBYTES && (bn * BSIZE < |s.files[i].data| ==> Way(i)(bn) <= s.trees[i])
  }

  lemma {:induction false} SolidRoutes(s: Shot, i: nat, a: nat, b: nat)
    requires Solid(s) && i < |s.files| && (b <= a || (b - 1) * BSIZE < |s.files[i].data|)
    ensures Routes(Way(i), a, b) <= s.trees[i]
    decreases b
  {
    if a < b {
      assert SolidAt(s, i, b - 1);
      SolidRoutes(s, i, a, b - 1);
    }
  }

  /** Overwriting a file in place takes no block, stores all that can be copied in, and never stops the machine. */
  lemma InPlace(s: Shot, op: Op)
    requires Solid(s) && op.Write? && op.i < |s.files| && s.files[op.i].kind != 0 && op.off + |op.src| <= |s.files[op.i].data|
    ensures !Stops(s, op)
    ensures forall r, t | Serves(s, op, r, t) ::
      t.free == s.free && t.trees == s.trees && r.o == Ret(Copied(op.off, |op.src|, 0, op.ok))
  {
    var i, off, n := op.i, op.off, |op.src|;
    assert SolidAt(s, i, 0);
    if n > 0 { assert (off + n - 1) / BSIZE * BSIZE <= off + n - 1; }
    SolidRoutes(s, i, off / BSIZE, Last(off, n));
    assert Extent(Way(i), off, n) - s.trees[i] == {};
    GoesFar(StockAt(s, i), Way(i), off, n, 0, op.ok);
    forall r, t | Serves(s, op, r, t)
      ensures t.free == s.free && t.trees == s.trees && r.o == Ret(Copied(off, n, 0, op.ok))
    {
      Covered(StockAt(s, i), StockAt(t, i), Way(i), off, n, op.ok, Fate(r.o.value, false));
      assert t.trees[i] == s.trees[i];
    }
  }

  lemma WriteSolid(s: Shot, op: Op, r: Reply, t: Shot, bn: nat)
    requires op.Write? && Serves(s, op, r, t) && Solid(s) && r.o.value != -1
    ensures SolidAt(t, op.i, bn)
  {
    var i, off, tot := op.i, op.off, r.o.value;
    assert SolidAt(s, i, bn);
    GoesNoFarther(StockAt(s, i), Way(i), off, |op.src|, 0, op.ok);
    if |s.files[i].data| <= bn * BSIZE < off + tot {
      assert off / BSIZE <= bn <= (off + tot - 1) / BSIZE;
      RoutesHas(Way(i), off / BSIZE, Last(off, tot), bn);
    }
  }

  /** Operations keep files solid. */
  lemma ServesSolid(s: Shot, op: Op, r: Reply, t: Shot)
    requires Serves(s, op, r, t) && Solid(s)
    ensures Solid(t)
  {
    forall i: nat, bn: nat | i < |t.files| ensures |t.files| == |t.trees| == |s.files| && SolidAt(t, i, bn) {
      assert SolidAt(s, i, bn);
      if op.Write? && r.o.value != -1 && i == op.i { WriteSolid(s, op, r, t, bn); }
    }
  }

  lemma {:induction false} TracesSolid(hist: seq<Shot>, ops: seq<Op>, rs: seq<Reply>, k: nat)
    requires Traces(hist, ops, rs) && Solid(hist[0]) && k <= |rs|
    ensures Solid(hist[k])
  {
    if k > 0 {
      var j := k - 1;
      TracesSolid(hist, ops, rs, j);
      assert Serves(hist[j], ops[j], rs[j], hist[j + 1]);
      ServesSolid(hist[j], ops[j], rs[j], hist[k]);
    }
  }
}
