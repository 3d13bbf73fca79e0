/** A run that loses blocks, and when it does. */
module Leaks {
  import opened Blocks
  import opened Volume
  import opened Layout
  import opened Ledger
  import opened Demand
  import opened FileSystem
  import opened Sizes
  import opened Replies
  import opened Runs
  import opened Accounts

  /** Create a file, write data to it, remove it, create another. */
  function Leaking(src: seq<Byte>): (ops: seq<Op>) {
    [Create(2), Write(1, 0, src, (_, _) => true), Remove(1), Create(2)]
  }

  /** The blocks it takes to begin a doubly indirect tree: all direct and indirect ones, and two index blocks. */
  const DEEP: nat := NDIRECT + NINDIRECT + 3

  lemma NeedIs(k: nat)
    requires k <= MAXBYTES
    ensures Need({}, Way(1), 0, k) == Cost(Last(0, k)) && Last(0, k) <= MAXFILE
  {
    if k > 0 { assert (k - 1) / BSIZE < MAXFILE; }
    CostIs(1, Last(0, k));
    assert Extent(Way(1), 0, k) - {} == Extent(Way(1), 0, k);
  }

  lemma CostMore(b: nat, c: nat)
    requires b <= c
    ensures Cost(b) <= Cost(c)
  {
    if b > NDIRECT + NINDIRECT { assert (b - NDIRECT - NINDIRECT - 1) / NINDIRECT <= (c - NDIRECT - NINDIRECT - 1) / NINDIRECT; }
  }

  /** A closed part of the first 141 blocks' slots that lacks the doubly indirect one is within the first 140's. */
  lemma NotYetDeep(tree: set<Slot>)
    requires Closed(1, tree) && tree <= Routes(Way(1), 0, NDIRECT + NINDIRECT + 1) && Addr(1, NDIRECT + 1) !in tree
    ensures |tree| <= Cost(NDIRECT + NINDIRECT)
  {
    var b := NDIRECT + NINDIRECT;
    forall s | s in tree ensures s in Routes(Way(1), 0, b) {
      assert (s.L1? ==> Up(s) in tree) && (s.L2? ==> Up(s) in tree && Up(Up(s)) in tree);
      RoutesAre(1, b, s);
      RoutesAre(1, b + 1, s);
    }
    CostIs(1, b);
    Counts(tree, Routes(Way(1), 0, b));
  }

  /** Which writes into an empty file leave it with a doubly indirect tree. */
  lemma WritesDeep(s: Shot, src: seq<Byte>, ok: (nat, nat) -> bool, o: Outcome, t: Shot)
    requires |s.files| >= 2 && s.files[1] == File(2, []) && |s.trees| == |s.files| && s.trees[1] == {} && forall a, b :: ok(a, b)
    requires Writes(s, 1, 0, src, ok, o, t)
    ensures Deepens(t, 1) <==> FLAT < |src| <= MAXBYTES && s.free >= DEEP
    ensures |t.files| == |s.files| && t.files[1].kind == 2
  {
    if |src| <= MAXBYTES {
      var f, n := WriteFate(s, 1, 0, src, ok), |src|;
      assert Extent(Way(1), 0, 0) == {};
      GoesTells(StockAt(s, 1), Way(1), 0, n, 0, ok);
      var end := Asked(0, n, f.tot);
      NeedIs(end);
      ExtentDeep(1, 0, end);
      if f.tot == n {
        if n > FLAT { CostMore(NDIRECT + NINDIRECT + 1, Last(0, n)); }
      } else {
        CutShort(s, src, f, end, t);
      }
    }
  }

  /** The volume is full before the write is done. */
  lemma CutShort(s: Shot, src: seq<Byte>, f: Fate, end: nat, t: Shot)
    requires f.tot < |src| <= MAXBYTES && end == Asked(0, |src|, f.tot) && Even(0, f.tot)
    requires |s.trees| == |t.trees| >= 2 && s.trees[1] == {} && Closed(1, t.trees[1]) && t.free + |t.trees[1]| == s.free
    requires Leaves(StockAt(s, 1), StockAt(t, 1), Way(1), 0, |src|, f.tot)
    requires Need({}, Way(1), 0, f.tot) <= s.free < Need({}, Way(1), 0, end)
    requires !(f.tot >= FLAT && s.free + 1 < Need({}, Way(1), 0, end))
    ensures Deepens(t, 1) <==> FLAT < |src| && s.free >= DEEP
  {
    Blockwise(0, |src|, f.tot, end - f.tot);
    NeedIs(f.tot);
    NeedIs(end);
    Between(s.free, t.free, t.trees[1], Extent(Way(1), 0, f.tot), Extent(Way(1), 0, end));
    FullAt(Last(0, f.tot), Last(0, end), f.tot, |src|, s.free, t.trees[1]);
  }

  lemma Between(free: nat, left: nat, tree: set<Slot>, a: set<Slot>, c: set<Slot>)
    requires {} + a <= tree && Draws(Stock(free, {}), Stock(left, tree), c) && free < |c - {}|
    ensures a <= tree <= c && left == 0
  {
    assert a <= {} + a && {} + c <= c;
  }

  lemma FullAt(bn: nat, next: nat, tot: nat, n: nat, free: nat, tree: set<Slot>)
    requires next == bn + 1 && tot == bn * BSIZE < n <= MAXBYTES && Cost(bn) <= free < Cost(next) && (tot >= FLAT ==> free + 1 >= Cost(next))
    requires Routes(Way(1), 0, bn) <= tree <= Routes(Way(1), 0, next) && Closed(1, tree) && |tree| == free
    ensures Addr(1, NDIRECT + 1) in tree <==> FLAT < n && free >= DEEP
  {
    var flat := NDIRECT + NINDIRECT;
    RoutesAre(1, bn, Addr(1, NDIRECT + 1));
    RoutesAre(1, bn + 1, Addr(1, NDIRECT + 1));
    if bn < flat {
      CostMore(bn + 1, flat);
    } else if bn == flat {
      if Addr(1, NDIRECT + 1) !in tree { NotYetDeep(tree); }
    } else {
      CostMore(flat + 1, bn);
    }
  }

  /** How the second operation goes on a new file system. */
  ghost function LeakFate(src: seq<Byte>, free: nat): (f: Fate) {
    Goes(Stock(free, {}), Way(1), 0, |src|, 0, (_, _) => true)
  }

  lemma CreatesFirst(s: Shot, o: Outcome, t: Shot)
    requires Creates(s, 2, o, t) && |s.files| >= 2 && s.files[1].kind == 0
    ensures o == Ret(1) && |t.files| == |s.files| == |t.trees| && t.files[1] == File(2, []) && t.free == s.free && t.trees[1] == {}
  {
  }

  lemma RemovesDeep(s: Shot, r: Reply, t: Shot)
    requires Empties(s, 1, 0, r, t)
    ensures |t.files| == |s.files| && t.files[1].kind == 0 && (Deepens(t, 1) <==> Deepens(s, 1))
  {
  }

  /** Where a leaking run stands after k operations. */
  ghost predicate Leads(s: Shot, src: seq<Byte>, free: nat, k: nat) {
    && |s.files| == |s.trees| >= 2
    && (k == 0 ==> s.files[1].kind == 0 && s.free == free && s.trees[1] == {})
    && (k == 1 ==> s.files[1] == File(2, []) && s.free == free && s.trees[1] == {})
    && (k == 2 || k == 3 ==> s.files[1].kind == (if k == 2 then 2 else 0) && (Deepens(s, 1) <==> FLAT < |src| <= MAXBYTES && free >= DEEP))
  }

  lemma LeadsOn(s: Shot, src: seq<Byte>, free: nat, k: nat, r: Reply, t: Shot)
    requires k < 3 && Leads(s, src, free, k) && Serves(s, Leaking(src)[k], r, t)
    ensures Leads(t, src, free, k + 1)
  {
    if k == 0 {
      CreatesFirst(s, r.o, t);
    } else if k == 1 {
      WritesDeep(s, src, Leaking(src)[1].ok, r.o, t);
    } else {
      RemovesDeep(s, r, t);
    }
  }

  lemma {:induction false} LeadsTo(hist: seq<Shot>, rs: seq<Reply>, src: seq<Byte>, free: nat, k: nat)
    requires Traces(hist, Leaking(src), rs) && Leads(hist[0], src, free, 0) && k <= |rs| && k <= 3
    ensures Leads(hist[k], src, free, k)
  {
    if k > 0 {
      var j := k - 1;
      LeadsTo(hist, rs, src, free, j);
      assert Serves(hist[j], Leaking(src)[j], rs[j], hist[j + 1]);
      LeadsOn(hist[j], src, free, j, rs[j], hist[j + 1]);
    }
  }

  /** Which operation may stop the machine, and whether the last one uses an inode with a doubly indirect tree. */
  lemma LeakingServed(hist: seq<Shot>, rs: seq<Reply>, src: seq<Byte>, free: nat)
    requires Traces(hist, Leaking(src), rs) && Leads(hist[0], src, free, 0)
    ensures |rs| < 4 && Stops(hist[|rs|], Leaking(src)[|rs|]) ==> |src| <= MAXBYTES && LeakFate(src, free).hang
    ensures |rs| == 4 ==> |src| > MAXBYTES || !LeakFate(src, free).hang
    ensures |rs| == 4 ==> (Reused(hist, Leaking(src), rs, 4) <==> FLAT < |src| <= MAXBYTES && free >= DEEP)
  {
    LeadsTo(hist, rs, src, free, if |rs| < 4 then |rs| else 3);
    if |rs| == 4 {
      LeadsTo(hist, rs, src, free, 1);
      assert Serves(hist[0], Leaking(src)[0], rs[0], hist[1]);
      assert Serves(hist[1], Leaking(src)[1], rs[1], hist[2]);
      assert Serves(hist[3], Leaking(src)[3], rs[3], hist[4]);
      CreatesFirst(hist[0], rs[0].o, hist[1]);
      CreatesFirst(hist[3], rs[3].o, hist[4]);
      LastReuse(hist, rs, src);
    }
  }

  lemma LastReuse(hist: seq<Shot>, rs: seq<Reply>, src: seq<Byte>)
    requires |hist| == 5 && |rs| == 4 && rs[0].o == Ret(1) == rs[3].o && !Deepens(hist[0], 1)
    ensures Reused(hist, Leaking(src), rs, 4) <==> Deepens(hist[3], 1)
  {
    assert Reuses(hist, Leaking(src), rs, 3) <==> Deepens(hist[3], 1);
  }

  /** On every new file system with at least two inodes, for all data: the four operations are served, or stop at the
      write exactly when it does, and blocks are lost exactly when the data goes past the indirect blocks and there
      are the blocks to begin a doubly indirect tree. */
  method LeakRun(g: Geometry, src: seq<Byte>) returns (fs: Fs, rs: seq<Reply>, stopped: bool, ghost hist: seq<Shot>)
    requires g.Valid() && g.ninodes >= 2 && |src| < 0x1_0000_0000
    ensures fs.g == g && Complete(hist, Leaking(src), rs, stopped) && hist[0] == Formatted(g.ninodes, g.size - g.start)
    ensures stopped <==> |src| <= MAXBYTES && LeakFate(src, g.size - g.start).hang
    ensures !stopped ==> Sound(fs) && Shows(fs.vol, hist[4])
    ensures !stopped ==> (NoLeak(fs.vol) <==> !(FLAT < |src| <= MAXBYTES && g.size - g.start >= DEEP))
  {
    ghost var s;
    fs, s := Mkfs(g);
    ghost var v := fs.vol;
    rs, stopped, hist := Run(fs, Leaking(src), s);
    LeakingServed(hist, rs, src, g.size - g.start);
    if !stopped {
      NoLeakRun(hist, Leaking(src), rs, v, fs.vol);
    }
  }

  /** 141 blocks of data on a volume with room for 143. */
  method LeakExample() returns (fs: Fs, src: seq<Byte>, rs: seq<Reply>, ghost hist: seq<Shot>)
    ensures |src| == BSIZE * 141 && Complete(hist, Leaking(src), rs, false) && hist[0] == Formatted(10, 143)
    ensures Sound(fs) && Shows(fs.vol, hist[4]) && !NoLeak(fs.vol)
  {
    var g := Geometry(149, 2, 10, 5, 6);
    src := seq(BSIZE * 141, _ => 0);
    NoHang(src);
    var stopped;
    fs, rs, stopped, hist := LeakRun(g, src);
  }

  lemma NoHang(src: seq<Byte>)
    requires |src| == BSIZE * (NDIRECT + NINDIRECT + 1)
    ensures !LeakFate(src, DEEP).hang
  {
    assert Extent(Way(1), 0, 0) == {};
    GoesTells(Stock(DEEP, {}), Way(1), 0, |src|, 0, (_, _) => true);
    var f := LeakFate(src, DEEP);
    if f.tot < |src| {
      NeedIs(Asked(0, |src|, f.tot));
      CostMore(Last(0, Asked(0, |src|, f.tot)), NDIRECT + NINDIRECT + 1);
    }
  }
}
