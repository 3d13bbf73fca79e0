/** How many blocks a read or write takes from the free ones, and how far it gets with them: computed
    from the file's tree and the free count before the call. */
module Demand {
  import opened Blocks
  import opened Volume

  /** min(n, BSIZE - off % BSIZE): what fits into the block at offset off. */
  function Chunk(off: nat, n: nat): (m: nat)
    ensures m <= n && off % BSIZE + m <= BSIZE && (n > 0 ==> m > 0)
  {
    if n < BSIZE - off % BSIZE then n else BSIZE - off % BSIZE
  }

  /** How many of the n bytes at off are copied, tot of them already, when ok(tot, m) tells whether
      copying the next m succeeds. */
  function Copied(off: nat, n: nat, tot: nat, ok: (nat, nat) -> bool): (c: nat)
    ensures tot <= c && (tot <= n ==> c <= n)
    decreases n - tot
  {
    if tot >= n || !ok(tot, Chunk(off + tot, n - tot)) then tot
    else Copied(off, n, tot + Chunk(off + tot, n - tot), ok)
  }

  lemma {:induction false} CopiesAll(off: nat, n: nat, tot: nat, ok: (nat, nat) -> bool)
    requires tot <= n && forall a, b :: ok(a, b)
    ensures Copied(off, n, tot, ok) == n
    decreases n - tot
  {
    if tot < n { CopiesAll(off, n, tot + Chunk(off + tot, n - tot), ok); }
  }

  /** All that route goes through for blocks a to b, without b. */
  function Routes<T>(route: nat -> set<T>, a: nat, b: nat): (t: set<T>)
    decreases b
  {
    if b <= a then {} else Routes(route, a, b - 1) + route(b - 1)
  }

  /** One past the last block that the n bytes at off lie in. */
  function Last(off: nat, n: nat): (b: nat) {
    if n == 0 then off / BSIZE else (off + n - 1) / BSIZE + 1
  }

  /** The slots that the n bytes at off need filled. */
  function Extent<T>(route: nat -> set<T>, off: nat, n: nat): (t: set<T>) {
    Routes(route, off / BSIZE, Last(off, n))
  }

  /** How many blocks the n bytes at off still need where the slots in tree are filled. */
  function Need<T>(tree: set<T>, route: nat -> set<T>, off: nat, n: nat): (k: nat) {
    |Extent(route, off, n) - tree|
  }

  /** The free blocks, and the filled slots of one file. */
  datatype Stock<T> = Stock(free: nat, tree: set<T>)

  /** How the loop of readi or writei ends: the bytes moved, and whether bmap stopped the machine. */
  datatype Fate = Fate(tot: nat, hang: bool)

  /** Where the loop gets from tot on: it ends at the first chunk that lacks a block or is not copied.
      Lacking the index block as well, in the doubly indirect range, is BUG_ON(!addr). */
  function Goes<T>(s: Stock<T>, route: nat -> set<T>, off: nat, n: nat, tot: nat, ok: (nat, nat) -> bool): (f: Fate)
    decreases n - tot
  {
    if tot >= n then Fate(tot, false)
    else
      var m := Chunk(off + tot, n - tot);
      var need := Need(s.tree, route, off, tot + m);
      if need > s.free then Fate(tot, off + tot >= FLAT && s.free + 1 < need)
      else if !ok(tot, m) then Fate(tot, false)
      else Goes(s, route, off, n, tot + m, ok)
  }

  /** How far blocks were asked for when tot of n bytes were moved. */
  function Asked(off: nat, n: nat, tot: nat): (r: nat) {
    if tot >= n then n else tot + Chunk(off + tot, n - tot)
  }

  /** Filling the slots in c: all of them, at one block each, or as many as there are free blocks. */
  ghost predicate Draws<T(!new)>(s: Stock<T>, t: Stock<T>, c: set<T>) {
    && s.tree <= t.tree <= s.tree + c
    && (if |c - s.tree| <= s.free then t == Stock(s.free - |c - s.tree|, s.tree + c) else t.free == 0)
  }

  /** What the loop leaves: the slots of what was moved are filled, and of what was asked for as many as
      there were blocks. */
  ghost predicate Leaves<T(!new)>(s: Stock<T>, t: Stock<T>, route: nat -> set<T>, off: nat, n: nat, tot: nat) {
    && s.tree + Extent(route, off, tot) <= t.tree
    && Draws(s, t, Extent(route, off, Asked(off, n, tot)))
  }

  /** The whole outcome of the loop, as it follows from the stock before it. */
  ghost predicate Ends<T(!new)>(s: Stock<T>, t: Stock<T>, route: nat -> set<T>, off: nat, n: nat, ok: (nat, nat) -> bool, f: Fate) {
    f == Goes(s, route, off, n, 0, ok) && Leaves(s, t, route, off, n, f.tot)
  }

  /** Between chunks the loop stands at the beginning of a block. */
  predicate Even(off: nat, tot: nat) {
    tot == 0 || (off + tot) % BSIZE == 0
  }

  lemma Blockwise(off: nat, n: nat, tot: nat, m: nat)
    requires tot < n && Even(off, tot) && m == Chunk(off + tot, n - tot)
    ensures Last(off, tot) == (off + tot) / BSIZE && Last(off, tot + m) == (off + tot) / BSIZE + 1
    ensures tot + m == n || Even(off, tot + m)
  {
    var q, x := (off + tot) / BSIZE, (off + tot) % BSIZE;
    assert off + tot == BSIZE * q + x;
    if tot > 0 { assert (off + tot - 1) / BSIZE == q - 1; }
    assert (off + tot + m - 1) / BSIZE == q;
  }

  /** One more chunk needs one more route. */
  lemma ExtentStep<T>(route: nat -> set<T>, off: nat, n: nat, tot: nat, m: nat)
    requires tot < n && Even(off, tot) && m == Chunk(off + tot, n - tot)
    ensures Extent(route, off, tot + m) == Extent(route, off, tot) + route((off + tot) / BSIZE)
  {
    Blockwise(off, n, tot, m);
  }

  /** Drawing for a and then for c is drawing for both. */
  lemma DrawsMore<T(!new)>(s: Stock<T>, t: Stock<T>, u: Stock<T>, a: set<T>, c: set<T>)
    requires |a - s.tree| <= s.free && t == Stock(s.free - |a - s.tree|, s.tree + a) && Draws(t, u, c)
    ensures |(a + c) - s.tree| == |a - s.tree| + |c - t.tree| && Draws(s, u, a + c) && s.tree + a <= u.tree
  {
    assert (a + c) - s.tree == (a - s.tree) + (c - t.tree);
    assert s.tree + a + c == s.tree + (a + c);
  }

  lemma NeedStep<T>(tree: set<T>, route: nat -> set<T>, off: nat, n: nat, tot: nat, next: nat)
    requires tot < n && Even(off, tot) && next == tot + Chunk(off + tot, n - tot)
    ensures Need(tree, route, off, tot) <= Need(tree, route, off, next)
  {
    ExtentStep(route, off, n, tot, next - tot);
    Counts(Extent(route, off, tot) - tree, Extent(route, off, next) - tree);
  }

  /** A path of the loop: the counts it has at the head of its turns. */
  ghost predicate Path(path: seq<nat>, off: nat, n: nat, tot: nat, ok: (nat, nat) -> bool) {
    && |path| > 0 && path[0] == 0 && path[|path| - 1] == tot
    && forall k: nat {:trigger Hops(path, k, off, n, ok)} | k + 1 < |path| :: Hops(path, k, off, n, ok)
  }

  ghost predicate Hops(path: seq<nat>, k: nat, off: nat, n: nat, ok: (nat, nat) -> bool)
    requires k + 1 < |path|
  {
    Hop(path[k], path[k + 1], off, n, ok)
  }

  /** One turn copies the whole chunk from a on and gets to b. */
  ghost predicate Hop(a: nat, b: nat, off: nat, n: nat, ok: (nat, nat) -> bool) {
    a < n && ok(a, Chunk(off + a, n - a)) && b == a + Chunk(off + a, n - a)
  }

  lemma Hopped(a: nat, b: nat, off: nat, n: nat, ok: (nat, nat) -> bool)
    requires a < n && b == Asked(off, n, a) && ok(a, b - a)
    ensures Hop(a, b, off, n, ok)
  {
  }

  ghost predicate Reaches(off: nat, n: nat, tot: nat, ok: (nat, nat) -> bool) {
    exists path: seq<nat> {:trigger Path(path, off, n, tot, ok)} :: Path(path, off, n, tot, ok)
  }

  lemma ReachesMore(off: nat, n: nat, tot: nat, next: nat, ok: (nat, nat) -> bool)
    requires Reaches(off, n, tot, ok) && Hop(tot, next, off, n, ok)
    ensures Reaches(off, n, next, ok)
  {
    var path :| Path(path, off, n, tot, ok);
    var longer := path + [next];
    forall k: nat | k + 1 < |longer| ensures Hops(longer, k, off, n, ok) {
      assert k + 1 < |path| ==> Hops(path, k, off, n, ok);
    }
    assert Path(longer, off, n, next, ok);
  }

  lemma PathBefore(path: seq<nat>, off: nat, n: nat, tot: nat, ok: (nat, nat) -> bool)
    requires Path(path, off, n, tot, ok) && |path| > 1
    ensures var k := |path| - 2; Hop(path[k], tot, off, n, ok) && Path(path[..k + 1], off, n, path[k], ok)
  {
    var last := |path| - 2;
    assert Hops(path, last, off, n, ok);
    var shorter := path[..last + 1];
    forall k: nat | k + 1 < |shorter| ensures Hops(shorter, k, off, n, ok) {
      assert Hops(path, k, off, n, ok);
    }
  }

  lemma {:induction false} PathEven(path: seq<nat>, off: nat, n: nat, tot: nat, ok: (nat, nat) -> bool)
    requires Path(path, off, n, tot, ok)
    ensures tot <= n && (tot == n || Even(off, tot))
    decreases |path|
  {
    if |path| > 1 {
      var k := |path| - 2;
      PathBefore(path, off, n, tot, ok);
      PathEven(path[..k + 1], off, n, path[k], ok);
      Blockwise(off, n, path[k], tot - path[k]);
    }
  }

  lemma {:induction false} PathCopied(path: seq<nat>, off: nat, n: nat, tot: nat, ok: (nat, nat) -> bool)
    requires Path(path, off, n, tot, ok)
    ensures Copied(off, n, tot, ok) == Copied(off, n, 0, ok)
    decreases |path|
  {
    if |path| > 1 {
      var k := |path| - 2;
      PathBefore(path, off, n, tot, ok);
      PathCopied(path[..k + 1], off, n, path[k], ok);
    }
  }

  /** A turn whose block is there and whose chunk is copied decides nothing. */
  lemma GoesOn<T>(s: Stock<T>, route: nat -> set<T>, off: nat, n: nat, a: nat, b: nat, ok: (nat, nat) -> bool)
    requires Hop(a, b, off, n, ok) && Need(s.tree, route, off, b) <= s.free
    ensures Goes(s, route, off, n, a, ok) == Goes(s, route, off, n, b, ok)
  {
    var m := Chunk(off + a, n - a);
    assert a + m == b && Need(s.tree, route, off, a + m) <= s.free && ok(a, m);
  }

  /** A loop whose blocks sufficed so far has its fate ahead of it. */
  lemma {:induction false} PathGoes<T>(path: seq<nat>, s: Stock<T>, route: nat -> set<T>, off: nat, n: nat, tot: nat, ok: (nat, nat) -> bool)
    requires Path(path, off, n, tot, ok) && Need(s.tree, route, off, tot) <= s.free
    ensures Goes(s, route, off, n, tot, ok) == Goes(s, route, off, n, 0, ok)
    decreases |path|
  {
    if |path| > 1 {
      var k := |path| - 2;
      PathBefore(path, off, n, tot, ok);
      PathEven(path[..k + 1], off, n, path[k], ok);
      NeedStep(s.tree, route, off, n, path[k], tot);
      PathGoes(path[..k + 1], s, route, off, n, path[k], ok);
      GoesOn(s, route, off, n, path[k], tot, ok);
    }
  }

  /** Where a loop that began with s stands after tot bytes: it took a block for each empty slot so far. */
  ghost predicate Going<T>(s: Stock<T>, t: Stock<T>, route: nat -> set<T>, off: nat, n: nat, tot: nat, ok: (nat, nat) -> bool) {
    && Reaches(off, n, tot, ok) && Need(s.tree, route, off, tot) <= s.free
    && t == Stock(s.free - Need(s.tree, route, off, tot), s.tree + Extent(route, off, tot))
  }

  lemma GoingStart<T>(s: Stock<T>, route: nat -> set<T>, off: nat, n: nat, ok: (nat, nat) -> bool)
    ensures Going(s, s, route, off, n, 0, ok)
  {
    assert Path([0], off, n, 0, ok);
    assert Extent(route, off, 0) == {};
    assert s.tree + {} == s.tree && |{} - s.tree| == 0;
  }

  lemma GoingDraws<T(!new)>(s: Stock<T>, t: Stock<T>, u: Stock<T>, route: nat -> set<T>, off: nat, n: nat, tot: nat, next: nat,
                            ok: (nat, nat) -> bool)
    requires Going(s, t, route, off, n, tot, ok) && tot < n && next == tot + Chunk(off + tot, n - tot)
    requires Draws(t, u, route((off + tot) / BSIZE))
    ensures Draws(s, u, Extent(route, off, next)) && s.tree + Extent(route, off, tot) <= u.tree
    ensures Need(s.tree, route, off, next) == Need(s.tree, route, off, tot) + |route((off + tot) / BSIZE) - t.tree|
  {
    var path :| Path(path, off, n, tot, ok);
    PathEven(path, off, n, tot, ok);
    ExtentStep(route, off, n, tot, next - tot);
    DrawsMore(s, t, u, Extent(route, off, tot), route((off + tot) / BSIZE));
  }

  /** What the next chunk needs, from the start and from here. */
  lemma GoingNeeds<T>(s: Stock<T>, t: Stock<T>, route: nat -> set<T>, off: nat, n: nat, tot: nat, next: nat, ok: (nat, nat) -> bool)
    requires Going(s, t, route, off, n, tot, ok) && tot < n && next == Asked(off, n, tot)
    ensures Need(s.tree, route, off, next) == Need(s.tree, route, off, tot) + |route((off + tot) / BSIZE) - t.tree|
  {
    var path :| Path(path, off, n, tot, ok);
    PathEven(path, off, n, tot, ok);
    ExtentStep(route, off, n, tot, next - tot);
    var a, c := Extent(route, off, tot), route((off + tot) / BSIZE);
    assert (a + c) - s.tree == (a - s.tree) + (c - t.tree);
  }

  /** A turn fetched its block and copied its chunk. */
  lemma GoingMore<T(!new)>(s: Stock<T>, t: Stock<T>, u: Stock<T>, route: nat -> set<T>, off: nat, n: nat, tot: nat, next: nat, ok: (nat, nat) -> bool)
    requires Going(s, t, route, off, n, tot, ok) && Hop(tot, next, off, n, ok)
    requires Draws(t, u, route((off + tot) / BSIZE)) && |route((off + tot) / BSIZE) - t.tree| <= t.free
    ensures Going(s, u, route, off, n, next, ok)
  {
    ReachesMore(off, n, tot, next, ok);
    GoingDraws(s, t, u, route, off, n, tot, next, ok);
  }

  /** A turn ended the loop: its copy failed, or there was no block, or BUG. */
  lemma GoingEnds<T(!new)>(s: Stock<T>, t: Stock<T>, u: Stock<T>, route: nat -> set<T>, off: nat, n: nat, tot: nat, m: nat,
                           hang: bool, ok: (nat, nat) -> bool)
    requires Going(s, t, route, off, n, tot, ok) && tot < n && m == Chunk(off + tot, n - tot)
    requires Draws(t, u, route((off + tot) / BSIZE))
    requires var need := |route((off + tot) / BSIZE) - t.tree|;
      if need <= t.free then !hang && !ok(tot, m) else hang == (off + tot >= FLAT && t.free + 1 < need)
    ensures Ends(s, u, route, off, n, ok, Fate(tot, hang))
  {
    var next := Asked(off, n, tot);
    GoingDraws(s, t, u, route, off, n, tot, next, ok);
    assert StopsAt(s, route, off, tot, next, hang, ok);
    GoingFate(s, t, route, off, n, tot, next, hang, ok);
  }

  /** The chunk from tot to next is where the loop ends: no room, or not copied. */
  ghost predicate StopsAt<T>(s: Stock<T>, route: nat -> set<T>, off: nat, tot: nat, next: nat, hang: bool, ok: (nat, nat) -> bool)
    requires tot <= next
  {
    var need := Need(s.tree, route, off, next);
    if need <= s.free then !hang && !ok(tot, next - tot) else hang == (off + tot >= FLAT && s.free + 1 < need)
  }

  lemma GoingFate<T>(s: Stock<T>, t: Stock<T>, route: nat -> set<T>, off: nat, n: nat, tot: nat, next: nat, hang: bool, ok: (nat, nat) -> bool)
    requires Going(s, t, route, off, n, tot, ok) && tot < n && next == Asked(off, n, tot) && StopsAt(s, route, off, tot, next, hang, ok)
    ensures Goes(s, route, off, n, 0, ok) == Fate(tot, hang)
  {
    GoesHere(s, route, off, n, tot, next, hang, ok);
    var path :| Path(path, off, n, tot, ok);
    PathGoes(path, s, route, off, n, tot, ok);
  }

  lemma GoesHere<T>(s: Stock<T>, route: nat -> set<T>, off: nat, n: nat, tot: nat, next: nat, hang: bool, ok: (nat, nat) -> bool)
    requires tot < n && next == Asked(off, n, tot) && StopsAt(s, route, off, tot, next, hang, ok)
    ensures Goes(s, route, off, n, tot, ok) == Fate(tot, hang)
  {
  }

  /** Everything was copied. */
  lemma GoingDone<T(!new)>(s: Stock<T>, t: Stock<T>, route: nat -> set<T>, off: nat, n: nat, ok: (nat, nat) -> bool)
    requires Going(s, t, route, off, n, n, ok)
    ensures Ends(s, t, route, off, n, ok, Fate(n, false))
  {
    var path :| Path(path, off, n, n, ok);
    PathGoes(path, s, route, off, n, n, ok);
  }

  lemma {:induction false} RoutesMore<T>(route: nat -> set<T>, a: nat, b: nat, c: nat)
    requires b <= c
    ensures Routes(route, a, b) <= Routes(route, a, c)
    decreases c
  {
    if b < c { RoutesMore(route, a, b, c - 1); }
  }

  lemma {:induction false} RoutesIn<T>(route: nat -> set<T>, a: nat, b: nat, t: set<T>)
    requires forall bn: nat | a <= bn < b :: route(bn) <= t
    ensures Routes(route, a, b) <= t
    decreases b
  {
    if a < b { RoutesIn(route, a, b - 1, t); }
  }

  lemma {:induction false} RoutesHas<T>(route: nat -> set<T>, a: nat, b: nat, bn: nat)
    requires a <= bn < b
    ensures route(bn) <= Routes(route, a, b)
  {
    if bn < b - 1 { RoutesHas(route, a, b - 1, bn); }
  }

  /** More bytes need more. */
  lemma NeedMore<T>(tree: set<T>, route: nat -> set<T>, off: nat, k: nat, n: nat)
    requires k <= n
    ensures Extent(route, off, k) <= Extent(route, off, n) && Need(tree, route, off, k) <= Need(tree, route, off, n)
  {
    if 0 < k { assert (off + k - 1) / BSIZE <= (off + n - 1) / BSIZE; }
    if 0 == k < n { assert off / BSIZE <= (off + n - 1) / BSIZE; }
    RoutesMore(route, off / BSIZE, Last(off, k), Last(off, n));
    Counts(Extent(route, off, k) - tree, Extent(route, off, n) - tree);
  }

  /** With blocks for all of it, a loop moves all that can be copied, and does not stop the machine. */
  lemma {:induction false} GoesFar<T>(s: Stock<T>, route: nat -> set<T>, off: nat, n: nat, tot: nat, ok: (nat, nat) -> bool)
    requires tot <= n && Need(s.tree, route, off, n) <= s.free
    ensures Goes(s, route, off, n, tot, ok) == Fate(Copied(off, n, tot, ok), false)
    decreases n - tot
  {
    if tot < n {
      var next := tot + Chunk(off + tot, n - tot);
      NeedMore(s.tree, route, off, next, n);
      GoesFar(s, route, off, n, next, ok);
    }
  }

  /** A loop moves no more than can be copied, and never more than n. */
  lemma {:induction false} GoesNoFarther<T>(s: Stock<T>, route: nat -> set<T>, off: nat, n: nat, tot: nat, ok: (nat, nat) -> bool)
    requires tot <= n
    ensures tot <= Goes(s, route, off, n, tot, ok).tot <= Copied(off, n, tot, ok) <= n
    decreases n - tot
  {
    if tot < n { GoesNoFarther(s, route, off, n, tot + Chunk(off + tot, n - tot), ok); }
  }

  /** Where every slot is filled a loop takes no block. */
  lemma Covered<T(!new)>(s: Stock<T>, t: Stock<T>, route: nat -> set<T>, off: nat, n: nat, ok: (nat, nat) -> bool, f: Fate)
    requires Ends(s, t, route, off, n, ok, f) && Extent(route, off, n) <= s.tree
    ensures t == s && f == Fate(Copied(off, n, 0, ok), false)
  {
    assert Extent(route, off, n) - s.tree == {};
    GoesFar(s, route, off, n, 0, ok);
    NeedMore(s.tree, route, off, Asked(off, n, f.tot), n);
    assert Extent(route, off, Asked(off, n, f.tot)) - s.tree == {};
  }

  lemma GoesUntil<T>(s: Stock<T>, route: nat -> set<T>, off: nat, n: nat, tot: nat, next: nat, ok: (nat, nat) -> bool)
    requires tot < n && next == Asked(off, n, tot) && (Need(s.tree, route, off, next) > s.free || !ok(tot, next - tot))
    ensures var f := Goes(s, route, off, n, tot, ok); f.tot == tot && StopsAt(s, route, off, tot, next, f.hang, ok)
  {
  }

  /** Why a loop ended where it did, and where that can be. */
  ghost predicate Explains<T>(s: Stock<T>, route: nat -> set<T>, off: nat, n: nat, f: Fate, ok: (nat, nat) -> bool) {
    && f.tot <= n && Need(s.tree, route, off, f.tot) <= s.free && (f.tot == n || Even(off, f.tot))
    && (if f.tot == n then !f.hang else StopsAt(s, route, off, f.tot, Asked(off, n, f.tot), f.hang, ok))
  }

  lemma {:induction false} Told<T>(s: Stock<T>, route: nat -> set<T>, off: nat, n: nat, tot: nat, ok: (nat, nat) -> bool, f: Fate)
    requires tot <= n && Need(s.tree, route, off, tot) <= s.free && (tot == n || Even(off, tot)) && f == Goes(s, route, off, n, tot, ok)
    ensures Explains(s, route, off, n, f, ok)
    decreases n - tot
  {
    if tot < n {
      var next := Asked(off, n, tot);
      if Need(s.tree, route, off, next) <= s.free && ok(tot, next - tot) {
        Blockwise(off, n, tot, next - tot);
        Hopped(tot, next, off, n, ok);
        GoesOn(s, route, off, n, tot, next, ok);
        Told(s, route, off, n, next, ok, f);
      } else {
        GoesUntil(s, route, off, n, tot, next, ok);
      }
    }
  }

  lemma GoesTells<T>(s: Stock<T>, route: nat -> set<T>, off: nat, n: nat, tot: nat, ok: (nat, nat) -> bool)
    requires tot <= n && Need(s.tree, route, off, tot) <= s.free && (tot == n || Even(off, tot))
    ensures Explains(s, route, off, n, Goes(s, route, off, n, tot, ok), ok)
  {
    Told(s, route, off, n, tot, ok, Goes(s, route, off, n, tot, ok));
  }

  lemma {:induction false} RoutesWithin<T>(route: nat -> set<T>, a: nat, b: nat, c: nat)
    requires b <= c
    ensures Routes(route, a, b) <= Routes(route, 0, c)
    decreases b
  {
    if a < b {
      RoutesWithin(route, a, b - 1, c);
      RoutesHas(route, 0, c, b - 1);
    }
  }

  /** What part of a file needs, the whole needs. */
  lemma ExtentWithin<T>(route: nat -> set<T>, off: nat, k: nat, n: nat)
    requires k == 0 || off + k <= n
    ensures Extent(route, off, k) <= Extent(route, 0, n)
  {
    if k > 0 { assert (off + k - 1) / BSIZE <= (n - 1) / BSIZE; }
    if k == 0 { assert Extent(route, off, k) == {}; } else { RoutesWithin(route, off / BSIZE, Last(off, k), Last(0, n)); }
  }

  /** Slots in c, and no other, were filled, at one block each. */
  ghost predicate Grown<T(!new)>(s: Stock<T>, t: Stock<T>, c: set<T>) {
    s.tree <= t.tree <= s.tree + c && s.free == t.free + |t.tree - s.tree|
  }

  lemma GrownTrans<T(!new)>(s: Stock<T>, t: Stock<T>, u: Stock<T>, c: set<T>)
    requires Grown(s, t, c) && Grown(t, u, c)
    ensures Grown(s, u, c)
  {
    assert u.tree - s.tree == (u.tree - t.tree) + (t.tree - s.tree);
  }

  lemma GrownMore<T(!new)>(s: Stock<T>, t: Stock<T>, c: set<T>, d: set<T>)
    requires Grown(s, t, c) && c <= d
    ensures Grown(s, t, d)
  {
  }

  /** n bytes within one block are moved all or not at all, as there is room for them. */
  lemma OneChunk<T>(s: Stock<T>, route: nat -> set<T>, off: nat, n: nat, ok: (nat, nat) -> bool)
    requires 0 < n && Chunk(off, n) == n && ok(0, n)
    ensures var f := Goes(s, route, off, n, 0, ok);
      if Need(s.tree, route, off, n) <= s.free then f == Fate(n, false)
      else f == Fate(0, off >= FLAT && s.free + 1 < Need(s.tree, route, off, n))
  {
  }

  /** Filling all the slots in c, at one block each. */
  ghost predicate Drew<T(!new)>(s: Stock<T>, t: Stock<T>, c: set<T>) {
    |c - s.tree| <= s.free && t == Stock(s.free - |c - s.tree|, s.tree + c)
  }

  /** What c needs after all of a were filled. */
  lemma DrewNeeds<T(!new)>(s: Stock<T>, t: Stock<T>, a: set<T>, c: set<T>, both: set<T>)
    requires Drew(s, t, a) && both == a + c
    ensures |both - s.tree| == |a - s.tree| + |c - t.tree|
  {
    assert both - s.tree == (a - s.tree) + (c - t.tree);
  }

  lemma DrewMore<T(!new)>(s: Stock<T>, t: Stock<T>, u: Stock<T>, a: set<T>, c: set<T>, both: set<T>)
    requires Drew(s, t, a) && Draws(t, u, c) && both == a + c && |c - t.tree| <= t.free
    ensures Drew(s, u, both)
  {
    DrewNeeds(s, t, a, c, both);
    assert s.tree + a + c == s.tree + both;
  }

  lemma {:induction false} RoutesJoin<T>(route: nat -> set<T>, a: nat, b: nat, c: nat)
    requires a <= b <= c
    ensures Routes(route, 0, c) == Routes(route, 0, b) + Routes(route, a, c)
    decreases c
  {
    if b < c {
      RoutesJoin(route, a, b, c - 1);
    } else {
      RoutesWithin(route, a, c, c);
    }
  }

  /** The first a bytes and the n after them. */
  lemma ExtentJoin<T>(route: nat -> set<T>, a: nat, n: nat, end: nat)
    requires n > 0 && end == a + n
    ensures Extent(route, 0, end) == Extent(route, 0, a) + Extent(route, a, n)
  {
    assert a / BSIZE <= Last(0, a) <= Last(0, end) == Last(a, n);
    RoutesJoin(route, a / BSIZE, Last(0, a), Last(0, end));
  }

  /** A chunk of a transfer at off begins after a bytes: at the start, and where a block does. */
  predicate Begins(off: nat, a: nat) {
    a == 0 || (off + a) % 512 == 0
  }

  /** Its length: to the end of the block, or of the transfer. */
  function Piece(off: nat, n: nat, a: nat): (m: int) {
    if n - a < 512 - (off + a) % 512 then n - a else 512 - (off + a) % 512
  }

  /** The chunks before c can be copied. */
  ghost predicate CopiesTo(off: nat, n: nat, c: nat, ok: (nat, nat) -> bool) {
    c <= n && forall a: nat {:trigger Begins(off, a)} | a < c && Begins(off, a) :: ok(a, Piece(off, n, a))
  }

  lemma {:induction false} CopiedFrom(off: nat, n: nat, tot: nat, ok: (nat, nat) -> bool)
    requires CopiesTo(off, n, tot, ok) && (tot == n || Begins(off, tot))
    ensures var c := Copied(off, n, tot, ok);
      CopiesTo(off, n, c, ok) && (c == n || (Begins(off, c) && !ok(c, Piece(off, n, c))))
    decreases n - tot
  {
    var m := Chunk(off + tot, n - tot);
    if tot < n && ok(tot, m) {
      forall a: nat | a < tot + m && Begins(off, a) ensures ok(a, Piece(off, n, a)) {
        if a > tot { Boundary(off, n, tot, m, a); }
      }
      Boundary(off, n, tot, m, tot + m);
      CopiedFrom(off, n, tot + m, ok);
    }
  }

  /** The next chunk begins at the next multiple of 512, or at the end. */
  lemma Boundary(off: nat, n: nat, tot: nat, m: nat, a: nat)
    requires tot < n && m == Chunk(off + tot, n - tot) && tot < a <= tot + m
    ensures a < tot + m ==> !Begins(off, a)
    ensures a == tot + m < n ==> Begins(off, a)
  {
    var r := (off + tot) % 512;
    if a < tot + m {
      assert (off + a) % 512 == r + (a - tot);
    } else if a < n {
      assert (off + a) % 512 == (r + m) % 512;
    }
  }

  /** What can be copied of n bytes at off: chunk by chunk, up to the first that cannot. */
  lemma CopiedIs(off: nat, n: nat, ok: (nat, nat) -> bool)
    ensures var c := Copied(off, n, 0, ok);
      CopiesTo(off, n, c, ok) && (c == n || (Begins(off, c) && !ok(c, Piece(off, n, c))))
  {
    CopiedFrom(off, n, 0, ok);
  }

  /** Copies that all succeed copy everything. */
  lemma {:induction false} CopiedAll(off: nat, n: nat, tot: nat, ok: (nat, nat) -> bool)
    requires tot <= n && forall a: nat, m: nat {:trigger ok(a, m)} :: ok(a, m)
    ensures Copied(off, n, tot, ok) == n
    decreases n - tot
  {
    if tot < n { CopiedAll(off, n, tot + Chunk(off + tot, n - tot), ok); }
  }
}
