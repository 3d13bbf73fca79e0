/** The block allocator, the inode block map and file reads and writes. */
module FileSystem {
  import opened Blocks
  import opened Volume
  import opened Layout
  import opened DiskImage
  import opened Truncation
  import opened Ledger
  import opened Demand

  /** Bit bi of the bitmap block for blocks b, b + 1, ... speaks of block b + bi. */
  lemma ScanAt(g: Geometry, disk: Disk, b: nat, bi: nat)
    requires g.Valid() && |disk| == g.size && b % BPB == 0 && bi < BPB && b + bi < g.size
    ensures g.BBlock(b) < g.start
    ensures UsedBit(g, disk, b + bi) == BitAt(disk[g.BBlock(b)], bi)
    ensures FlipBit(g, disk, b + bi, true) == disk[g.BBlock(b) := PutBlockBit(disk[g.BBlock(b)], bi, true)]
  {
    assert (b + bi) / BPB == b / BPB && (b + bi) % BPB == bi;
  }

  lemma NextBlock(b: nat)
    requires b % BPB == 0
    ensures (b + BPB) % BPB == 0
  {
  }

  /** balloc's search: bitmap block by bitmap block, bit by bit. */
  method FindFree(g: Geometry, disk: Disk) returns (b: nat, bi: nat)
    requires g.Valid() && |disk| == g.size
    ensures b < g.size ==> b % BPB == 0 && bi < BPB && b + bi < g.size && !UsedBit(g, disk, b + bi)
    ensures forall c: nat | c < (if b < g.size then b + bi else g.size) :: UsedBit(g, disk, c)
  {
    b, bi := 0, 0;
    while b < g.size
      invariant b % BPB == 0
      invariant forall c: nat | c < b && c < g.size :: UsedBit(g, disk, c)
    {
      bi := 0;
      while bi < BPB && b + bi < g.size
        invariant bi <= BPB && b + bi <= g.size
        invariant forall c: nat | c < b + bi :: UsedBit(g, disk, c)
      {
        ScanAt(g, disk, b, bi);
        if !BitAt(disk[g.BBlock(b)], bi) {
          return;
        }
        bi := bi + 1;
      }
      NextBlock(b);
      b := b + BPB;
    }
  }

  /** The word that holds slot s is where bmap reads it. */
  lemma ReadWord(g: Geometry, disk: Disk, ino: seq<Dinode>, cache: map<nat, Dinode>, v: Vol, s: Slot)
    requires Stands(g, disk, ino, cache, v) && Own(v) && Ok(v, s) && !s.Addr?
    ensures var p := Ptr(v, Up(s)); p < g.size && Word(disk[p], Idx(s)) == Ptr(v, s)
    ensures Ptr(v, s) != 0 || Free(v) == 0 ==> GrewAt(v, v, s)
  {
    assert Ok(v, Up(s));
    GrewRefl(v, s.i);
    assert DataAt(g, disk, Ptr(v, Up(s))) == v.blocks[Ptr(v, Up(s))];
  }

  /** A mapped data block is in the data area, and its bytes are the disk's. */
  lemma ReadBlock(g: Geometry, disk: Disk, ino: seq<Dinode>, cache: map<nat, Dinode>, v: Vol, s: Slot)
    requires Stands(g, disk, ino, cache, v) && Own(v) && Ok(v, s) && Ptr(v, s) != 0
    ensures g.start <= Ptr(v, s) < g.size && disk[Ptr(v, s)] == v.blocks[Ptr(v, s)]
  {
    assert DataAt(g, disk, Ptr(v, s)) == v.blocks[Ptr(v, s)];
  }

  /** Storing the number of freshly taken block b in the index block that holds slot s. */
  lemma HangWord(g: Geometry, disk: Disk, ino: seq<Dinode>, cache: map<nat, Dinode>, v: Vol, s: Slot, b: nat, p: nat) returns (r: Vol)
    requires Own(v) && Ok(v, s) && !s.Addr? && Ptr(v, s) == 0 && Fresh(v, b) && p == Ptr(v, Up(s))
    requires p == 0 ==> Free(v) == 0
    requires Stands(g, disk, ino, cache, Take(v, b))
    ensures g.start <= p < g.size && r.nodes == v.nodes
    ensures var d := disk[p := SetWord(disk[p], Idx(s), b)];
      Stands(g, d, ino, cache, r)
    ensures GrewAt(v, r, s) && Ptr(r, s) == b
  {
    FreshCounts(v, b);
    assert Ok(v, Up(s));
    HangGrewAt(v, s, b);
    TakePtr(v, b, Up(s));
    assert DataAt(g, disk, p) == Take(v, b).blocks[p];
    StoreData(g, disk, ino, cache, Take(v, b), p, SetWord(disk[p], Idx(s), b));
    r := Put(Take(v, b), s, b);
  }

  /** Storing the number of freshly taken block b in an in-core inode. */
  lemma HangAddr(g: Geometry, disk: Disk, ino: seq<Dinode>, cache: map<nat, Dinode>, v: Vol, i: nat, k: nat, b: nat) returns (r: Vol)
    requires i in cache && Own(v) && Ok(v, Addr(i, k)) && Ptr(v, Addr(i, k)) == 0 && Fresh(v, b)
    requires Stands(g, disk, ino, cache, Take(v, b))
    ensures |cache[i].addrs| == NDIRECT + 2
    ensures Stands(g, disk, ino, cache[i := cache[i].(addrs := cache[i].addrs[k := b])], r)
    ensures GrewAt(v, r, Addr(i, k)) && Ptr(r, Addr(i, k)) == b
  {
    HangGrewAt(v, Addr(i, k), b);
    assert NodeAt(ino, cache, i) == v.nodes[i];
    StoreInCore(g, disk, ino, cache, Take(v, b), i, cache[i].(addrs := cache[i].addrs[k := b]));
    r := Put(Take(v, b), Addr(i, k), b);
  }

  /** Marking a free block and zeroing it, as balloc does. */
  lemma StoreTake(g: Geometry, disk: Disk, ino: seq<Dinode>, cache: map<nat, Dinode>, v: Vol, b: nat)
    requires Stands(g, disk, ino, cache, v) && WF(v) && b < g.size && !UsedBit(g, disk, b)
    ensures Fresh(v, b)
    ensures var d := FlipBit(g, disk, b, true)[b := Zeroes()];
      Stands(g, d, ino, cache, Take(v, b))
  {
    StoreBit(g, disk, ino, cache, v, b, true);
    StoreData(g, FlipBit(g, disk, b, true), ino, cache, v.(used := v.used[b := true]), b, Zeroes());
  }

  /** The free blocks, and the slots of inode i that hold one. */
  ghost function StockOf(v: Vol, i: nat): (s: Stock<Slot>) {
    Stock(Free(v), Taken(v, i))
  }

  /** The slots on the way to each block of file i. */
  function Way(i: nat): (route: nat -> set<Slot>) {
    (bn: nat) => Route(i, bn)
  }

  lemma FetchedDraws(v: Vol, r: Vol, i: nat, bn: nat)
    requires WF(v) && bn < MAXFILE && Fetched(v, r, i, bn)
    ensures Draws(StockOf(v, i), StockOf(r, i), Way(i)(bn)) && Missing(v, i, bn) == |Way(i)(bn) - Taken(v, i)|
  {
    MissingCounts(v, i, bn);
  }

  /** What bmap does for a turn at file offset at: it fills the slots on the way and gets the block, or
      lacks blocks for it, or stops the machine. */
  ghost predicate Turned(v: Vol, r: Vol, i: nat, at: nat, hang: bool, got: bool) {
    && Fetched(v, r, i, at / BSIZE)
    && (hang <==> at >= FLAT && Free(v) + 1 < Missing(v, i, at / BSIZE))
    && (got <==> Missing(v, i, at / BSIZE) <= Free(v))
  }

  lemma StockMore(v0: Vol, v: Vol, r: Vol, i: nat, off: nat, n: nat, tot: nat, next: nat, ok: (nat, nat) -> bool)
    requires Going(StockOf(v0, i), StockOf(v, i), Way(i), off, n, tot, ok) && off + n <= MAXBYTES
    requires MovesOn(v, r, i, off, n, tot, next, ok)
    ensures Going(StockOf(v0, i), StockOf(r, i), Way(i), off, n, next, ok)
  {
    FetchedDraws(v, r, i, (off + tot) / BSIZE);
    GoingMore(StockOf(v0, i), StockOf(v, i), StockOf(r, i), Way(i), off, n, tot, next, ok);
  }

  /** A loop that began with v0 gets to v turn by turn, each fetching its block and copying its chunk. */
  ghost predicate Moving(v0: Vol, v: Vol, i: nat, off: nat, n: nat, tot: nat, ok: (nat, nat) -> bool)
    decreases tot
  {
    if tot == 0 then v == v0
    else exists u, a: nat {:trigger Moving(v0, u, i, off, n, a, ok)} ::
      a < tot && Moving(v0, u, i, off, n, a, ok) && MovesOn(u, v, i, off, n, a, tot, ok)
  }

  ghost predicate MovesOn(u: Vol, v: Vol, i: nat, off: nat, n: nat, a: nat, b: nat, ok: (nat, nat) -> bool) {
    WF(u) && Hop(a, b, off, n, ok) && Turned(u, v, i, off + a, false, true)
  }

  lemma MovingMore(v0: Vol, v: Vol, r: Vol, i: nat, off: nat, n: nat, tot: nat, next: nat, hang: bool, got: bool, ok: (nat, nat) -> bool)
    requires Moving(v0, v, i, off, n, tot, ok) && WF(v) && Hop(tot, next, off, n, ok) && Turned(v, r, i, off + tot, hang, got) && got
    ensures Moving(v0, r, i, off, n, next, ok)
  {
    assert MovesOn(v, r, i, off, n, tot, next, ok);
  }

  /** So it took a block for each empty slot so far. */
  lemma {:induction false} MovingGoes(v0: Vol, v: Vol, i: nat, off: nat, n: nat, tot: nat, ok: (nat, nat) -> bool)
    requires Moving(v0, v, i, off, n, tot, ok) && (n == 0 || off + n <= MAXBYTES)
    ensures Going(StockOf(v0, i), StockOf(v, i), Way(i), off, n, tot, ok)
    decreases tot
  {
    if tot == 0 {
      GoingStart(StockOf(v0, i), Way(i), off, n, ok);
    } else {
      var u, a: nat :| a < tot && Moving(v0, u, i, off, n, a, ok) && MovesOn(u, v, i, off, n, a, tot, ok);
      MovingGoes(v0, u, i, off, n, a, ok);
      StockMore(v0, u, v, i, off, n, a, tot, ok);
    }
  }

  /** The whole outcome of a loop over n bytes that moved tot of them, by what there was before it. */
  ghost predicate Ended(v0: Vol, v: Vol, i: nat, off: nat, n: nat, tot: nat, hang: bool, ok: (nat, nat) -> bool) {
    Ends(StockOf(v0, i), StockOf(v, i), Way(i), off, n, ok, Fate(tot, hang))
  }

  /** What readi returns after tot of n bytes: tot, or -1 when the blocks for the next chunk were there
      and it could not be copied out. */
  ghost predicate HasRead(v0: Vol, v: Vol, i: nat, off: nat, n: nat, tot: nat, o: Outcome, ok: (nat, nat) -> bool) {
    && Ended(v0, v, i, off, n, tot, o.Hang?, ok)
    && (o.Ret? ==> o.value == if tot < n && Room(v0, i, off, Asked(off, n, tot)) then -1 else tot)
  }

  lemma MovingEnds(v0: Vol, v: Vol, r: Vol, i: nat, off: nat, n: nat, tot: nat, next: nat, hang: bool, got: bool, ok: (nat, nat) -> bool)
    requires Moving(v0, v, i, off, n, tot, ok) && WF(v) && tot < n && off + n <= MAXBYTES && next == Asked(off, n, tot)
    requires Turned(v, r, i, off + tot, hang, got) && (!got || !ok(tot, next - tot))
    ensures Ended(v0, r, i, off, n, tot, hang, ok)
  {
    MovingGoes(v0, v, i, off, n, tot, ok);
    StockEnds(v0, v, r, i, off, n, tot, next - tot, hang, got, ok);
  }

  lemma StockEnds(v0: Vol, v: Vol, r: Vol, i: nat, off: nat, n: nat, tot: nat, m: nat, hang: bool, got: bool, ok: (nat, nat) -> bool)
    requires Going(StockOf(v0, i), StockOf(v, i), Way(i), off, n, tot, ok)
    requires WF(v) && tot < n && off + n <= MAXBYTES && m == Chunk(off + tot, n - tot)
    requires Turned(v, r, i, off + tot, hang, got) && (!got || !ok(tot, m))
    ensures Ended(v0, r, i, off, n, tot, hang, ok)
  {
    FetchedDraws(v, r, i, (off + tot) / BSIZE);
    GoingEnds(StockOf(v0, i), StockOf(v, i), StockOf(r, i), Way(i), off, n, tot, m, hang, ok);
  }

  lemma MovingDone(v0: Vol, v: Vol, i: nat, off: nat, n: nat, ok: (nat, nat) -> bool)
    requires Moving(v0, v, i, off, n, n, ok) && (n == 0 || off + n <= MAXBYTES)
    ensures Ended(v0, v, i, off, n, n, false, ok)
  {
    MovingGoes(v0, v, i, off, n, n, ok);
    GoingDone(StockOf(v0, i), StockOf(v, i), Way(i), off, n, ok);
  }

  lemma ReadAll(v0: Vol, v: Vol, i: nat, off: nat, n: nat, tot: nat, ok: (nat, nat) -> bool)
    requires Moving(v0, v, i, off, n, tot, ok) && tot == n && (n == 0 || off + n <= MAXBYTES)
    ensures HasRead(v0, v, i, off, n, tot, Ret(tot), ok)
  {
    MovingDone(v0, v, i, off, n, ok);
  }

  /** There are blocks for the k bytes at off of file i. */
  ghost predicate Room(v: Vol, i: nat, off: nat, k: nat) {
    Need(Taken(v, i), Way(i), off, k) <= Free(v)
  }

  lemma MissingOnWay(v: Vol, i: nat, bn: nat)
    requires WF(v) && bn < MAXFILE
    ensures Missing(v, i, bn) == |Way(i)(bn) - Taken(v, i)|
  {
    MissingCounts(v, i, bn);
  }

  /** Whether there are for one more chunk, seen from the start and from here. */
  lemma RoomHere(v0: Vol, v: Vol, i: nat, off: nat, n: nat, tot: nat, next: nat, ok: (nat, nat) -> bool)
    requires Moving(v0, v, i, off, n, tot, ok) && WF(v) && tot < n && off + n <= MAXBYTES && next == Asked(off, n, tot)
    ensures Room(v0, i, off, next) <==> Missing(v, i, (off + tot) / BSIZE) <= Free(v)
  {
    MovingGoes(v0, v, i, off, n, tot, ok);
    StockRoom(v0, v, i, off, n, tot, next, ok);
  }

  /** A turn of readi that is its last. */
  lemma ReadEnds(v0: Vol, v: Vol, r: Vol, i: nat, off: nat, n: nat, tot: nat, next: nat, hang: bool, got: bool, o: Outcome, ok: (nat, nat) -> bool)
    requires Moving(v0, v, i, off, n, tot, ok) && WF(v) && tot < n && off + n <= MAXBYTES && next == Asked(off, n, tot)
    requires Turned(v, r, i, off + tot, hang, got) && (!got || !ok(tot, next - tot))
    requires o == if hang then Hang else Ret(if got then -1 else tot)
    ensures HasRead(v0, r, i, off, n, tot, o, ok)
  {
    MovingEnds(v0, v, r, i, off, n, tot, next, hang, got, ok);
    RoomHere(v0, v, i, off, n, tot, next, ok);
  }

  lemma StockRoom(v0: Vol, v: Vol, i: nat, off: nat, n: nat, tot: nat, next: nat, ok: (nat, nat) -> bool)
    requires Going(StockOf(v0, i), StockOf(v, i), Way(i), off, n, tot, ok)
    requires WF(v) && tot < n && off + n <= MAXBYTES && next == Asked(off, n, tot)
    ensures Room(v0, i, off, next) <==> Missing(v, i, (off + tot) / BSIZE) <= Free(v)
  {
    MissingOnWay(v, i, (off + tot) / BSIZE);
    GoingNeeds(StockOf(v0, i), StockOf(v, i), Way(i), off, n, tot, next, ok);
  }

  lemma WholeRoute(v: Vol, i: nat, bn: nat, at: nat)
    requires WF(v) && i < |v.nodes| && NoHoles(v, i) && at == bn * BSIZE < v.nodes[i].size <= MAXBYTES
    ensures Way(i)(bn) <= Taken(v, i)
  {
    NothingMissing(v, i, at);
    assert at / BSIZE == bn;
    MissingOnWay(v, i, bn);
    assert Way(i)(bn) - Taken(v, i) == {};
  }

  /** An operation on file i that takes blocks for its first n bytes only, and accounts for them. */
  ghost predicate Spent(v: Vol, r: Vol, i: nat, n: nat) {
    Touched(v, r, i) && Grown(StockOf(v, i), StockOf(r, i), Extent(Way(i), 0, n))
  }

  lemma SpentTrans(v: Vol, r: Vol, q: Vol, i: nat, n: nat)
    requires Spent(v, r, i, n) && Spent(r, q, i, n)
    ensures Spent(v, q, i, n)
  {
    TouchedTrans(v, r, q, i);
    GrownTrans(StockOf(v, i), StockOf(r, i), StockOf(q, i), Extent(Way(i), 0, n));
  }

  lemma SpentMore(v: Vol, r: Vol, i: nat, n: nat, m: nat)
    requires Spent(v, r, i, n) && n <= m
    ensures Spent(v, r, i, m)
  {
    ExtentWithin(Way(i), 0, n, m);
    GrownMore(StockOf(v, i), StockOf(r, i), Extent(Way(i), 0, n), Extent(Way(i), 0, m));
  }

  /** A loop over k bytes at off spends within the file's first n bytes, if it is within them. */
  lemma EndedSpent(v: Vol, r: Vol, i: nat, off: nat, k: nat, tot: nat, hang: bool, ok: (nat, nat) -> bool, n: nat)
    requires Touched(v, r, i) && Ended(v, r, i, off, k, tot, hang, ok) && (k == 0 || off + k <= n) && tot <= k
    ensures Spent(v, r, i, n)
  {
    ExtentWithin(Way(i), off, Asked(off, k, tot), n);
    TakenConserved(v, r, i);
    DrawsGrown(StockOf(v, i), StockOf(r, i), Extent(Way(i), off, Asked(off, k, tot)), Extent(Way(i), 0, n));
  }

  lemma DrawsGrown<T(!new)>(s: Stock<T>, t: Stock<T>, c: set<T>, d: set<T>)
    requires Draws(s, t, c) && c <= d && t.free + |t.tree| == s.free + |s.tree|
    ensures Grown(s, t, d)
  {
    Difference(s.tree, t.tree);
  }

  lemma Difference<T>(a: set<T>, b: set<T>)
    requires a <= b
    ensures |b - a| == |b| - |a|
  {
    assert b == a + (b - a);
  }

  /** From v on all the empty slots of the first n bytes of file i were filled, and no other of its slots. */
  ghost predicate Fetches(v: Vol, r: Vol, i: nat, n: nat) {
    Drew(StockOf(v, i), StockOf(r, i), Extent(Way(i), 0, n))
  }

  lemma FetchesNone(v: Vol, i: nat)
    ensures Fetches(v, v, i, 0)
  {
    assert Extent(Way(i), 0, 0) == {};
  }

  /** Whether there is room for the n bytes after the a that were fetched. */
  lemma FetchesRoom(v: Vol, r: Vol, i: nat, a: nat, n: nat, end: nat)
    requires Fetches(v, r, i, a) && n > 0 && end == a + n
    ensures Room(r, i, a, n) <==> Room(v, i, 0, end)
    ensures Free(r) + 1 < Need(Taken(r, i), Way(i), a, n) <==> Free(v) + 1 < Need(Taken(v, i), Way(i), 0, end)
  {
    ExtentJoin(Way(i), a, n, end);
    DrewNeeds(StockOf(v, i), StockOf(r, i), Extent(Way(i), 0, a), Extent(Way(i), a, n), Extent(Way(i), 0, end));
  }

  lemma FetchesMore(v: Vol, r: Vol, q: Vol, i: nat, a: nat, n: nat, end: nat)
    requires Fetches(v, r, i, a) && n > 0 && end == a + n && Room(r, i, a, n)
    requires Draws(StockOf(r, i), StockOf(q, i), Extent(Way(i), a, n))
    ensures Fetches(v, q, i, end)
  {
    ExtentJoin(Way(i), a, n, end);
    DrewMore(StockOf(v, i), StockOf(r, i), StockOf(q, i), Extent(Way(i), 0, a), Extent(Way(i), a, n), Extent(Way(i), 0, end));
  }

  lemma FetchesFit(v: Vol, r: Vol, i: nat, n: nat)
    requires Fetches(v, r, i, n)
    ensures Room(v, i, 0, n)
  {
  }

  /** What was fetched needs nothing. */
  lemma FetchesAgain(v: Vol, r: Vol, i: nat, n: nat, off: nat, k: nat)
    requires Fetches(v, r, i, n) && (k == 0 || off + k <= n)
    ensures Room(r, i, off, k) && Extent(Way(i), off, k) <= Taken(r, i)
  {
    ExtentWithin(Way(i), off, k, n);
    assert Extent(Way(i), off, k) - Taken(r, i) == {};
  }

  lemma FetchesOnce(v: Vol, r: Vol, q: Vol, i: nat, n: nat, m: nat)
    requires Fetches(v, r, i, n) && Fetches(r, q, i, m) && m <= n
    ensures Fetches(v, q, i, n)
  {
    FetchesAgain(v, r, i, n, 0, m);
    assert Extent(Way(i), 0, m) - Taken(r, i) == {};
    assert Taken(r, i) + Extent(Way(i), 0, m) == Taken(r, i);
  }

  /** A file without holes lacks nothing. */
  lemma WholeRoom(v: Vol, i: nat, off: nat, k: nat)
    requires WF(v) && i < |v.nodes| && NoHoles(v, i) && off + k <= v.nodes[i].size <= MAXBYTES
    ensures Room(v, i, off, k)
  {
    WholeExtent(v, i, off, k);
    assert Extent(Way(i), off, k) - Taken(v, i) == {};
  }

  /** A file without holes has all slots filled that its bytes need. */
  lemma WholeCovers(v: Vol, i: nat, a: nat, b: nat)
    requires WF(v) && i < |v.nodes| && NoHoles(v, i) && v.nodes[i].size <= MAXBYTES && (b <= a || (b - 1) * BSIZE < v.nodes[i].size)
    ensures Routes(Way(i), a, b) <= Taken(v, i)
  {
    forall bn: nat | a <= bn < b ensures Way(i)(bn) <= Taken(v, i) {
      assert bn * BSIZE <= (b - 1) * BSIZE;
      WholeRoute(v, i, bn, bn * BSIZE);
    }
    RoutesIn(Way(i), a, b, Taken(v, i));
  }

  lemma WholeExtent(v: Vol, i: nat, off: nat, n: nat)
    requires WF(v) && i < |v.nodes| && NoHoles(v, i) && off + n <= v.nodes[i].size <= MAXBYTES
    ensures Extent(Way(i), off, n) <= Taken(v, i)
  {
    if n > 0 { assert (off + n - 1) / BSIZE * BSIZE <= off + n - 1; }
    WholeCovers(v, i, off / BSIZE, Last(off, n));
  }

  /** Overwriting a data block moves no pointer and takes no block. */
  lemma WroteStock(v: Vol, i: nat, s: Slot, d: Block)
    requires Own(v) && Ok(v, s) && s.i == i && !s.Index() && Ptr(v, s) != 0
    ensures StockOf(v.(blocks := v.blocks[Ptr(v, s) := d]), i) == StockOf(v, i)
  {
    var r := v.(blocks := v.blocks[Ptr(v, s) := d]);
    forall t | t in Slots(i) ensures Ptr(r, t) == Ptr(v, t) {
      assert Ok(v, t);
      WritePtr(v, s, d, t);
    }
    SameFree(v, r);
    assert Taken(r, i) == Taken(v, i);
  }

  lemma RetagStock(v: Vol, i: nat, d: Dinode)
    requires Own(v) && i < |v.nodes| && d.addrs == v.nodes[i].addrs
    ensures StockOf(Retag(v, i, d), i) == StockOf(v, i)
  {
    RetagKeeps(v, i, d);
    assert Taken(Retag(v, i, d), i) == Taken(v, i);
  }

  /** off + n < off, in 32-bit unsigned arithmetic. */
  predicate Wraps(off: Word32, n: Word32)
    ensures Wraps(off, n) <==> off + n >= 0x1_0000_0000
  {
    (off + n) % 0x1_0000_0000 < off
  }

  /** How many bytes a read of n bytes at off asks for in a file of the given size. */
  function Want(size: Word32, off: Word32, n: Word32): (m: nat)
    ensures off + m <= Max(size, off)
  {
    if off > size || Wraps(off, n) then 0 else if off + n > size then size - off else n
  }

  /** Every copy succeeds. */
  ghost predicate AllOk(ok: (nat, nat) -> bool) {
    forall a: nat, m: nat {:trigger ok(a, m)} :: ok(a, m)
  }

  /** What a read of n bytes at off delivers of content c: all there is of them, as far as it can be copied; nothing
      when off is past the end or off + n does not fit 32 bits. */
  ghost predicate Delivered(c: seq<Byte>, off: nat, n: nat, ok: (nat, nat) -> bool, o: Outcome, out: seq<Byte>) {
    if off > |c| || off + n >= 0x1_0000_0000 then o == Ret(0) && out == []
    else
      var m := if n < |c| - off then n else |c| - off;
      && |out| <= m && out == c[off..off + |out|] && CopiesTo(off, m, |out|, ok)
      && (if |out| == m then o == Ret(m) else o == Ret(-1) && Begins(off, |out|) && !ok(|out|, Piece(off, m, |out|)))
  }

  /** With room for all of it and copies that succeed a write is whole. */
  lemma WritesWhole(v: Vol, r: Vol, i: nat, off: nat, n: nat, tot: nat, hang: bool, ok: (nat, nat) -> bool)
    requires Ended(v, r, i, off, n, tot, hang, ok) && Room(v, i, off, n) && AllOk(ok)
    ensures tot == n && !hang
  {
    GoesFar(StockOf(v, i), Way(i), off, n, 0, ok);
    CopiedAll(off, n, 0, ok);
  }

  /** What a read of a file without holes comes to. */
  lemma WholeRead(v: Vol, r: Vol, i: nat, off: nat, w: nat, ok: (nat, nat) -> bool, tot: nat, hang: bool)
    requires WF(v) && i < |v.nodes| && NoHoles(v, i) && v.nodes[i].size <= MAXBYTES && (w == 0 || off + w <= v.nodes[i].size)
    requires Ended(v, r, i, off, w, tot, hang, ok)
    ensures !hang && tot == Copied(off, w, 0, ok) && (tot < w ==> Room(v, i, off, Asked(off, w, tot)))
  {
    if w > 0 {
      WholeExtent(v, i, off, w);
      Covered(StockOf(v, i), StockOf(r, i), Way(i), off, w, ok, Fate(tot, hang));
      if tot < w {
        NeedMore(Taken(v, i), Way(i), off, Asked(off, w, tot), w);
        assert Extent(Way(i), off, Asked(off, w, tot)) - Taken(v, i) == {};
      }
    }
  }

  lemma ReadSlice(v: Vol, r: Vol, i: nat, off: nat, out: seq<Byte>)
    requires i < |v.nodes| && Reading(v, r, i, off, out)
    ensures off + |out| <= v.nodes[i].size ==> out == Content(v, i)[off..off + |out|]
  {
  }

  lemma DeliveredBy(c: seq<Byte>, off: Word32, n: Word32, w: nat, ok: (nat, nat) -> bool, o: Outcome, out: seq<Byte>)
    requires |c| < 0x1_0000_0000 && w == Want(|c|, off, n) && |out| == Copied(off, w, 0, ok)
    requires o == Ret(if |out| < w then -1 else |out|) && (|out| > 0 ==> off + |out| <= |c| && out == c[off..off + |out|])
    ensures Delivered(c, off, n, ok, o, out)
  {
    CopiedIs(off, w, ok);
  }

  /** If all copies succeed that is all there is. */
  lemma DeliveredWhole(c: seq<Byte>, off: nat, n: nat, ok: (nat, nat) -> bool, o: Outcome, out: seq<Byte>)
    requires Delivered(c, off, n, ok, o, out)
    ensures AllOk(ok) && off <= |c| && off + n < 0x1_0000_0000 ==>
      var m := if n < |c| - off then n else |c| - off; o == Ret(m) && out == c[off..off + m]
  {
  }

  lemma ReadReply(v: Vol, r: Vol, i: nat, off: nat, w: nat, ok: (nat, nat) -> bool, o: Outcome, tot: nat)
    requires WF(v) && i < |v.nodes| && NoHoles(v, i) && v.nodes[i].size <= MAXBYTES && (w == 0 || off + w <= v.nodes[i].size)
    requires HasRead(v, r, i, off, w, tot, o, ok)
    ensures tot == Copied(off, w, 0, ok) <= w && o == Ret(if tot < w then -1 else tot)
  {
    WholeRead(v, r, i, off, w, ok, tot, o.Hang?);
  }

  /** readi's answer for a file without holes. */
  lemma ReadDelivers(v: Vol, r: Vol, i: nat, off: Word32, n: Word32, ok: (nat, nat) -> bool, o: Outcome, out: seq<Byte>, w: nat)
    requires WF(v) && i < |v.nodes| && v.nodes[i].size <= MAXBYTES && NoHoles(v, i) && Reading(v, r, i, off, out)
    requires w == Want(v.nodes[i].size, off, n) && HasRead(v, r, i, off, w, |out|, o, ok)
    ensures Delivered(Content(v, i), off, n, ok, o, out)
  {
    ReadReply(v, r, i, off, w, ok, o, |out|);
    ReadSlice(v, r, i, off, out);
    DeliveredBy(Content(v, i), off, n, w, ok, o, out);
  }

  /** The first n blocks are in use, and no other. */
  ghost predicate Marked(used: seq<bool>, n: nat) {
    forall b | 0 <= b < |used| :: used[b] <==> b < n
  }

  /** A volume of zeroed blocks and free inodes is in order. */
  lemma NewVolume(v: Vol, blocks: seq<Block>)
    requires 0 < v.start <= |v.blocks| == |v.used| < 0x1_0000_0000 && Marked(v.used, v.start) && v.blocks == blocks
    requires forall b | 0 <= b < |blocks| :: blocks[b] == Zeroes()
    requires forall i | 0 <= i < |v.nodes| :: v.nodes[i] == Unwritten()
    ensures Own(v) && SizesOk(v) && NoLeak(v) && Free(v) == |v.used| - v.start
    ensures forall i: nat | i < |v.nodes| :: Taken(v, i) == {}
  {
    assert FreeSet(v) == Area(v.start, |v.used|);
    assert forall j: nat | j < NINDIRECT :: Word(Zeroes(), j) == 0;
    forall s | Ok(v, s) ensures Ptr(v, s) == 0 {
      if !s.Addr? {
        assert Ok(v, Up(s));
        if s.L2? { assert Ok(v, Up(Up(s))); }
      }
    }
    forall i: nat | i < |v.nodes| ensures Taken(v, i) == {} {
      forall s | s in Slots(i) ensures Ptr(v, s) == 0 { assert Ok(v, s); }
    }
  }

  class Fs {
    const g: Geometry
    var disk: Disk
    var cache: map<nat, Dinode> // in-core inodes with valid set, by inode number
    ghost var ino: seq<Dinode> // the inodes on disk
    ghost var vol: Vol // the volume they stand for

    /** Block ownership holds and no file is larger than its tree can map. */
    ghost predicate Valid()
      reads this
    {
      && Stands(g, disk, ino, cache, vol) && Own(vol)
      && SizesOk(vol)
    }

    /** A newly made file system: a disk of zeros whose bitmap marks the blocks before the data area. */
    constructor (g: Geometry)
      requires g.Valid()
      ensures this.g == g && Valid() && Synced() && cache == map[] && NoLeak(vol) && Free(vol) == g.size - g.start
      ensures forall i: nat | i < g.ninodes :: vol.nodes[i] == Unwritten() && Taken(vol, i) == {}
    {
      this.g := g;
      disk := seq(g.size, _ => Zeroes());
      cache := map[];
      ino := seq(g.ninodes, _ => Unwritten());
      vol := Vol(g.start, seq(g.size, _ => Zeroes()), seq(g.size, _ => false), seq(g.ninodes, _ => Unwritten()));
      new;
      assert disk == vol.blocks && ino == vol.nodes;
      ZeroDisk(g, disk, ino, vol);
      ghost var blocks := vol.blocks;
      for b := 0 to g.start
        invariant Stands(g, disk, ino, cache, vol) && cache == map[] && ino == vol.nodes
        invariant vol == Vol(g.start, blocks, vol.used, ino) && Marked(vol.used, b)
        invariant forall i | 0 <= i < g.ninodes :: vol.nodes[i] == Unwritten()
      {
        StoreBit(g, disk, ino, cache, vol, b, true);
        disk := FlipBit(g, disk, b, true);
        vol := vol.(used := vol.used[b := true]);
      }
      NewVolume(vol, blocks);
    }

    /** Allocate a zeroed disk block: the first free one, or 0. */
    method Balloc() returns (addr: nat)
      requires Stands(g, disk, ino, cache, vol) && WF(vol)
      modifies this`disk, this`vol
      ensures Stands(g, disk, ino, cache, vol)
      ensures addr == 0 ==> disk == old(disk) && vol == old(vol) && Free(vol) == 0
      ensures addr != 0 ==> Fresh(old(vol), addr) && vol == Take(old(vol), addr)
      ensures addr != 0 ==> forall b | 0 <= b < addr :: old(vol).used[b]
    {
      var b, bi := FindFree(g, disk);
      if b >= g.size {
        forall c: nat | c < g.size ensures vol.used[c] { assert UsedBit(g, disk, c); }
        NoneFree(vol);
        return 0;
      }
      forall c: nat | c < b + bi ensures vol.used[c] { assert UsedBit(g, disk, c); }
      ScanAt(g, disk, b, bi);
      StoreTake(g, disk, ino, cache, vol, b + bi);
      disk := disk[g.BBlock(b) := PutBlockBit(disk[g.BBlock(b)], bi, true)];
      disk := disk[b + bi := Zeroes()];
      vol := Take(vol, b + bi);
      return b + bi;
    }

    /** Free a disk block; stops with "freeing free block" (false) if it is free already. */
    method Bfree(b: nat) returns (ok: bool)
      requires Stands(g, disk, ino, cache, vol) && b < g.size
      modifies this`disk, this`vol
      ensures Stands(g, disk, ino, cache, vol)
      ensures ok == old(vol).used[b]
      ensures vol == old(vol).(used := old(vol).used[b := false])
    {
      var bi := b % BPB;
      assert UsedBit(g, disk, b) == vol.used[b];
      if !BitAt(disk[g.BBlock(b)], bi) {
        assert vol.used == vol.used[b := false];
        return false;
      }
      StoreBit(g, disk, ino, cache, vol, b, false);
      disk := disk[g.BBlock(b) := PutBlockBit(disk[g.BBlock(b)], bi, false)];
      vol := vol.(used := vol.used[b := false]);
      return true;
    }

    /** ip->addrs[k], allocating the block if there is none yet; 0 when out of space. */
    method AddrOrAlloc(i: nat, k: nat) returns (addr: nat)
      requires Valid() && i in cache && k < NDIRECT + 2
      modifies this`disk, this`cache, this`vol
      ensures Valid() && cache.Keys == old(cache.Keys)
      ensures GrewAt(old(vol), vol, Addr(i, k)) && addr == Ptr(vol, Addr(i, k))
      ensures vol == old(vol) ==> disk == old(disk) && cache == old(cache)
    {
      ghost var v := vol;
      assert NodeAt(ino, cache, i) == v.nodes[i];
      GrewRefl(v, i);
      addr := cache[i].addrs[k];
      if addr == 0 {
        addr := Balloc();
        if addr != 0 {
          ghost var r := HangAddr(g, disk, ino, cache, v, i, k, addr);
          cache := cache[i := cache[i].(addrs := cache[i].addrs[k := addr])];
          vol := r;
        }
      }
    }

    /** Word k of index block p, which holds slot s; allocates the block behind it if there
        is none yet. Block 0 is what the doubly indirect branch reads after a failed balloc. */
    method WordOrAlloc(p: nat, k: nat, ghost s: Slot) returns (addr: nat)
      requires Valid() && Ok(vol, s) && !s.Addr? && Idx(s) == k && p == Ptr(vol, Up(s))
      requires p == 0 ==> Free(vol) == 0
      modifies this`disk, this`vol
      ensures Valid()
      ensures GrewAt(old(vol), vol, s) && addr == Ptr(vol, s)
      ensures p == 0 ==> vol == old(vol)
      ensures vol == old(vol) ==> disk == old(disk)
    {
      ReadWord(g, disk, ino, cache, vol, s);
      addr := Word(disk[p], k);
      if addr == 0 {
        addr := AllocWord(p, k, s);
      }
    }

    /** A new block for an empty word k of index block p. */
    method AllocWord(p: nat, k: nat, ghost s: Slot) returns (addr: nat)
      requires Valid() && Ok(vol, s) && !s.Addr? && Idx(s) == k && p == Ptr(vol, Up(s)) && p < g.size
      requires Ptr(vol, s) == 0 && (p == 0 ==> Free(vol) == 0) && (Free(vol) == 0 ==> GrewAt(vol, vol, s))
      modifies this`disk, this`vol
      ensures Valid()
      ensures GrewAt(old(vol), vol, s) && addr == Ptr(vol, s)
      ensures p == 0 ==> vol == old(vol)
      ensures vol == old(vol) ==> disk == old(disk)
    {
      ghost var v := vol;
      addr := Balloc();
      if addr != 0 {
        ghost var r := HangWord(g, disk, ino, cache, v, s, addr, p);
        disk := disk[p := SetWord(disk[p], k, addr)];
        vol := r;
      }
    }

    /** The disk block of block bn of file i, allocating what is missing on the way;
        0 when out of space. */
    method Bmap(i: nat, bn: nat) returns (o: Outcome)
      requires Valid() && i in cache
      modifies this`disk, this`cache, this`vol
      ensures Valid() && cache.Keys == old(cache.Keys)
      ensures bn < MAXFILE ==> Mapped(old(vol), vol, i, bn, o)
      ensures Missing(old(vol), i, bn) == 0 ==> disk == old(disk) && cache == old(cache)
      ensures bn >= MAXFILE ==> o.Hang? && vol == old(vol)
    {
      if bn < NDIRECT {
        o := BmapDirect(i, bn);
      } else if bn < NDIRECT + NINDIRECT {
        o := BmapIndirect(i, bn);
      } else if bn < MAXFILE {
        o := BmapDouble(i, bn);
      } else {
        o := Hang; // panic("bmap: out of range")
      }
    }

    method BmapDirect(i: nat, bn: nat) returns (o: Outcome)
      requires Valid() && i in cache && bn < NDIRECT
      modifies this`disk, this`cache, this`vol
      ensures Valid() && cache.Keys == old(cache.Keys)
      ensures Mapped(old(vol), vol, i, bn, o)
      ensures Missing(old(vol), i, bn) == 0 ==> disk == old(disk) && cache == old(cache)
    {
      var addr := AddrOrAlloc(i, bn);
      MapDirect(old(vol), vol, i, bn);
      return Ret(addr);
    }

    method BmapIndirect(i: nat, bn: nat) returns (o: Outcome)
      requires Valid() && i in cache && NDIRECT <= bn < NDIRECT + NINDIRECT
      modifies this`disk, this`cache, this`vol
      ensures Valid() && cache.Keys == old(cache.Keys)
      ensures Mapped(old(vol), vol, i, bn, o)
      ensures Missing(old(vol), i, bn) == 0 ==> disk == old(disk) && cache == old(cache)
    {
      var addr := AddrOrAlloc(i, NDIRECT);
      ghost var v1 := vol;
      if addr != 0 {
        addr := WordOrAlloc(addr, bn - NDIRECT, DataSlot(i, bn));
      }
      MapIndirect(old(vol), v1, vol, i, bn);
      return Ret(addr);
    }

    method BmapDouble(i: nat, bn: nat) returns (o: Outcome)
      requires Valid() && i in cache && NDIRECT + NINDIRECT <= bn < MAXFILE
      modifies this`disk, this`cache, this`vol
      ensures Valid() && cache.Keys == old(cache.Keys)
      ensures Mapped(old(vol), vol, i, bn, o)
      ensures Missing(old(vol), i, bn) == 0 ==> disk == old(disk) && cache == old(cache)
    {
      var d := bn - NDIRECT - NINDIRECT;
      var k, j := d / NINDIRECT, d % NINDIRECT;
      ghost var s := DataSlot(i, bn);
      assert s == L2(i, k, j) && Up(s) == L1(i, k) && j < NINDIRECT;
      var addr, v1 := LevelTwo(i, k);
      ghost var v2 := vol;
      o := Hang; // BUG_ON(!addr)
      if addr != 0 {
        addr := WordOrAlloc(addr, j, s);
        o := Ret(addr);
      }
      MapDouble(old(vol), v1, v2, vol, i, bn);
    }

    /** The level-2 index block number k of file i; v1 is the volume once level 1 is there. */
    method LevelTwo(i: nat, k: nat) returns (addr: nat, ghost v1: Vol)
      requires Valid() && i in cache && k < NINDIRECT
      modifies this`disk, this`cache, this`vol
      ensures Valid() && cache.Keys == old(cache.Keys)
      ensures GrewAt(old(vol), v1, Addr(i, NDIRECT + 1)) && GrewAt(v1, vol, L1(i, k))
      ensures Ptr(v1, Addr(i, NDIRECT + 1)) == 0 ==> vol == v1
      ensures addr == Ptr(vol, L1(i, k))
      ensures v1 == old(vol) && vol == v1 ==> disk == old(disk) && cache == old(cache)
    {
      addr := AddrOrAlloc(i, NDIRECT + 1);
      v1 := vol;
      addr := WordOrAlloc(addr, k, L1(i, k));
    }

    /** log_write of a data block. */
    method StoreBlock(p: nat, d: Block)
      requires Stands(g, disk, ino, cache, vol) && g.start <= p < g.size
      modifies this`disk, this`vol
      ensures Stands(g, disk, ino, cache, vol) && vol == old(vol).(blocks := old(vol).blocks[p := d])
    {
      StoreData(g, disk, ino, cache, vol, p, d);
      disk := disk[p := d];
      vol := vol.(blocks := vol.blocks[p := d]);
    }

    /** Write dinode i into its inode block. */
    method StoreInode(i: nat, d: Dinode)
      requires Stands(g, disk, ino, cache, vol) && i < g.ninodes && |d.addrs| == NDIRECT + 2
      modifies this`disk, this`ino, this`vol
      ensures ino == old(ino)[i := d]
      ensures vol == if i in cache then old(vol) else old(vol).(nodes := old(vol).nodes[i := d])
      ensures Stands(g, disk, ino, cache, vol) && disk == WithDinode(g, old(disk), i, d)
    {
      StoreDinode(g, disk, ino, cache, vol, i, d, SetDinode(disk[g.IBlock(i)], i % IPB, d));
      disk := WithDinode(g, disk, i, d);
      ino := ino[i := d];
      vol := if i in cache then vol else vol.(nodes := vol.nodes[i := d]);
    }

    /** Zero dinode i on disk and store d, which has a type and nothing else, in it. */
    method WipeInode(i: nat, d: Dinode)
      requires Stands(g, disk, ino, cache, vol) && i < g.ninodes && |d.addrs| == 14 && Zeroed(d)
      modifies this`disk, this`ino, this`vol
      ensures ino == old(ino)[i := d] && Stands(g, disk, ino, cache, vol)
      ensures vol == if i in cache then old(vol) else old(vol).(nodes := old(vol).nodes[i := d])
      ensures var b := g.inodestart + i / 4;
        && b < |disk| == |old(disk)| && disk == old(disk)[b := disk[b]] && BlankIn(disk[b], i % 4, d.kind)
        && Within(old(disk)[b], disk[b], 128 * (i % 4), 128 * (i % 4) + 128)
    {
      var nb := BlankDinode(disk[g.IBlock(i)], i % IPB, d);
      StoreDinode(g, disk, ino, cache, vol, i, d, nb);
      disk := disk[g.IBlock(i) := nb];
      ino := ino[i := d];
      vol := if i in cache then vol else vol.(nodes := vol.nodes[i := d]);
    }

    /** Copy the in-core inode to disk. */
    method Iupdate(i: nat)
      requires Stands(g, disk, ino, cache, vol) && WF(vol) && i in cache
      modifies this`disk, this`ino, this`vol
      ensures Stands(g, disk, ino, cache, vol) && ino == old(ino)[i := cache[i]] && vol == old(vol)
      ensures var b := g.inodestart + i / 4;
        && b < |disk| == |old(disk)| && disk == old(disk)[b := disk[b]] && DinodeIn(disk[b], i % 4, cache[i])
        && Within(old(disk)[b], disk[b], 128 * (i % 4), 128 * (i % 4) + 68)
    {
      assert NodeAt(ino, cache, i) == vol.nodes[i];
      StoreInode(i, cache[i]);
      StoreBytes(old(disk)[g.IBlock(i)], i % 4, cache[i], disk[g.IBlock(i)]);
    }

    /** Every in-core inode equals its copy on disk. */
    ghost predicate Synced()
      reads this
    {
      ino == vol.nodes
    }

    /** One turn of writei's loop at file offset off: how many bytes it stored (0 when it
        breaks out), or Hang. */
    method WriteTurn(i: nat, off: nat, data: seq<Byte>, ok: bool) returns (o: Outcome, ghost got: bool)
      requires Valid() && i in cache && off + |data| <= MAXBYTES && 0 < |data| && off % BSIZE + |data| <= BSIZE
      modifies this`disk, this`cache, this`vol
      ensures Valid() && cache.Keys == old(cache.Keys)
      ensures o.Ret? ==> o.value == if got && ok then |data| else 0
      ensures o != Ret(|data|) ==> Grew(old(vol), vol, i)
      ensures o == Ret(|data|) ==> Wrote(old(vol), vol, i, off, data) && Ptr(vol, DataSlot(i, off / BSIZE)) != 0
      ensures Turned(old(vol), vol, i, off, o.Hang?, got)
    {
      o := Bmap(i, off / BSIZE);
      got := o.Ret? && o.value != 0;
      if o.Ret? && o.value != 0 && ok {
        StoreChunk(i, off, data, o.value, old(vol));
        o := Ret(|data|);
      } else if o.Ret? {
        o := Ret(0);
      }
    }

    /** Splice data into the block bmap gave for offset off. */
    method StoreChunk(i: nat, off: nat, data: seq<Byte>, p: nat, ghost v0: Vol)
      requires Valid() && i in cache && off + |data| <= MAXBYTES && 0 < |data| && off % BSIZE + |data| <= BSIZE
      requires Grew(v0, vol, i) && p != 0 && p == Ptr(vol, DataSlot(i, off / BSIZE))
      modifies this`disk, this`vol
      ensures Valid() && Wrote(v0, vol, i, off, data) && Ptr(vol, DataSlot(i, off / BSIZE)) != 0
      ensures StockOf(vol, i) == StockOf(old(vol), i)
    {
      ghost var v, s := vol, DataSlot(i, off / BSIZE);
      ReadBlock(g, disk, ino, cache, v, s);
      WriteChunk(v, i, off, data, p);
      WroteStock(v, i, s, Splice(v.blocks[p], off % BSIZE, data));
      StoreBlock(p, Splice(disk[p], off % BSIZE, data));
      GrewThenWrote(v0, v, vol, i, off, data);
      assert Ok(v, s);
    }

    /** The same turn, seen from the start of the write: tot bytes of src were stored before it, next after it. */
    method WriteNext(i: nat, off: nat, src: seq<Byte>, tot: nat, next: nat, ok: bool, ghost v0: Vol) returns (o: Outcome, ghost got: bool)
      requires Valid() && i in cache && off + |src| <= MAXBYTES && tot < |src| && next == Asked(off, |src|, tot)
      requires Progress(v0, vol, i, off, src, tot) && off <= v0.nodes[i].size <= MAXBYTES
      modifies this`disk, this`cache, this`vol
      ensures Valid() && cache.Keys == old(cache.Keys)
      ensures o == Ret(next) ==> got && ok && Progress(v0, vol, i, off, src, next)
      ensures o != Ret(next) ==> (!got || !ok) && Progress(v0, vol, i, off, src, tot)
      ensures Turned(old(vol), vol, i, off + tot, o.Hang?, got)
    {
      ghost var v := vol;
      o, got := WriteTurn(i, off + tot, src[tot..next], ok);
      if o.Ret? && o.value != 0 {
        ProgressWrote(v0, v, vol, i, off, src, tot, next);
        o := Ret(next);
      } else {
        ProgressGrew(v0, v, vol, i, off, src, tot);
      }
    }

    /** The turn with its accounts. */
    method WriteStep(i: nat, off: nat, src: seq<Byte>, tot: nat, next: nat, ok: (nat, nat) -> bool, ghost v0: Vol) returns (o: Outcome)
      requires Valid() && i in cache && off + |src| <= MAXBYTES && tot < |src| && next == Asked(off, |src|, tot)
      requires Progress(v0, vol, i, off, src, tot) && off <= v0.nodes[i].size <= MAXBYTES && Moving(v0, vol, i, off, |src|, tot, ok)
      modifies this`disk, this`cache, this`vol
      ensures Valid() && cache.Keys == old(cache.Keys)
      ensures o == Ret(next) ==> Progress(v0, vol, i, off, src, next) && Moving(v0, vol, i, off, |src|, next, ok)
      ensures o != Ret(next) ==> Progress(v0, vol, i, off, src, tot) && Ended(v0, vol, i, off, |src|, tot, o.Hang?, ok)
    {
      ghost var v := vol;
      ghost var got;
      o, got := WriteNext(i, off, src, tot, next, ok(tot, next - tot), v0);
      if o == Ret(next) {
        MovingMore(v0, v, vol, i, off, |src|, tot, next, o.Hang?, got, ok);
      } else {
        MovingEnds(v0, v, vol, i, off, |src|, tot, next, o.Hang?, got, ok);
      }
    }

    /** writei's loop over blocks. ok(tot, m) tells whether copying m bytes in from tot succeeds. */
    method WriteLoop(i: nat, off: nat, src: seq<Byte>, ok: (nat, nat) -> bool) returns (hang: bool, tot: nat)
      requires Valid() && i in cache && off <= vol.nodes[i].size && off + |src| <= MAXBYTES
      modifies this`disk, this`cache, this`vol
      ensures Valid() && cache.Keys == old(cache.Keys)
      ensures Progress(old(vol), vol, i, off, src, tot) && Ended(old(vol), vol, i, off, |src|, tot, hang, ok)
    {
      ghost var v0 := vol;
      tot, hang := 0, false;
      ProgressStart(vol, i, off, src);
      while tot < |src|
        invariant Valid() && cache.Keys == old(cache.Keys) && !hang
        invariant Progress(v0, vol, i, off, src, tot) && Moving(v0, vol, i, off, |src|, tot, ok)
        decreases |src| - tot
      {
        var next := Asked(off, |src|, tot);
        var o := WriteStep(i, off, src, tot, next, ok, v0);
        if o != Ret(next) {
          return o.Hang?, tot;
        }
        tot := next;
      }
      MovingDone(v0, vol, i, off, |src|, ok);
    }

    /** Write data to inode i at offset off; the number of bytes written, or -1. */
    method Writei(i: nat, off: Word32, src: seq<Byte>, ok: (nat, nat) -> bool) returns (o: Outcome)
      requires Valid() && i in cache && |src| < 0x1_0000_0000
      modifies this
      ensures Valid() && cache.Keys == old(cache.Keys) && Touched(old(vol), vol, i)
      ensures o == Ret(-1) <==> off > old(vol).nodes[i].size || off + |src| > 512 * (12 + 128 + 128 * 128)
      ensures o != Ret(-1) && AllOk(ok) && Room(old(vol), i, off, |src|) ==> o == Ret(|src|)
      ensures o == Ret(-1) ==> disk == old(disk) && cache == old(cache) && vol == old(vol) && ino == old(ino)
      ensures o.Ret? && o.value != -1 ==> 0 <= o.value <= |src| && FileWritten(old(vol), vol, i, off, src[..o.value])
      ensures o.Ret? && o.value != -1 ==> ino == old(ino)[i := vol.nodes[i]]
      ensures o.Ret? && o.value != -1 ==> Ended(old(vol), vol, i, off, |src|, o.value, false, ok)
      ensures o.Hang? ==> exists tot: nat :: Progress(old(vol), vol, i, off, src, tot) && Ended(old(vol), vol, i, off, |src|, tot, true, ok)
      ensures o.Ret? && NoHoles(old(vol), i) ==> NoHoles(vol, i)
    {
      assert NodeAt(ino, cache, i) == vol.nodes[i];
      TouchedRefl(vol, i);
      if off > cache[i].size || Wraps(off, |src|) {
        return Ret(-1);
      }
      if off + |src| > MAXBYTES {
        return Ret(-1);
      }
      ghost var v0 := vol;
      var hang, tot := WriteLoop(i, off, src, ok);
      if AllOk(ok) && Room(v0, i, off, |src|) { WritesWhole(v0, vol, i, off, |src|, tot, hang, ok); }
      if hang {
        WroteTouched(v0, vol, i, off, src[..tot]);
        return Hang;
      }
      WriteEnd(i, off, src, tot, v0, ok);
      return Ret(tot);
    }

    /** The end of writei: the new size, and the inode written back. */
    method WriteEnd(i: nat, off: Word32, ghost src: seq<Byte>, tot: nat, ghost v0: Vol, ghost ok: (nat, nat) -> bool)
      requires Valid() && i in cache && Progress(v0, vol, i, off, src, tot) && off + |src| <= MAXBYTES
      requires Ended(v0, vol, i, off, |src|, tot, false, ok)
      modifies this
      ensures Valid() && cache.Keys == old(cache.Keys)
      ensures Ended(v0, vol, i, off, |src|, tot, false, ok)
      ensures FileWritten(v0, vol, i, off, src[..tot]) && Touched(v0, vol, i) && (NoHoles(v0, i) ==> NoHoles(vol, i))
      ensures ino == old(ino)[i := vol.nodes[i]]
    {
      ghost var v1 := vol;
      SetSize(i, off + tot);
      WriteDone(v0, v1, i, off, src, tot, cache[i]);
      RetagStock(v1, i, cache[i]);
      assert NodeAt(ino, cache, i) == vol.nodes[i];
      Iupdate(i);
    }

    /** if (off > ip->size) ip->size = off; */
    method SetSize(i: nat, off: Word32)
      requires Valid() && i in cache && off <= MAXBYTES
      modifies this`cache, this`vol
      ensures Valid() && cache.Keys == old(cache.Keys)
      ensures cache[i] == old(vol).nodes[i].(size := Max(old(vol).nodes[i].size, off))
      ensures vol == Retag(old(vol), i, cache[i])
    {
      assert NodeAt(ino, cache, i) == vol.nodes[i];
      ghost var d := cache[i].(size := Max(cache[i].size, off));
      RetagKeeps(vol, i, d);
      if off > cache[i].size {
        StoreInCore(g, disk, ino, cache, vol, i, d);
        cache := cache[i := cache[i].(size := off)];
      }
      vol := Retag(vol, i, d);
    }

    /** One turn of readi's loop: the m bytes at file offset at, unless bmap found no block. */
    method ReadTurn(i: nat, at: nat, m: nat) returns (o: Outcome, chunk: seq<Byte>)
      requires Valid() && i in cache && at + m <= MAXBYTES && 0 < m && at % BSIZE + m <= BSIZE
      modifies this`disk, this`cache, this`vol
      ensures Valid() && cache.Keys == old(cache.Keys) && Grew(old(vol), vol, i)
      ensures Missing(old(vol), i, at / BSIZE) == 0 ==> disk == old(disk) && cache == old(cache) && vol == old(vol)
      ensures o.Ret? && o.value != 0 ==> |chunk| == m && ChunkOf(vol, i, at, chunk)
      ensures Turned(old(vol), vol, i, at, o.Hang?, o.Ret? && o.value != 0)
    {
      o := Bmap(i, at / BSIZE);
      chunk := [];
      if o.Ret? && o.value != 0 {
        ReadBlock(g, disk, ino, cache, vol, DataSlot(i, at / BSIZE));
        chunk := disk[o.value][at % BSIZE..at % BSIZE + m];
        ReadChunk(vol, i, at, m, chunk);
      }
    }

    /** The same turn, seen from the start of the read: out was read before it. */
    method ReadMore(i: nat, off: nat, n: nat, out: seq<Byte>, tot: nat, next: nat, ghost v0: Vol) returns (hang: bool, got: bool, chunk: seq<Byte>)
      requires Valid() && i in cache && Reading(v0, vol, i, off, out) && off + n <= v0.nodes[i].size <= MAXBYTES
      requires tot == |out| < n && next == Asked(off, n, tot)
      modifies this`disk, this`cache, this`vol
      ensures Valid() && cache.Keys == old(cache.Keys) && Reading(v0, vol, i, off, out)
      ensures NoHoles(v0, i) ==> disk == old(disk) && cache == old(cache)
      ensures got ==> tot + |chunk| == next && Reading(v0, vol, i, off, out + chunk)
      ensures Turned(old(vol), vol, i, off + tot, hang, got)
    {
      ghost var v := vol;
      if NoHoles(v0, i) { NothingMissing(v0, i, off + tot); }
      var o;
      o, chunk := ReadTurn(i, off + tot, next - tot);
      hang, got := o.Hang?, o.Ret? && o.value != 0;
      ReadingGrew(v0, v, vol, i, off, out);
      if got {
        ReadingMore(v0, vol, i, off, out, tot, chunk);
      }
    }

    /** The turn with its accounts; it may be the last. */
    method ReadStep(i: nat, off: nat, n: nat, out: seq<Byte>, tot: nat, next: nat, ok: (nat, nat) -> bool, ghost v0: Vol)
      returns (done: bool, o: Outcome, more: seq<Byte>)
      requires Valid() && i in cache && Reading(v0, vol, i, off, out) && off + n <= v0.nodes[i].size <= MAXBYTES
      requires tot == |out| < n && next == Asked(off, n, tot) && Moving(v0, vol, i, off, n, tot, ok)
      modifies this`disk, this`cache, this`vol
      ensures Valid() && cache.Keys == old(cache.Keys) && Reading(v0, vol, i, off, more)
      ensures NoHoles(v0, i) ==> disk == old(disk) && cache == old(cache)
      ensures !done ==> tot < |more| == next && Moving(v0, vol, i, off, n, |more|, ok)
      ensures done ==> more == out && HasRead(v0, vol, i, off, n, |more|, o, ok)
    {
      ghost var v := vol;
      var hang, got, chunk := ReadMore(i, off, n, out, tot, next, v0);
      if got && ok(tot, next - tot) {
        Hopped(tot, next, off, n, ok);
        MovingMore(v0, v, vol, i, off, n, tot, next, hang, got, ok);
        return false, Hang, out + chunk;
      }
      o := if hang then Hang else Ret(if got then -1 else tot);
      ReadEnds(v0, v, vol, i, off, n, tot, next, hang, got, o, ok);
      return true, o, out;
    }

    /** readi's loop over blocks. ok(tot, m) tells whether copying m bytes out at tot succeeds. */
    method ReadLoop(i: nat, off: nat, n: nat, ok: (nat, nat) -> bool) returns (o: Outcome, out: seq<Byte>)
      requires Valid() && i in cache && off + n <= vol.nodes[i].size
      modifies this`disk, this`cache, this`vol
      ensures Valid() && cache.Keys == old(cache.Keys) && Reading(old(vol), vol, i, off, out)
      ensures NoHoles(old(vol), i) ==> disk == old(disk) && cache == old(cache)
      ensures HasRead(old(vol), vol, i, off, n, |out|, o, ok)
    {
      out := [];
      ghost var v0 := vol;
      GrewRefl(vol, i);
      while |out| < n
        invariant Valid() && cache.Keys == old(cache.Keys) && Reading(v0, vol, i, off, out)
        invariant NoHoles(v0, i) ==> disk == old(disk) && cache == old(cache)
        invariant |out| <= n && Moving(v0, vol, i, off, n, |out|, ok)
        decreases n - |out|
      {
        var done;
        done, o, out := ReadStep(i, off, n, out, |out|, Asked(off, n, |out|), ok, v0);
        if done {
          return;
        }
      }
      ReadAll(v0, vol, i, off, n, |out|, ok);
      return Ret(|out|), out;
    }

    /** Read up to n bytes of inode i from offset off; out is what was copied out. */
    method Readi(i: nat, off: Word32, n: Word32, ok: (nat, nat) -> bool) returns (o: Outcome, out: seq<Byte>)
      requires Valid() && i in cache
      modifies this`disk, this`cache, this`vol
      ensures Valid() && cache.Keys == old(cache.Keys) && Reading(old(vol), vol, i, off, out)
      ensures NoHoles(old(vol), i) ==> disk == old(disk) && cache == old(cache)
      ensures HasRead(old(vol), vol, i, off, Want(old(vol).nodes[i].size, off, n), |out|, o, ok)
      ensures NoHoles(old(vol), i) ==> Delivered(Content(old(vol), i), off, n, ok, o, out)
      ensures off > old(vol).nodes[i].size || off + n >= 0x1_0000_0000 ==> o == Ret(0) && out == []
    {
      assert NodeAt(ino, cache, i) == vol.nodes[i];
      if off > cache[i].size || Wraps(off, n) {
        GrewRefl(vol, i);
        MovingDone(vol, vol, i, off, 0, ok);
        return Ret(0), [];
      }
      o, out := ReadLoop(i, off, Want(cache[i].size, off, n), ok);
      if NoHoles(old(vol), i) {
        ReadDelivers(old(vol), vol, i, off, n, ok, o, out, Want(old(vol).nodes[i].size, off, n));
      }
    }

    /** Free the block in ip->addrs[k], if any, and clear the word. Stops (false) if bfree does. */
    method FreeAddr(i: nat, k: nat, ghost v0: Vol, ghost j: nat) returns (ok: bool)
      requires Stands(g, disk, ino, cache, vol) && i in cache && k <= NDIRECT && Cutting(v0, vol, i, k, j)
      modifies this`disk, this`cache, this`vol
      ensures ok && Stands(g, disk, ino, cache, vol) && cache.Keys == old(cache.Keys) && Cutting(v0, vol, i, k + 1, j)
    {
      ghost var v := vol;
      assert NodeAt(ino, cache, i) == vol.nodes[i];
      var p := cache[i].addrs[k];
      assert Ok(v0, Addr(i, k)) && Ptr(v0, Addr(i, k)) == p;
      ok := true;
      if p != 0 {
        StillUsed(v0, vol, i, k, j, Addr(i, k));
        ok := Bfree(p);
        if !ok {
          return;
        }
      }
      ghost var d := cache[i].(addrs := cache[i].addrs[k := 0]);
      assert d.addrs == Cleared(v0.nodes[i].addrs, k + 1);
      StoreInCore(g, disk, ino, cache, vol, i, d);
      cache := cache[i := cache[i].(addrs := cache[i].addrs[k := 0])];
      vol := vol.(nodes := vol.nodes[i := d]);
      assert vol.nodes == v0.nodes[i := v0.nodes[i].(addrs := d.addrs)];
      CutAddr(v0, v, i, k, j, vol);
    }

    /** Free the blocks behind the words of indirect block q. */
    method FreeIndirect(i: nat, q: nat, ghost v0: Vol) returns (ok: bool)
      requires Stands(g, disk, ino, cache, vol) && Cutting(v0, vol, i, NDIRECT, 0)
      requires q == Ptr(v0, Addr(i, NDIRECT)) != 0
      modifies this`disk, this`vol
      ensures ok && Stands(g, disk, ino, cache, vol) && Cutting(v0, vol, i, NDIRECT, NINDIRECT)
    {
      assert Ok(v0, Addr(i, NDIRECT));
      for j := 0 to NINDIRECT
        invariant Stands(g, disk, ino, cache, vol) && Cutting(v0, vol, i, NDIRECT, j)
      {
        ghost var v := vol;
        assert DataAt(g, disk, q) == vol.blocks[q];
        var a := Word(disk[q], j);
        assert Ok(v0, Ind(i, j)) && Ptr(v0, Ind(i, j)) == a;
        if a != 0 {
          StillUsed(v0, vol, i, NDIRECT, j, Ind(i, j));
          ok := Bfree(a);
          if !ok {
            return;
          }
        }
        CutInd(v0, v, i, NDIRECT, j, vol);
      }
      ok := true;
    }

    /** Truncate inode i. Stops (false) only in bfree's "freeing free block", which is never. */
    method Itrunc(i: nat) returns (ok: bool)
      requires Valid() && i in cache
      modifies this
      ensures ok && Valid() && cache.Keys == old(cache.Keys)
      ensures Truncated(old(vol), vol, i) && Touched(old(vol), vol, i) && ino == old(ino)[i := vol.nodes[i]]
    {
      ghost var v0 := vol;
      CutNothing(v0, i);
      for k := 0 to NDIRECT
        invariant Stands(g, disk, ino, cache, vol) && cache.Keys == old(cache.Keys) && ino == old(ino)
        invariant Cutting(v0, vol, i, k, 0)
      {
        ok := FreeAddr(i, k, v0, 0);
        if !ok {
          return;
        }
      }
      assert NodeAt(ino, cache, i) == vol.nodes[i];
      if cache[i].addrs[NDIRECT] != 0 {
        ok := FreeIndirect(i, cache[i].addrs[NDIRECT], v0);
        if !ok {
          return;
        }
        ok := FreeAddr(i, NDIRECT, v0, NINDIRECT);
        if !ok {
          return;
        }
      } else {
        CutNoIndirect(v0, vol, i);
      }
      assert NodeAt(ino, cache, i) == vol.nodes[i];
      ghost var v, d := vol, cache[i].(size := 0);
      StoreInCore(g, disk, ino, cache, vol, i, d);
      cache := cache[i := cache[i].(size := 0)];
      vol := vol.(nodes := vol.nodes[i := d]);
      CutDone(v0, v, i, vol);
      TruncatedTouched(v0, vol, i);
      Iupdate(i);
      assert NodeAt(ino, cache, i) == vol.nodes[i];
      ok := true;
    }

    /** Load inode i into memory unless it is there; stops (false) on "ilock: no type". */
    method Ilock(i: nat) returns (ok: bool)
      requires Valid() && i < g.ninodes
      modifies this`cache
      ensures Valid() && cache.Keys == old(cache.Keys) + {i}
      ensures ok <==> i in old(cache) || ino[i].kind != 0
      ensures i in old(cache) ==> cache == old(cache)
      ensures i !in old(cache) ==> cache == old(cache)[i := ino[i]]
      ensures g.inodestart + i / 4 < |disk| && DinodeIn(disk[g.inodestart + i / 4], i % 4, ino[i])
    {
      assert OnDisk(g, disk, i) == ino[i];
      InodeOnDisk(g, disk, i);
      ok := true;
      if i !in cache {
        assert NodeAt(ino, cache, i) == vol.nodes[i] && OnDisk(g, disk, i) == ino[i];
        StoreInCore(g, disk, ino, cache, vol, i, ino[i]);
        assert vol.nodes[i := ino[i]] == vol.nodes;
        cache := cache[i := OnDisk(g, disk, i)];
        ok := cache[i].kind != 0;
      }
    }

    /** ip->type = 0; iupdate(ip); ip->valid = 0; */
    method MarkFree(i: nat)
      requires Valid() && i in cache
      modifies this
      ensures Valid() && cache.Keys == old(cache.Keys) - {i}
      ensures vol == Retag(old(vol), i, old(vol).nodes[i].(kind := 0)) && ino == old(ino)[i := vol.nodes[i]]
    {
      assert NodeAt(ino, cache, i) == vol.nodes[i];
      ghost var d := cache[i].(kind := 0);
      RetagKeeps(vol, i, d);
      StoreInCore(g, disk, ino, cache, vol, i, d);
      cache := cache[i := cache[i].(kind := 0)];
      vol := Retag(vol, i, d);
      Iupdate(i);
      ghost var c := cache;
      cache := cache - {i};
      forall j: nat | j < g.ninodes ensures vol.nodes[j] == NodeAt(ino, cache, j) {
        assert NodeAt(ino, c, j) == vol.nodes[j];
      }
    }

    /** The part of iput that frees an inode nobody links to: truncate it, mark it free on disk and
        drop the in-core copy. */
    method FreeInode(i: nat) returns (ok: bool)
      requires Valid() && i in cache
      modifies this
      ensures ok && Valid() && cache.Keys == old(cache.Keys) - {i}
      ensures Touched(old(vol), vol, i) && vol.nodes[i].kind == 0 && vol.nodes[i].size == 0
      ensures vol.nodes[i] == old(vol).nodes[i].(kind := 0, size := 0, addrs := vol.nodes[i].addrs)
      ensures ino == old(ino)[i := vol.nodes[i]]
      ensures (Bare(vol, i) <==> !Deep(old(vol), i)) && Taken(vol, i) == Lasting(Taken(old(vol), i))
    {
      ok := Itrunc(i);
      FreeDone(old(vol), vol, i, vol.nodes[i].(kind := 0));
      MarkFree(i);
    }

    /** The first free inode number from 1 on, or 0. */
    method FindFreeInode() returns (i: nat)
      requires Valid()
      ensures i < Max(g.ninodes, 1) && (i != 0 ==> ino[i].kind == 0)
      ensures forall j | 1 <= j < (if i != 0 then i else g.ninodes) :: ino[j].kind != 0
    {
      i := 1;
      while i < g.ninodes
        invariant forall j | 1 <= j < i && j < g.ninodes :: ino[j].kind != 0
      {
        assert OnDisk(g, disk, i) == ino[i];
        if OnDisk(g, disk, i).kind == 0 {
          return;
        }
        i := i + 1;
      }
      i := 0;
    }

    /** Allocate an inode of the given type: wipe the first free one, or return 0. */
    method Ialloc(kind: Short) returns (i: nat)
      requires Valid() && forall j | j in cache :: ino[j].kind != 0
      modifies this`disk, this`ino, this`vol
      ensures Valid() && i < Max(g.ninodes, 1)
      ensures i == 0 ==> disk == old(disk) && vol == old(vol) && ino == old(ino)
      ensures i != 0 ==> old(ino)[i].kind == 0 && ino == old(ino)[i := Blank(kind)] && Wiped(old(vol), vol, i, kind)
      ensures i != 0 ==> ino[i].kind == kind && ino[i].major == ino[i].minor == ino[i].nlink == 0 && ino[i].size == 0
      ensures i != 0 ==> |ino[i].addrs| == 14 && forall k | 0 <= k < 14 :: ino[i].addrs[k] == 0
      ensures i != 0 ==>
        var b := g.inodestart + i / 4;
        && b < |disk| == |old(disk)| && disk == old(disk)[b := disk[b]] && BlankIn(disk[b], i % 4, kind)
        && Within(old(disk)[b], disk[b], 128 * (i % 4), 128 * (i % 4) + 128)
      ensures forall j | 1 <= j < (if i != 0 then i else g.ninodes) :: old(ino)[j].kind != 0
    {
      i := FindFreeInode();
      if i != 0 {
        Wipe(vol, i, kind);
        WipeInode(i, Blank(kind));
      }
    }
  }
}
