/** The block trees of all inodes over one disk, as values: which pointer slot
    holds which block, who owns a block, and what bytes a file holds. */
module Volume {
  import opened Blocks

  const NDIRECT: nat := 12
  const MAXFILE: nat := NDIRECT + NINDIRECT + NINDIRECT * NINDIRECT
  const MAXBYTES: nat := MAXFILE * BSIZE
  const FLAT: nat := (NDIRECT + NINDIRECT) * BSIZE // bytes a file can hold without a doubly indirect tree

  type Short = x: int | -0x8000 <= x < 0x8000

  datatype Dinode = Dinode(kind: Short, major: Short, minor: Short, nlink: Short, size: Word32, addrs: seq<Word32>)

  /** blocks shows the data area only (metadata blocks read as zero), used is the
      free bitmap, nodes the inodes by number, start the first data block. */
  datatype Vol = Vol(start: nat, blocks: seq<Block>, used: seq<bool>, nodes: seq<Dinode>)

  ghost predicate WF(v: Vol) {
    && 0 < v.start <= |v.blocks| == |v.used| < 0x1_0000_0000
    && (forall b | 0 <= b < v.start :: v.used[b] && v.blocks[b] == Zeroes())
    && (forall i | 0 <= i < |v.nodes| :: |v.nodes[i].addrs| == NDIRECT + 2)
  }

  /** The places that hold block numbers: the 14 words of an inode, the words of
      its indirect block, of its level-1 block and of its level-2 blocks. */
  datatype Slot =
    | Addr(i: nat, k: nat)
    | Ind(i: nat, k: nat)
    | L1(i: nat, k: nat)
    | L2(i: nat, k: nat, j: nat)
  {
    /** The block behind this slot holds pointers, not file data. */
    predicate Index() {
      L1? || (Addr? && k >= NDIRECT)
    }
  }

  predicate Ok(v: Vol, s: Slot) {
    s.i < |v.nodes| && Shaped(s)
  }

  predicate Shaped(s: Slot) {
    s.k < (if s.Addr? then NDIRECT + 2 else NINDIRECT) && (s.L2? ==> s.j < NINDIRECT)
  }

  function Deref(v: Vol, p: nat, k: nat): (w: nat) {
    if p < |v.blocks| && k < NINDIRECT then Word(v.blocks[p], k) else 0
  }

  /** The slot that names the block holding slot s. */
  function Up(s: Slot): (h: Slot)
    requires !s.Addr?
    ensures h.Index() && h.i == s.i
  {
    match s
    case Ind(i, _) => Addr(i, NDIRECT)
    case L1(i, _) => Addr(i, NDIRECT + 1)
    case L2(i, k, _) => L1(i, k)
  }

  function Idx(s: Slot): (k: nat) {
    if s.L2? then s.j else s.k
  }

  /** The block number in slot s; 0 means none. */
  ghost function Ptr(v: Vol, s: Slot): (p: nat)
    decreases if s.Addr? then 0 else if s.L2? then 2 else 1
  {
    if s.Addr? then
      (if s.i < |v.nodes| && s.k < |v.nodes[s.i].addrs| then v.nodes[s.i].addrs[s.k] else 0)
    else
      Deref(v, Ptr(v, Up(s)), Idx(s))
  }

  /** Every block in some slot is a data block marked in use, in no other slot. */
  ghost predicate Own(v: Vol) {
    && WF(v)
    && (forall s {:trigger Ok(v, s)} | Ok(v, s) && Ptr(v, s) != 0 :: v.start <= Ptr(v, s) < |v.used| && v.used[Ptr(v, s)])
    && (forall s, t {:trigger Ok(v, s), Ok(v, t)} | Ok(v, s) && Ok(v, t) && Ptr(v, s) != 0 && Ptr(v, s) == Ptr(v, t) :: s == t)
  }

  /** No file is larger than its tree can map. */
  ghost predicate SizesOk(v: Vol) {
    forall j {:trigger v.nodes[j]} | 0 <= j < |v.nodes| :: v.nodes[j].size <= MAXBYTES
  }

  ghost predicate Fresh(v: Vol, b: nat) {
    v.start <= b < |v.used| == |v.blocks| && !v.used[b]
  }

  /** A block balloc hands out hangs in no tree. */
  lemma NeverLive(v: Vol, b: nat, s: Slot)
    requires Own(v) && Fresh(v, b) && Ok(v, s)
    ensures Ptr(v, s) != b
  {
  }

  /** balloc's effect: block b marked in use and zeroed. */
  ghost function Take(v: Vol, b: nat): (r: Vol)
    ensures WF(v) && v.start <= b ==> WF(r)
  {
    if b < |v.used| && b < |v.blocks| then v.(used := v.used[b := true], blocks := v.blocks[b := Zeroes()]) else v
  }

  /** The place where slot s is stored exists. */
  ghost predicate Reachable(v: Vol, s: Slot) {
    Ok(v, s) && (s.Addr? || v.start <= Ptr(v, Up(s)) < |v.blocks|)
  }

  /** Store b in slot s. */
  ghost function Put(v: Vol, s: Slot, b: nat): (r: Vol) {
    if !Reachable(v, s) || b >= 0x1_0000_0000 || (s.Addr? && s.k >= |v.nodes[s.i].addrs|) then
      v
    else if s.Addr? then
      v.(nodes := v.nodes[s.i := v.nodes[s.i].(addrs := v.nodes[s.i].addrs[s.k := b])])
    else
      var p := Ptr(v, Up(s));
      v.(blocks := v.blocks[p := SetWord(v.blocks[p], Idx(s), b)])
  }

  ghost predicate SameShape(v: Vol, r: Vol) {
    && r.start == v.start && |r.blocks| == |v.blocks| && |r.used| == |v.used| && |r.nodes| == |v.nodes|
  }

  lemma ZeroWords()
    ensures forall k: nat | k < NINDIRECT :: Word(Zeroes(), k) == 0
  {
  }

  /** Zeroing a block nobody owns moves no pointer. */
  lemma TakePtr(v: Vol, b: nat, t: Slot)
    requires Own(v) && Fresh(v, b) && Ok(v, t)
    ensures Ptr(Take(v, b), t) == Ptr(v, t)
    decreases if t.Addr? then 0 else if t.L2? then 2 else 1
  {
    if !t.Addr? {
      assert Ok(v, Up(t));
      TakePtr(v, b, Up(t));
    }
  }

  /** What hanging block b into slot s does to word k of block q: b is zeroed, slot s is set. */
  lemma HungWord(v: Vol, s: Slot, b: nat, q: nat, k: nat)
    requires Own(v) && Reachable(v, s) && Fresh(v, b) && q < |v.blocks| && k < NINDIRECT && (q == b || v.used[q])
    ensures Reachable(Take(v, b), s)
    ensures Deref(Put(Take(v, b), s, b), q, k) ==
      if q == b then 0 else if !s.Addr? && q == Ptr(v, Up(s)) && k == Idx(s) then b else Deref(v, q, k)
  {
    ZeroWords();
    if !s.Addr? {
      assert Ok(v, Up(s));
      TakePtr(v, b, Up(s));
    }
  }

  /** A fresh block hung into an empty slot changes that slot and no other. */
  lemma HangPtr(v: Vol, s: Slot, b: nat, t: Slot)
    requires Own(v) && Reachable(v, s) && Ptr(v, s) == 0 && Fresh(v, b) && Ok(v, t)
    ensures Reachable(Take(v, b), s)
    ensures Ptr(Put(Take(v, b), s, b), t) == if t == s then b else Ptr(v, t)
    decreases if t.Addr? then 0 else if t.L2? then 2 else 1
  {
    HungWord(v, s, b, b, 0);
    if !t.Addr? {
      HangPtr(v, s, b, Up(t));
      HungWordIn(v, s, b, t, if Up(t) == s then b else Ptr(v, Up(t)));
    }
  }

  lemma HungWordIn(v: Vol, s: Slot, b: nat, t: Slot, q: nat)
    requires Own(v) && Reachable(v, s) && Ptr(v, s) == 0 && Fresh(v, b) && Ok(v, t) && !t.Addr?
    requires q == if Up(t) == s then b else Ptr(v, Up(t))
    ensures Reachable(Take(v, b), s) && Deref(Put(Take(v, b), s, b), q, Idx(t)) == if t == s then b else Ptr(v, t)
  {
    assert Ok(v, Up(t)) && (s.Addr? || Ok(v, Up(s)));
    ZeroWords();
    HungWord(v, s, b, q, Idx(t));
  }

  /** r holds the same data behind slot t as v does. */
  ghost predicate SameData(v: Vol, r: Vol, t: Slot)
  {
    && Ptr(r, t) == Ptr(v, t)
    && Deref0(r, Ptr(r, t)) == Deref0(v, Ptr(v, t))
  }

  /** A block's data; a missing block reads as zeroes. */
  function Deref0(v: Vol, p: nat): (b: Block) {
    if p < |v.blocks| then v.blocks[p] else Zeroes()
  }

  /** Ownership is kept. */
  lemma HangOwn(v: Vol, s: Slot, b: nat)
    requires Own(v) && Reachable(v, s) && Ptr(v, s) == 0 && Fresh(v, b)
    ensures Reachable(Take(v, b), s) && Own(Put(Take(v, b), s, b))
  {
    HangPtr(v, s, b, s);
    var r := Put(Take(v, b), s, b);
    forall t | Ok(v, t) ensures Ptr(r, t) == if t == s then b else Ptr(v, t) { HangPtr(v, s, b, t); }
    forall p | Ok(r, p) && Ptr(r, p) != 0 ensures r.start <= Ptr(r, p) < |r.used| && r.used[Ptr(r, p)] {
      assert Ok(v, p);
    }
    forall p, q | Ok(r, p) && Ok(r, q) && Ptr(r, p) != 0 && Ptr(r, p) == Ptr(r, q) ensures p == q {
      assert Ok(v, p) && Ok(v, q);
    }
  }

  lemma HangIt(v: Vol, s: Slot, b: nat)
    requires Own(v) && Reachable(v, s) && Ptr(v, s) == 0 && Fresh(v, b)
    ensures Reachable(Take(v, b), s)
    ensures var r := Put(Take(v, b), s, b);
      && Own(r) && SameShape(v, r) && Ptr(r, s) == b && r.used == v.used[b := true]
      && Deref0(r, b) == Zeroes()
      && forall t | Ok(v, t) && t != s :: Ptr(r, t) == Ptr(v, t) && (t.Index() || SameData(v, r, t))
  {
    HangPtr(v, s, b, s);
    HangOwn(v, s, b);
    var r := Put(Take(v, b), s, b);
    if !s.Addr? {
      assert Ok(v, Up(s));
      TakePtr(v, b, Up(s));
    }
    forall t | Ok(v, t) && t != s ensures Ptr(r, t) == Ptr(v, t) && (t.Index() || SameData(v, r, t)) {
      HangPtr(v, s, b, t);
    }
  }

  /** Overwriting the data block behind a data slot moves no pointer. */
  lemma WritePtr(v: Vol, s: Slot, d: Block, t: Slot)
    requires Own(v) && Ok(v, s) && !s.Index() && Ptr(v, s) != 0 && Ok(v, t)
    ensures Ptr(v.(blocks := v.blocks[Ptr(v, s) := d]), t) == Ptr(v, t)
    decreases if t.Addr? then 0 else if t.L2? then 2 else 1
  {
    if !t.Addr? {
      assert Ok(v, Up(t));
      WritePtr(v, s, d, Up(t));
    }
  }

  lemma WriteData(v: Vol, s: Slot, d: Block)
    requires Own(v) && Ok(v, s) && !s.Index() && Ptr(v, s) != 0
    ensures var r := v.(blocks := v.blocks[Ptr(v, s) := d]);
      && Own(r) && SameShape(v, r) && Ptr(r, s) == Ptr(v, s) && Deref0(r, Ptr(r, s)) == d
      && forall t | Ok(v, t) && t != s :: SameData(v, r, t)
  {
    var r := v.(blocks := v.blocks[Ptr(v, s) := d]);
    forall t | Ok(v, t) ensures Ptr(r, t) == Ptr(v, t) { WritePtr(v, s, d, t); }
    assert forall t :: Ok(r, t) <==> Ok(v, t);
  }

  /** The slot bmap looks up for block bn of file i. */
  function DataSlot(i: nat, bn: nat): (s: Slot)
    ensures !s.Index() && s.i == i
  {
    if bn < NDIRECT then Addr(i, bn)
    else if bn < NDIRECT + NINDIRECT then Ind(i, bn - NDIRECT)
    else L2(i, (bn - NDIRECT - NINDIRECT) / NINDIRECT, (bn - NDIRECT - NINDIRECT) % NINDIRECT)
  }

  /** Different block indexes of a file use different slots. */
  /** Every slot for file data is that of one block index, in the order direct, indirect, doubly indirect. */
  lemma DataSlotOnto(s: Slot) returns (bn: nat)
    requires Shaped(s) && !s.Index()
    ensures bn < MAXFILE && DataSlot(s.i, bn) == s
    ensures bn == if s.Addr? then s.k else if s.Ind? then 12 + s.k else 12 + 128 + 128 * s.k + s.j
  {
    bn := if s.Addr? then s.k else if s.Ind? then NDIRECT + s.k else NDIRECT + NINDIRECT + NINDIRECT * s.k + s.j;
    if s.L2? {
      var d := NINDIRECT * s.k + s.j;
      assert d / NINDIRECT == s.k && d % NINDIRECT == s.j;
    }
  }

  /** A file of n bytes has a slot for each of its blocks exactly if it is no longer than MAXBYTES. */
  lemma FitsIff(i: nat, n: nat)
    ensures n <= MAXBYTES <==> forall bn: nat {:trigger DataSlot(i, bn)} | bn * BSIZE < n :: Shaped(DataSlot(i, bn))
  {
    if n > MAXBYTES {
      assert MAXFILE * BSIZE < n && !Shaped(DataSlot(i, MAXFILE));
    }
  }

  lemma DataSlotInjective(i: nat, bn: nat, cn: nat)
    requires bn < MAXFILE && cn < MAXFILE && DataSlot(i, bn) == DataSlot(i, cn)
    ensures bn == cn
  {
  }

  /** Byte k of file i; unmapped blocks read as zero. */
  ghost function ByteAt(v: Vol, i: nat, k: nat): (x: Byte)
  {
    Deref0(v, Ptr(v, DataSlot(i, k / BSIZE)))[k % BSIZE]
  }

  /** The file as users see it. */
  ghost function Content(v: Vol, i: nat): (c: seq<Byte>)
    requires i < |v.nodes|
    ensures |c| == v.nodes[i].size
    ensures forall k | 0 <= k < |c| :: c[k] == ByteAt(v, i, k)
  {
    seq(v.nodes[i].size, k requires k >= 0 => ByteAt(v, i, k))
  }

  /** No byte of any file changed, inside or beyond its size. */
  ghost predicate SameBytes(v: Vol, r: Vol) {
    forall j: nat, k: nat {:trigger ByteAt(r, j, k)} | j < |v.nodes| && k < MAXBYTES :: ByteAt(r, j, k) == ByteAt(v, j, k)
  }

  lemma SameDataBytes(v: Vol, r: Vol)
    requires WF(v) && WF(r) && SameShape(v, r)
    requires forall t | Ok(v, t) && !t.Index() :: Deref0(r, Ptr(r, t)) == Deref0(v, Ptr(v, t))
    ensures SameBytes(v, r)
  {
  }

  ghost function FreeSet(v: Vol): (s: set<int>) {
    set b | 0 <= b < |v.used| && !v.used[b]
  }

  /** The free-block count. */
  ghost function Free(v: Vol): (n: nat) {
    |FreeSet(v)|
  }

  lemma TakeFree(v: Vol, r: Vol, b: nat)
    requires b < |v.used| && !v.used[b] && r.used == v.used[b := true]
    ensures Free(r) == Free(v) - 1
  {
    assert FreeSet(v) == FreeSet(r) + {b};
  }

  lemma NoneFree(v: Vol)
    requires forall b | 0 <= b < |v.used| :: v.used[b]
    ensures Free(v) == 0
  {
    assert FreeSet(v) == {};
  }

  /** Block b hangs in the tree of inode i. */
  ghost predicate OwnedBy(v: Vol, i: nat, b: nat) {
    b != 0 && exists s :: Ok(v, s) && s.i == i && Ptr(v, s) == b
  }

  /** Only inode i's tree changed, and it only gained blocks. */
  ghost predicate Extends(v: Vol, r: Vol, i: nat) {
    && Own(v) && Own(r) && SameShape(v, r) && i < |v.nodes|
    && r.nodes == v.nodes[i := v.nodes[i].(addrs := r.nodes[i].addrs)]
    && (forall t {:trigger Ok(v, t)} {:trigger Ok(r, t)} | Ok(v, t) ::
          Ptr(r, t) == Ptr(v, t) || (t.i == i && Ptr(v, t) == 0 && Fresh(v, Ptr(r, t))))
    && (forall b {:trigger r.used[b]} | 0 <= b < |v.used| :: (v.used[b] ==> r.used[b]) && (r.used[b] && !v.used[b] ==> OwnedBy(r, i, b)))
  }

  /** The tree of inode i gained blocks, each fresh and zeroed, and nothing else happened. */
  ghost predicate Grew(v: Vol, r: Vol, i: nat) {
    Extends(v, r, i) && SameBytes(v, r)
  }

  lemma HangGrew(v: Vol, s: Slot, b: nat)
    requires Own(v) && Reachable(v, s) && Ptr(v, s) == 0 && Fresh(v, b)
    ensures Reachable(Take(v, b), s)
    ensures var r := Put(Take(v, b), s, b); Grew(v, r, s.i) && Ptr(r, s) == b && Free(r) == Free(v) - 1
  {
    HangIt(v, s, b);
    var r := Put(Take(v, b), s, b);
    assert Deref0(v, 0) == Zeroes();
    SameDataBytes(v, r);
    TakeFree(v, r, b);
    HungExtends(v, s, b, r);
  }

  lemma HungExtends(v: Vol, s: Slot, b: nat, r: Vol)
    requires Own(v) && Own(r) && SameShape(v, r) && Ok(v, s) && Ptr(v, s) == 0 && Fresh(v, b) && Ptr(r, s) == b
    requires r.used == v.used[b := true] && (forall t | Ok(v, t) && t != s :: Ptr(r, t) == Ptr(v, t))
    requires s.i < |v.nodes| == |r.nodes| && r.nodes == v.nodes[s.i := v.nodes[s.i].(addrs := r.nodes[s.i].addrs)]
    ensures Extends(v, r, s.i)
  {
    assert Ok(r, s);
    assert OwnedBy(r, s.i, b);
  }

  lemma GrewTrans(v: Vol, r: Vol, q: Vol, i: nat)
    requires Grew(v, r, i) && Grew(r, q, i)
    ensures Grew(v, q, i)
  {
    ExtendsTrans(v, r, q, i);
  }

  lemma ExtendsTrans(v: Vol, r: Vol, q: Vol, i: nat)
    requires Extends(v, r, i) && Extends(r, q, i)
    ensures Extends(v, q, i)
  {
    forall t | Ok(v, t)
      ensures Ptr(q, t) == Ptr(v, t) || (t.i == i && Ptr(v, t) == 0 && Fresh(v, Ptr(q, t)))
    {
      assert Ok(r, t) && Ok(q, t);
      if Ptr(r, t) == 0 && Ptr(q, t) != 0 { assert r.used[Ptr(q, t)] == false; }
    }
    forall b | 0 <= b < |v.used| && q.used[b] && !v.used[b] ensures OwnedBy(q, i, b) {
      if r.used[b] {
        var s :| Ok(r, s) && s.i == i && Ptr(r, s) == b;
        assert Ok(q, s) && Ptr(q, s) == b;
      }
    }
  }

  /** How many blocks bmap must allocate to map block bn of file i. */
  ghost function Missing(v: Vol, i: nat, bn: nat): (n: nat)
  {
    var s := DataSlot(i, bn);
    if Ptr(v, s) != 0 then 0
    else if s.Addr? || Ptr(v, Up(s)) != 0 then 1
    else if s.Ind? || Ptr(v, Addr(i, NDIRECT + 1)) != 0 then 2
    else 3
  }

  /** File i has a doubly indirect tree. */
  ghost predicate Deep(v: Vol, i: nat) {
    Ptr(v, Addr(i, NDIRECT + 1)) != 0
  }

  ghost predicate AllSlots(t: set<Slot>, i: nat) {
    forall s {:trigger s in t} :: s in t <==> s.i == i && Shaped(s)
  }

  lemma SomeSlots(i: nat)
    ensures exists t :: AllSlots(t, i)
  {
    var t := (set k: nat | k < NDIRECT + 2 :: Addr(i, k)) + (set k: nat | k < NINDIRECT :: Ind(i, k))
    + (set k: nat | k < NINDIRECT :: L1(i, k)) + (set k: nat, j: nat | k < NINDIRECT && j < NINDIRECT :: L2(i, k, j));
    assert AllSlots(t, i);
  }

  /** The slots of inode i. */
  ghost function Slots(i: nat): (t: set<Slot>)
    ensures AllSlots(t, i)
  {
    SomeSlots(i);
    var t :| AllSlots(t, i);
    t
  }

  /** The slots of inode i that hold a block. */
  ghost function Taken(v: Vol, i: nat): (t: set<Slot>) {
    set s | s in Slots(i) && Ptr(v, s) != 0
  }

  /** Data slot s and the index slots above it. */
  function Above(s: Slot): (t: set<Slot>) {
    if s.Addr? then {s} else if s.L2? then {Up(Up(s)), Up(s), s} else {Up(s), s}
  }

  /** The slots bmap goes through for block bn of file i, down to the one that holds its number. */
  function Route(i: nat, bn: nat): (t: set<Slot>) {
    Above(DataSlot(i, bn))
  }

  /** Fetching block bn of file i fills the empty slots on its route, or as many as there are free blocks. */
  ghost predicate Fetched(v: Vol, r: Vol, i: nat, bn: nat) {
    && Taken(v, i) <= Taken(r, i) <= Taken(v, i) + Route(i, bn)
    && (if Missing(v, i, bn) <= Free(v)
        then Taken(r, i) == Taken(v, i) + Route(i, bn) && Free(r) + Missing(v, i, bn) == Free(v)
        else Free(r) == 0)
  }

  /** A slot is filled only below a filled one. */
  lemma TakenUp(v: Vol, s: Slot)
    requires WF(v) && !s.Addr? && Ptr(v, s) != 0
    ensures Ptr(v, Up(s)) != 0
  {
    ZeroWords();
  }

  lemma RouteShaped(i: nat, bn: nat)
    requires bn < MAXFILE
    ensures Route(i, bn) <= Slots(i) && DataSlot(i, bn) in Route(i, bn) && Shaped(DataSlot(i, bn))
  {
  }

  /** Missing counts the empty slots on the route. */
  lemma MissingCounts(v: Vol, i: nat, bn: nat)
    requires WF(v) && bn < MAXFILE
    ensures Missing(v, i, bn) == |Route(i, bn) - Taken(v, i)|
  {
    RouteShaped(i, bn);
    EmptyAbove(v, i, DataSlot(i, bn));
  }

  lemma EmptyAbove(v: Vol, i: nat, s: Slot)
    requires WF(v) && Shaped(s) && s.i == i && !s.Index()
    ensures Ptr(v, s) != 0 ==> Above(s) - Taken(v, i) == {}
    ensures Ptr(v, s) == 0 && (s.Addr? || Ptr(v, Up(s)) != 0) ==> Above(s) - Taken(v, i) == {s}
    ensures !s.Addr? && Ptr(v, s) == 0 == Ptr(v, Up(s)) && (!s.L2? || Ptr(v, Up(Up(s))) != 0) ==> Above(s) - Taken(v, i) == {s, Up(s)}
    ensures s.L2? && Ptr(v, s) == 0 == Ptr(v, Up(s)) == Ptr(v, Up(Up(s))) ==> Above(s) - Taken(v, i) == {s, Up(s), Up(Up(s))}
  {
    if Ptr(v, s) != 0 && !s.Addr? { TakenUp(v, s); }
    if s.L2? && Ptr(v, Up(s)) != 0 { TakenUp(v, Up(s)); }
  }

  /** Growing by slots on the route of block bn, and by all of them if space allows. */
  lemma FetchedBy(v: Vol, r: Vol, i: nat, bn: nat)
    requires Extends(v, r, i) && bn < MAXFILE
    requires forall t | Ok(v, t) && t !in Route(i, bn) :: Ptr(r, t) == Ptr(v, t)
    requires if Missing(v, i, bn) <= Free(v) then Ptr(r, DataSlot(i, bn)) != 0 && Free(r) + Missing(v, i, bn) == Free(v) else Free(r) == 0
    ensures Fetched(v, r, i, bn)
  {
    ZeroWords();
    forall s | s in Slots(i) ensures Ok(v, s) && (s in Taken(v, i) ==> s in Taken(r, i)) { assert Ok(v, s); }
    if Missing(v, i, bn) <= Free(v) {
      var s := DataSlot(i, bn);
      assert Ok(r, s) && (s.Addr? || Ptr(r, Up(s)) != 0) && (!s.L2? || Ptr(r, Up(Up(s))) != 0);
      assert Route(i, bn) <= Taken(r, i);
    }
  }

  lemma SameFree(v: Vol, r: Vol)
    requires r.used == v.used
    ensures Free(r) == Free(v)
  {
    assert FreeSet(r) == FreeSet(v);
  }

  lemma Counts<T>(a: set<T>, b: set<T>)
    requires a <= b
    ensures |a| <= |b| && (|a| == |b| <==> a == b)
  {
    assert b == a + (b - a);
    if b - a == {} { assert a == b; }
  }

  lemma FreshCounts(v: Vol, b: nat)
    requires Fresh(v, b)
    ensures Free(v) > 0
  {
    assert b in FreeSet(v);
  }

  function Max(a: nat, b: nat): nat {
    if a > b then a else b
  }

  lemma GrewRefl(v: Vol, i: nat)
    requires Own(v) && i < |v.nodes|
    ensures Grew(v, v, i)
  {
  }

  /** Inode i's tree gained at most the block behind slot s. */
  ghost predicate GrewAt(v: Vol, r: Vol, s: Slot) {
    && Grew(v, r, s.i) && Ok(v, s)
    && (forall t | Ok(v, t) && t != s :: Ptr(r, t) == Ptr(v, t))
    && (r != v ==> Ptr(v, s) == 0)
    && (Ptr(r, s) == Ptr(v, s) ==> r == v)
    && (Ptr(r, s) != 0 && Ptr(v, s) == 0 ==> Free(r) == Free(v) - 1)
    && (Ptr(r, s) == 0 ==> Free(r) == 0)
  }

  lemma HangGrewAt(v: Vol, s: Slot, b: nat)
    requires Own(v) && Reachable(v, s) && Ptr(v, s) == 0 && Fresh(v, b)
    ensures Reachable(Take(v, b), s)
    ensures GrewAt(v, Put(Take(v, b), s, b), s) && Ptr(Put(Take(v, b), s, b), s) == b
  {
    HangGrew(v, s, b);
    HangIt(v, s, b);
  }

  /** A kernel call returns, or stops the machine in panic()/BUG(). */
  datatype Outcome = Hang | Ret(value: int)

  /** What bmap(i, bn) may do to volume v: map the block and return it, or run out of space
      and return 0, or run out of space inside the doubly indirect tree and stop the machine. */
  ghost predicate Mapped(v: Vol, r: Vol, i: nat, bn: nat, o: Outcome) {
    var m := Missing(v, i, bn);
    && Grew(v, r, i)
    && (o.Hang? <==> bn >= NDIRECT + NINDIRECT && Free(v) + 1 < m)
    && (o.Ret? ==> o.value == Ptr(r, DataSlot(i, bn)) && (o.value == 0 <==> Free(v) < m))
    && (m == 0 ==> r == v)
    && Fetched(v, r, i, bn)
    && Free(r) == if Free(v) < m then 0 else Free(v) - m
  }

  lemma MapDirect(v: Vol, r: Vol, i: nat, bn: nat)
    requires bn < NDIRECT && GrewAt(v, r, DataSlot(i, bn))
    ensures Mapped(v, r, i, bn, Ret(Ptr(r, DataSlot(i, bn))))
  {
    FetchedBy(v, r, i, bn);
  }

  lemma MapIndirect(v: Vol, v1: Vol, r: Vol, i: nat, bn: nat)
    requires NDIRECT <= bn < NDIRECT + NINDIRECT && GrewAt(v, v1, Up(DataSlot(i, bn)))
    requires if Ptr(v1, Up(DataSlot(i, bn))) == 0 then r == v1 else GrewAt(v1, r, DataSlot(i, bn))
    ensures Mapped(v, r, i, bn, Ret(Ptr(r, DataSlot(i, bn))))
  {
    var s := DataSlot(i, bn);
    ZeroWords();
    if Ptr(v1, Up(s)) != 0 {
      GrewTrans(v, v1, r, i);
      assert Ptr(v1, s) == Ptr(v, s);
    } else {
      assert Ptr(v, s) == 0;
    }
    FetchedBy(v, r, i, bn);
  }

  lemma MapDouble(v: Vol, v1: Vol, v2: Vol, r: Vol, i: nat, bn: nat)
    requires NDIRECT + NINDIRECT <= bn < MAXFILE
    requires GrewAt(v, v1, Addr(i, NDIRECT + 1)) && GrewAt(v1, v2, Up(DataSlot(i, bn)))
    requires Ptr(v1, Addr(i, NDIRECT + 1)) == 0 ==> v2 == v1
    requires if Ptr(v2, Up(DataSlot(i, bn))) == 0 then r == v2 else GrewAt(v2, r, DataSlot(i, bn))
    ensures Mapped(v, r, i, bn, if Ptr(v2, Up(DataSlot(i, bn))) == 0 then Outcome.Hang else Ret(Ptr(r, DataSlot(i, bn))))
  {
    var s, a := DataSlot(i, bn), Addr(i, NDIRECT + 1);
    ZeroWords();
    GrewTrans(v, v1, v2, i);
    assert Ptr(v1, Up(s)) == Ptr(v, Up(s)) && Ptr(v1, s) == Ptr(v, s) && Ptr(v2, s) == Ptr(v, s);
    assert Ptr(v, a) == 0 ==> Ptr(v, Up(s)) == 0;
    assert Ptr(v, Up(s)) == 0 ==> Ptr(v, s) == 0;
    if Ptr(v2, Up(s)) != 0 {
      GrewTrans(v, v2, r, i);
    }
    FetchedBy(v, r, i, bn);
  }

  /** r is v with the bytes of data stored from offset off in file i; the tree of i may have grown. */
  ghost predicate Wrote(v: Vol, r: Vol, i: nat, off: nat, data: seq<Byte>) {
    && Extends(v, r, i)
    && forall j: nat, k: nat {:trigger ByteAt(r, j, k)} | j < |v.nodes| && k < MAXBYTES ::
         ByteAt(r, j, k) == if j == i && off <= k < off + |data| then data[k - off] else ByteAt(v, j, k)
  }

  lemma WroteThenGrew(v: Vol, r: Vol, q: Vol, i: nat, off: nat, data: seq<Byte>)
    requires Wrote(v, r, i, off, data) && Grew(r, q, i)
    ensures Wrote(v, q, i, off, data)
  {
    ExtendsTrans(v, r, q, i);
  }

  /** memmove of data into a block at offset at. */
  function Splice(d: Block, at: nat, data: seq<Byte>): (r: Block)
    requires at + |data| <= BSIZE
    ensures forall k | 0 <= k < BSIZE :: r[k] == if at <= k < at + |data| then data[k - at] else d[k]
  {
    d[..at] + data + d[at + |data|..]
  }

  /** One step of writei: the chunk that fits into the block at file offset off. */
  lemma WriteChunk(v: Vol, i: nat, off: nat, data: seq<Byte>, p: nat)
    requires Own(v) && i < |v.nodes| && off % BSIZE + |data| <= BSIZE && off < MAXBYTES
    requires p == Ptr(v, DataSlot(i, off / BSIZE)) && p != 0
    ensures p < |v.blocks|
    ensures Wrote(v, v.(blocks := v.blocks[p := Splice(v.blocks[p], off % BSIZE, data)]), i, off, data)
  {
    var s := DataSlot(i, off / BSIZE);
    assert Ok(v, s);
    var d := Splice(v.blocks[p], off % BSIZE, data);
    var r := v.(blocks := v.blocks[p := d]);
    WriteData(v, s, d);
    WriteExtends(v, s, d);
    forall j: nat, k: nat | j < |v.nodes| && k < MAXBYTES
      ensures ByteAt(r, j, k) == if j == i && off <= k < off + |data| then data[k - off] else ByteAt(v, j, k)
    {
      WriteChunkAt(v, r, i, off, data, j, k);
    }
  }

  lemma WriteExtends(v: Vol, s: Slot, d: Block)
    requires Own(v) && Ok(v, s) && !s.Index() && Ptr(v, s) != 0
    ensures Extends(v, v.(blocks := v.blocks[Ptr(v, s) := d]), s.i)
  {
    var r := v.(blocks := v.blocks[Ptr(v, s) := d]);
    WriteData(v, s, d);
    forall t | Ok(v, t) ensures Ptr(r, t) == Ptr(v, t) { WritePtr(v, s, d, t); }
    assert r.nodes == v.nodes[s.i := v.nodes[s.i].(addrs := r.nodes[s.i].addrs)];
  }

  lemma WriteChunkAt(v: Vol, r: Vol, i: nat, off: nat, data: seq<Byte>, j: nat, k: nat)
    requires i < |v.nodes| && off % BSIZE + |data| <= BSIZE && off < MAXBYTES && j < |v.nodes| && k < MAXBYTES
    requires var s := DataSlot(i, off / BSIZE);
      && Deref0(r, Ptr(r, s)) == Splice(Deref0(v, Ptr(v, s)), off % BSIZE, data)
      && forall t | Ok(v, t) && t != s :: SameData(v, r, t)
    ensures ByteAt(r, j, k) == if j == i && off <= k < off + |data| then data[k - off] else ByteAt(v, j, k)
  {
    var s, t := DataSlot(i, off / BSIZE), DataSlot(j, k / BSIZE);
    assert Ok(v, t);
    if s == t {
      DataSlotInjective(i, off / BSIZE, k / BSIZE);
    }
  }

  lemma WroteMore(v: Vol, r: Vol, q: Vol, i: nat, off: nat, data: seq<Byte>, more: seq<Byte>)
    requires Wrote(v, r, i, off, data) && Wrote(r, q, i, off + |data|, more)
    ensures Wrote(v, q, i, off, data + more)
  {
    ExtendsTrans(v, r, q, i);
  }

  lemma GrewThenWrote(v: Vol, r: Vol, q: Vol, i: nat, off: nat, data: seq<Byte>)
    requires Grew(v, r, i) && Wrote(r, q, i, off, data)
    ensures Wrote(v, q, i, off, data)
  {
    ExtendsTrans(v, r, q, i);
  }

  /** Every block that bytes 0..n of file i lie in is mapped. */
  ghost predicate Filled(v: Vol, i: nat, n: nat) {
    forall bn: nat {:trigger DataSlot(i, bn)} | bn * BSIZE < n :: Ptr(v, DataSlot(i, bn)) != 0
  }

  ghost predicate NoHoles(v: Vol, i: nat)
    requires i < |v.nodes|
  {
    Filled(v, i, v.nodes[i].size)
  }

  /** Growing a tree unmaps nothing, and with the block at offset off mapped the file is
      filled up to that block's end. */
  lemma FilledStep(v: Vol, r: Vol, i: nat, n: nat, off: nat, end: nat)
    requires Filled(v, i, n) && Extends(v, r, i) && n <= MAXBYTES && off < MAXBYTES
    requires off <= n && off <= end <= off / BSIZE * BSIZE + BSIZE && Ptr(r, DataSlot(i, off / BSIZE)) != 0
    ensures Filled(r, i, Max(n, end))
  {
    forall bn: nat | bn * BSIZE < Max(n, end) ensures Ptr(r, DataSlot(i, bn)) != 0 {
      if bn * BSIZE < n {
        assert Ok(v, DataSlot(i, bn)) && Ptr(v, DataSlot(i, bn)) != 0;
      } else {
        assert bn == off / BSIZE;
      }
    }
  }

  lemma FilledKept(v: Vol, r: Vol, i: nat, j: nat, n: nat)
    requires Filled(v, j, n) && Extends(v, r, i) && n <= MAXBYTES && j < |v.nodes|
    ensures Filled(r, j, n)
  {
    forall bn: nat | bn * BSIZE < n ensures Ptr(r, DataSlot(j, bn)) != 0 {
      assert Ok(v, DataSlot(j, bn)) && Ptr(v, DataSlot(j, bn)) != 0;
    }
  }

  /** A volume with another size (or type, or link count) in inode i. */
  ghost function Retag(v: Vol, i: nat, d: Dinode): (r: Vol)
    requires i < |v.nodes| && d.addrs == v.nodes[i].addrs
  {
    v.(nodes := v.nodes[i := d])
  }

  lemma RetagPtr(v: Vol, i: nat, d: Dinode, t: Slot)
    requires i < |v.nodes| && d.addrs == v.nodes[i].addrs
    ensures Ptr(Retag(v, i, d), t) == Ptr(v, t)
    decreases if t.Addr? then 0 else if t.L2? then 2 else 1
  {
    if !t.Addr? { RetagPtr(v, i, d, Up(t)); }
  }

  /** Sizes, types and link counts do not enter ownership or the bytes of a tree. */
  lemma RetagKeeps(v: Vol, i: nat, d: Dinode)
    requires Own(v) && i < |v.nodes| && d.addrs == v.nodes[i].addrs
    ensures var r := Retag(v, i, d);
      Own(r) && SameShape(v, r) && SameBytes(v, r) && Free(r) == Free(v) && forall t :: Ptr(r, t) == Ptr(v, t)
  {
    var r := Retag(v, i, d);
    forall t ensures Ptr(r, t) == Ptr(v, t) { RetagPtr(v, i, d, t); }
    assert forall t :: Ok(r, t) <==> Ok(v, t);
    SameDataBytes(v, r);
    assert FreeSet(r) == FreeSet(v);
  }

  /** The result of a writei that stored data at offset off of file i. */
  ghost predicate FileWritten(v: Vol, r: Vol, i: nat, off: nat, data: seq<Byte>) {
    && Own(r) && SameShape(v, r) && i < |v.nodes| && off + |data| < 0x1_0000_0000
    && (var n := v.nodes[i];
        r.nodes == v.nodes[i := n.(addrs := r.nodes[i].addrs,
                                   size := Max(n.size, off + |data|))])
    && forall j: nat, k: nat {:trigger ByteAt(r, j, k)} | j < |v.nodes| && k < MAXBYTES ::
         ByteAt(r, j, k) == if j == i && off <= k < off + |data| then data[k - off] else ByteAt(v, j, k)
  }

  /** Seen as byte sequences: the written file has data spliced in at off, growing if needed,
      and every other file is untouched. */
  lemma WrittenContent(v: Vol, r: Vol, i: nat, off: nat, data: seq<Byte>, j: nat)
    requires FileWritten(v, r, i, off, data) && j < |v.nodes| && off <= v.nodes[i].size
    requires v.nodes[j].size <= MAXBYTES && off + |data| <= MAXBYTES
    ensures Content(r, j) ==
      var c := Content(v, j);
      if j != i then c
      else c[..off] + data + (if off + |data| <= |c| then c[off + |data|..] else [])
  {
  }

  /** Where writei's loop stands once tot bytes of src are stored. */
  ghost predicate Progress(v0: Vol, v: Vol, i: nat, off: nat, src: seq<Byte>, tot: nat) {
    && tot <= |src| && Wrote(v0, v, i, off, src[..tot])
    && (NoHoles(v0, i) ==> Filled(v, i, Max(v0.nodes[i].size, off + tot)))
  }

  lemma ProgressStart(v: Vol, i: nat, off: nat, src: seq<Byte>)
    requires Own(v) && i < |v.nodes| && off <= v.nodes[i].size
    ensures Progress(v, v, i, off, src, 0)
  {
  }

  lemma ProgressGrew(v0: Vol, v: Vol, r: Vol, i: nat, off: nat, src: seq<Byte>, tot: nat)
    requires Progress(v0, v, i, off, src, tot) && Grew(v, r, i)
    requires off + |src| <= MAXBYTES && v0.nodes[i].size <= MAXBYTES
    ensures Progress(v0, r, i, off, src, tot)
  {
    WroteThenGrew(v0, v, r, i, off, src[..tot]);
    if NoHoles(v0, i) { FilledKept(v, r, i, i, Max(v0.nodes[i].size, off + tot)); }
  }

  lemma EndInBlock(at: nat, end: nat)
    requires at <= end && at % BSIZE + (end - at) <= BSIZE
    ensures end <= at / BSIZE * BSIZE + BSIZE
  {
  }

  lemma FilledTo(v: Vol, r: Vol, i: nat, size: nat, at: nat, end: nat)
    requires Filled(v, i, Max(size, at)) && Extends(v, r, i) && size <= MAXBYTES && at < end <= MAXBYTES
    requires at % BSIZE + (end - at) <= BSIZE && Ptr(r, DataSlot(i, at / BSIZE)) != 0
    ensures Filled(r, i, Max(size, end))
  {
    EndInBlock(at, end);
    FilledStep(v, r, i, Max(size, at), at, end);
  }

  lemma ProgressWrote(v0: Vol, v: Vol, r: Vol, i: nat, off: nat, src: seq<Byte>, tot: nat, next: nat)
    requires Progress(v0, v, i, off, src, tot) && tot < next <= |src| && (off + tot) % BSIZE + (next - tot) <= BSIZE
    requires Wrote(v, r, i, off + tot, src[tot..next]) && Ptr(r, DataSlot(i, (off + tot) / BSIZE)) != 0
    requires off + |src| <= MAXBYTES && v0.nodes[i].size <= MAXBYTES && off <= v0.nodes[i].size
    ensures Progress(v0, r, i, off, src, next)
  {
    WroteMore(v0, v, r, i, off, src[..tot], src[tot..next]);
    assert src[..tot] + src[tot..next] == src[..next];
    if NoHoles(v0, i) {
      FilledTo(v, r, i, v0.nodes[i].size, off + tot, off + next);
    }
  }

  /** writei's last step: the new size. */
  lemma ProgressDone(v0: Vol, v: Vol, i: nat, off: nat, src: seq<Byte>, tot: nat, d: Dinode)
    requires Progress(v0, v, i, off, src, tot) && off + |src| <= MAXBYTES
    requires d == v.nodes[i].(size := Max(v.nodes[i].size, off + tot))
    ensures var r := Retag(v, i, d); FileWritten(v0, r, i, off, src[..tot]) && Free(r) == Free(v)
    ensures NoHoles(v0, i) ==> NoHoles(Retag(v, i, d), i)
  {
    RetagKeeps(v, i, d);
    var r := Retag(v, i, d);
    assert r.nodes == v0.nodes[i := v0.nodes[i].(addrs := r.nodes[i].addrs, size := d.size)];
  }

  /** Where readi's loop stands: out was read from v0 at offset off, and the volume is now v. */
  ghost predicate Reading(v0: Vol, v: Vol, i: nat, off: nat, out: seq<Byte>) {
    && Grew(v0, v, i) && (NoHoles(v0, i) ==> v == v0)
    && forall k {:trigger out[k]} | 0 <= k < |out| :: out[k] == ByteAt(v0, i, off + k)
  }

  /** chunk holds the bytes of file i from offset off. */
  ghost predicate ChunkOf(v: Vol, i: nat, off: nat, chunk: seq<Byte>) {
    forall k {:trigger chunk[k]} | 0 <= k < |chunk| :: chunk[k] == ByteAt(v, i, off + k)
  }

  /** The m bytes at file offset off, out of the block that holds them. */
  lemma ReadChunk(v: Vol, i: nat, off: nat, m: nat, chunk: seq<Byte>)
    requires off % BSIZE + m <= BSIZE
    requires chunk == Deref0(v, Ptr(v, DataSlot(i, off / BSIZE)))[off % BSIZE..off % BSIZE + m]
    ensures ChunkOf(v, i, off, chunk)
  {
    forall k | 0 <= k < m ensures chunk[k] == ByteAt(v, i, off + k) {
      assert (off + k) / BSIZE == off / BSIZE && (off + k) % BSIZE == off % BSIZE + k;
    }
  }

  lemma ReadingGrew(v0: Vol, v: Vol, r: Vol, i: nat, off: nat, out: seq<Byte>)
    requires Reading(v0, v, i, off, out) && Grew(v, r, i) && (NoHoles(v0, i) ==> r == v)
    ensures Reading(v0, r, i, off, out)
  {
    GrewTrans(v0, v, r, i);
  }

  lemma ReadingMore(v0: Vol, v: Vol, i: nat, off: nat, out: seq<Byte>, tot: nat, chunk: seq<Byte>)
    requires Reading(v0, v, i, off, out) && tot == |out| && ChunkOf(v, i, off + tot, chunk) && off + tot + |chunk| <= MAXBYTES
    ensures Reading(v0, v, i, off, out + chunk)
  {
    forall k | 0 <= k < |out + chunk| ensures (out + chunk)[k] == ByteAt(v0, i, off + k) {
      if k >= |out| {
        assert chunk[k - |out|] == ByteAt(v, i, off + k);
      }
    }
  }

  /** A file without holes has nothing missing below its size. */
  lemma NothingMissing(v: Vol, i: nat, at: nat)
    requires i < |v.nodes| && NoHoles(v, i) && at < v.nodes[i].size
    ensures Missing(v, i, at / BSIZE) == 0
  {
    assert at / BSIZE * BSIZE <= at;
    assert Ptr(v, DataSlot(i, at / BSIZE)) != 0;
  }
}
