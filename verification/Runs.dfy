/** Whole runs of the file system: any sequence of creations, writes, reads, truncations and
    removals behaves as it would on plain byte sequences, and accounts for every block. */
module Runs {
  import opened Blocks
  import opened Volume
  import opened Layout
  import opened Truncation
  import opened Ledger
  import opened Demand
  import opened FileSystem

  /** ok tells which copies to or from the user succeed, as in Writei and Readi. */
  datatype Op =
    | Create(kind: Short)
    | Write(i: nat, off: Word32, src: seq<Byte>, ok: (nat, nat) -> bool)
    | Read(i: nat, off: Word32, n: Word32, ok: (nat, nat) -> bool)
    | Truncate(i: nat)
    | Remove(i: nat)

  datatype Reply = Reply(o: Outcome, out: seq<Byte>)

  /** A file as a user sees it; kind 0 is a free inode. */
  datatype File = File(kind: Short, data: seq<Byte>)

  /** The simple file system: its files, the free blocks, and the filled slots of each inode. */
  datatype Shot = Shot(files: seq<File>, free: nat, trees: seq<set<Slot>>)

  ghost function FileOf(v: Vol, i: nat): (f: File)
    requires i < |v.nodes|
  {
    File(v.nodes[i].kind, Content(v, i))
  }

  /** The simple file system that volume v implements. */
  ghost predicate Shows(v: Vol, s: Shot) {
    && |s.files| == |s.trees| == |v.nodes| && s.free == Free(v)
    && (forall i: nat {:trigger FileOf(v, i)} | i < |s.files| :: s.files[i] == FileOf(v, i))
    && (forall i: nat {:trigger Taken(v, i)} | i < |s.trees| :: s.trees[i] == Taken(v, i))
  }

  /** data stored over c at offset off, growing c if needed. */
  function Over(c: seq<Byte>, off: nat, data: seq<Byte>): (r: seq<Byte>)
    requires off <= |c|
  {
    c[..off] + data + (if off + |data| <= |c| then c[off + |data|..] else [])
  }

  function StockAt(s: Shot, i: nat): (t: Stock<Slot>)
    requires i < |s.trees|
  {
    Stock(s.free, s.trees[i])
  }

  /** tree is of inode i, and has no slot without the ones above it. */
  ghost predicate Closed(i: nat, tree: set<Slot>) {
    forall s {:trigger s in tree} | s in tree :: s.i == i && Shaped(s) && (s.Addr? || Up(s) in tree)
  }

  /** An operation on file i leaves all other files alone and moves blocks between i and the free ones. */
  ghost predicate OnFile(s: Shot, t: Shot, i: nat, f: File) {
    && i < |s.files| == |s.trees| && s.files[i].kind != 0 && |t.trees| == |s.trees|
    && t.files == s.files[i := f] && t.trees == s.trees[i := t.trees[i]] && Closed(i, t.trees[i])
    && t.free + |t.trees[i]| == s.free + |s.trees[i]|
  }

  /** creat takes the first free inode from 1 on. */
  ghost predicate Creates(s: Shot, kind: Short, o: Outcome, t: Shot) {
    && o.Ret? && 0 <= o.value < Max(|s.files|, 1) && |s.trees| == |s.files|
    && (forall j | 1 <= j < (if o.value != 0 then o.value else |s.files|) :: s.files[j].kind != 0)
    && (if o.value == 0 then t == s
        else s.files[o.value].kind == 0 && t == Shot(s.files[o.value := File(kind, [])], s.free, s.trees[o.value := {}]))
  }

  /** writei refuses the range. */
  predicate Refused(data: seq<Byte>, off: nat, src: seq<Byte>) {
    off > |data| || off + |src| > MAXBYTES
  }

  /** How far a write gets with the blocks there are. */
  function WriteFate(s: Shot, i: nat, off: nat, src: seq<Byte>, ok: (nat, nat) -> bool): (f: Fate)
    requires i < |s.trees|
  {
    Goes(StockAt(s, i), Way(i), off, |src|, 0, ok)
  }

  /** A write gives -1 for a bad range. Else it stores as much as its fate is, and fills the slots it asked for. */
  ghost predicate Writes(s: Shot, i: nat, off: Word32, src: seq<Byte>, ok: (nat, nat) -> bool, o: Outcome, t: Shot) {
    && i < |s.files| == |s.trees| && s.files[i].kind != 0
    && if Refused(s.files[i].data, off, src) then o == Ret(-1) && t == s
       else
         var f := WriteFate(s, i, off, src, ok);
         && !f.hang && o == Ret(f.tot) && f.tot <= |src|
         && OnFile(s, t, i, s.files[i].(data := Over(s.files[i].data, off, src[..f.tot])))
         && Leaves(StockAt(s, i), StockAt(t, i), Way(i), off, |src|, f.tot)
  }

  /** A read delivers the bytes the file has there; -1 exactly where a copy fails, after the bytes before. */
  ghost predicate Reads(s: Shot, i: nat, off: Word32, n: Word32, ok: (nat, nat) -> bool, r: Reply, t: Shot) {
    && i < |s.files| && s.files[i].kind != 0 && t == s && |s.files[i].data| < 0x1_0000_0000
    && (var w := Want(|s.files[i].data|, off, n);
        var c := Copied(off, w, 0, ok);
        && r.o == Ret(if c == w then w else -1) && |r.out| == c
        && (c > 0 ==> off + c <= |s.files[i].data| && r.out == s.files[i].data[off..off + c]))
  }

  /** So a read delivers what is there of the bytes asked for. */
  lemma ReadsDeliver(s: Shot, i: nat, off: Word32, n: Word32, ok: (nat, nat) -> bool, r: Reply, t: Shot)
    requires Reads(s, i, off, n, ok, r, t)
    ensures t == s && Delivered(s.files[i].data, off, n, ok, r.o, r.out)
    ensures AllOk(ok) && off <= |s.files[i].data| && off + n < 0x1_0000_0000 ==>
      var m := if n < |s.files[i].data| - off then n else |s.files[i].data| - off;
      r == Reply(Ret(m), s.files[i].data[off..off + m])
  {
    DeliveredBy(s.files[i].data, off, n, Want(|s.files[i].data|, off, n), ok, r.o, r.out);
    DeliveredWhole(s.files[i].data, off, n, ok, r.o, r.out);
  }

  /** And a write with blocks for all of it, and copies that succeed, is stored whole. */
  lemma WritesStore(s: Shot, i: nat, off: Word32, src: seq<Byte>, ok: (nat, nat) -> bool, o: Outcome, t: Shot)
    requires Writes(s, i, off, src, ok, o, t) && AllOk(ok) && Need(s.trees[i], Way(i), off, |src|) <= s.free
    ensures o == Ret(-1) <==> off > |s.files[i].data| || off + |src| > 512 * (12 + 128 + 128 * 128)
    ensures o != Ret(-1) ==> o == Ret(|src|) && t.files == s.files[i := s.files[i].(data := Over(s.files[i].data, off, src))]
  {
    GoesFar(StockAt(s, i), Way(i), off, |src|, 0, ok);
    CopiedAll(off, |src|, 0, ok);
    assert src[..|src|] == src;
  }

  /** Emptying file i empties its slots, all but the doubly indirect tree. */
  ghost predicate Empties(s: Shot, i: nat, kind: Short, r: Reply, t: Shot) {
    r == Reply(Ret(0), []) && OnFile(s, t, i, File(kind, [])) && t.trees[i] == Lasting(s.trees[i])
  }

  /** One operation on the simple file system, and the reply to it. */
  ghost predicate Serves(s: Shot, op: Op, r: Reply, t: Shot) {
    match op
    case Create(kind) => Creates(s, kind, r.o, t) && r.out == []
    case Write(i, off, src, ok) => Writes(s, i, off, src, ok, r.o, t) && r.out == []
    case Read(i, off, n, ok) => Reads(s, i, off, n, ok, r, t)
    case Truncate(i) => i < |s.files| && Empties(s, i, s.files[i].kind, r, t)
    case Remove(i) => Empties(s, i, 0, r, t)
  }

  /** When an operation stops the machine: a free inode is locked ("ilock: no type"), or a write past the
      indirect blocks lacks both a block and the index block for it, BUG_ON(!addr) in bmap. */
  ghost predicate Stops(s: Shot, op: Op) {
    match op
    case Create(_) => false
    case Write(i, off, src, ok) =>
      i < |s.files| == |s.trees|
      && (s.files[i].kind == 0 || (!Refused(s.files[i].data, off, src) && WriteFate(s, i, off, src, ok).hang))
    case Read(i, _, _, _) => i < |s.files| && s.files[i].kind == 0
    case Truncate(i) => i < |s.files| && s.files[i].kind == 0
    case Remove(i) => i < |s.files| && s.files[i].kind == 0
  }

  /** What stops the machine is not served, and what is served does not stop it. */
  lemma StopsOrServes(s: Shot, op: Op, r: Reply, t: Shot)
    requires Serves(s, op, r, t)
    ensures !Stops(s, op)
  {
  }

  /** The state between operations: ownership holds, in-core inodes are written back and belong to
      allocated inodes, and no file has a hole. */
  ghost predicate Sound(fs: Fs)
    reads fs
  {
    && fs.Valid() && fs.Synced() && (forall j | j in fs.cache :: fs.ino[j].kind != 0)
    && Whole(fs.vol)
  }

  ghost predicate Whole(v: Vol) {
    forall j: nat {:trigger NoHoles(v, j)} | j < |v.nodes| :: NoHoles(v, j)
  }

  /** Holes do not appear in files an operation does not touch. */
  lemma TouchedWhole(v: Vol, r: Vol, i: nat)
    requires Touched(v, r, i) && Whole(v) && NoHoles(r, i)
    requires SizesOk(v)
    ensures Whole(r)
  {
    forall j: nat | j < |r.nodes| ensures NoHoles(r, j) {
      if j != i {
        assert NoHoles(v, j);
        forall bn: nat | bn * BSIZE < r.nodes[j].size ensures Ptr(r, DataSlot(j, bn)) != 0 {
          assert Ok(v, DataSlot(j, bn)) && Ptr(v, DataSlot(j, bn)) != 0;
        }
      }
    }
  }

  /** Simple file system s after an operation on file i that led to volume r. */
  ghost function After(s: Shot, r: Vol, i: nat): (t: Shot)
    requires i < |r.nodes| == |s.files| == |s.trees|
  {
    Shot(s.files[i := FileOf(r, i)], Free(r), s.trees[i := Taken(r, i)])
  }

  lemma TakenClosed(v: Vol, i: nat)
    requires WF(v) && i < |v.nodes|
    ensures Closed(i, Taken(v, i))
  {
    forall s | s in Taken(v, i) ensures s.Addr? || Up(s) in Taken(v, i) {
      if !s.Addr? { TakenUp(v, s); }
    }
  }

  /** Files an operation does not touch show the same, and blocks move only between i and the free ones. */
  lemma TouchedFiles(v: Vol, r: Vol, i: nat, s: Shot)
    requires Touched(v, r, i) && Shows(v, s) && SizesOk(v)
    ensures Shows(r, After(s, r, i)) && (s.files[i].kind != 0 ==> OnFile(s, After(s, r, i), i, FileOf(r, i)))
  {
    forall j: nat | j < |r.nodes| && j != i ensures s.files[j] == FileOf(r, j) && Taken(r, j) == s.trees[j] {
      assert s.files[j] == FileOf(v, j) && s.trees[j] == Taken(v, j);
      assert Content(r, j) == Content(v, j);
      TakenKept(v, r, i, j);
    }
    TakenConserved(v, r, i);
    TakenClosed(r, i);
    assert s.trees[i] == Taken(v, i);
  }

  lemma WroteFile(v: Vol, r: Vol, i: nat, off: nat, data: seq<Byte>, s: Shot)
    requires FileWritten(v, r, i, off, data) && Touched(v, r, i) && Shows(v, s) && Whole(v) && NoHoles(r, i)
    requires off <= v.nodes[i].size && off + |data| <= MAXBYTES && SizesOk(v) && s.files[i].kind != 0
    ensures off <= |s.files[i].data| && Shows(r, After(s, r, i)) && Whole(r)
    ensures OnFile(s, After(s, r, i), i, s.files[i].(data := Over(s.files[i].data, off, data)))
  {
    assert s.files[i] == FileOf(v, i);
    WrittenContent(v, r, i, off, data, i);
    TouchedFiles(v, r, i, s);
    TouchedWhole(v, r, i);
  }

  /** A write that returned, seen on the simple file system. */
  lemma WriteServes(v: Vol, r: Vol, i: nat, off: Word32, src: seq<Byte>, ok: (nat, nat) -> bool, tot: nat, s: Shot)
    requires tot <= |src| && FileWritten(v, r, i, off, src[..tot]) && Touched(v, r, i) && Shows(v, s) && Whole(v) && NoHoles(r, i)
    requires off <= v.nodes[i].size && off + |src| <= MAXBYTES && SizesOk(v) && v.nodes[i].kind != 0
    requires Ended(v, r, i, off, |src|, tot, false, ok)
    ensures Shows(r, After(s, r, i)) && Whole(r) && Writes(s, i, off, src, ok, Ret(tot), After(s, r, i))
  {
    assert s.files[i] == FileOf(v, i) && s.trees[i] == Taken(v, i);
    WroteFile(v, r, i, off, src[..tot], s);
    assert StockAt(s, i) == StockOf(v, i) && StockAt(After(s, r, i), i) == StockOf(r, i);
  }

  /** A truncated or freed file is empty and the others are as before. */
  lemma EmptiedFile(v: Vol, r: Vol, i: nat, s: Shot)
    requires Touched(v, r, i) && Shows(v, s) && Whole(v) && SizesOk(v) && r.nodes[i].size == 0 && v.nodes[i].kind != 0
    requires Taken(r, i) == Lasting(Taken(v, i))
    ensures Shows(r, After(s, r, i)) && Whole(r) && Empties(s, i, r.nodes[i].kind, Reply(Ret(0), []), After(s, r, i))
  {
    assert s.files[i] == FileOf(v, i) && s.trees[i] == Taken(v, i);
    TouchedFiles(v, r, i, s);
    assert FileOf(r, i) == File(r.nodes[i].kind, []);
    TouchedWhole(v, r, i);
  }

  lemma TruncatedFile(v: Vol, r: Vol, i: nat, s: Shot)
    requires Own(v) && Truncated(v, r, i) && Touched(v, r, i) && Shows(v, s) && Whole(v) && SizesOk(v) && v.nodes[i].kind != 0
    ensures Shows(r, After(s, r, i)) && Whole(r) && Empties(s, i, s.files[i].kind, Reply(Ret(0), []), After(s, r, i))
  {
    TruncatedTaken(v, r, i);
    EmptiedFile(v, r, i, s);
    assert s.files[i] == FileOf(v, i);
  }

  /** A read of a file without holes returns the bytes the simple file holds there. */
  lemma ReadServes(v: Vol, i: nat, off: Word32, n: Word32, ok: (nat, nat) -> bool, o: Outcome, out: seq<Byte>, s: Shot)
    requires Shows(v, s) && SizesOk(v) && i < |v.nodes| && Reading(v, v, i, off, out) && v.nodes[i].kind != 0
    requires var w := Want(v.nodes[i].size, off, n);
      |out| == Copied(off, w, 0, ok) && o == Ret(if |out| < w then -1 else |out|)
    ensures Reads(s, i, off, n, ok, Reply(o, out), s)
  {
    assert s.files[i] == FileOf(v, i);
    ReadSlice(v, v, i, off, out);
  }

  /** ilock at the head of an operation. */
  method Lock(fs: Fs, i: nat) returns (ok: bool)
    requires Sound(fs) && i < fs.g.ninodes
    modifies fs`cache
    ensures ok <==> fs.vol.nodes[i].kind != 0
    ensures ok ==> Sound(fs) && i in fs.cache
  {
    ok := fs.Ilock(i);
  }

  /** A write that stopped the machine had that fate. */
  lemma WriteStops(v: Vol, r: Vol, i: nat, off: Word32, src: seq<Byte>, ok: (nat, nat) -> bool, tot: nat, s: Shot)
    requires Shows(v, s) && i < |v.nodes| && Ended(v, r, i, off, |src|, tot, true, ok)
    requires off <= v.nodes[i].size && off + |src| <= MAXBYTES
    ensures Stops(s, Write(i, off, src, ok))
  {
    assert s.files[i] == FileOf(v, i) && s.trees[i] == Taken(v, i);
    assert StockAt(s, i) == StockOf(v, i);
  }

  method DoWrite(fs: Fs, i: nat, off: Word32, src: seq<Byte>, ok: (nat, nat) -> bool, ghost s: Shot)
    returns (r: Reply, ghost t: Shot)
    requires Sound(fs) && Shows(fs.vol, s) && i < fs.g.ninodes && |src| < 0x1_0000_0000
    modifies fs
    ensures r.o.Ret? ==> Sound(fs) && Shows(fs.vol, t) && Writes(s, i, off, src, ok, r.o, t) && r.out == []
    ensures r.o.Hang? ==> Stops(s, Write(i, off, src, ok))
  {
    ghost var v := fs.vol;
    assert s.files[i] == FileOf(v, i) && NoHoles(v, i);
    var locked := Lock(fs, i);
    if !locked {
      return Reply(Hang, []), s;
    }
    var o := fs.Writei(i, off, src, ok);
    r, t := Reply(o, []), s;
    if o.Hang? {
      ghost var tot: nat :| Ended(v, fs.vol, i, off, |src|, tot, true, ok);
      WriteStops(v, fs.vol, i, off, src, ok, tot, s);
    } else if o.value != -1 {
      WriteServes(v, fs.vol, i, off, src, ok, o.value, s);
      t := After(s, fs.vol, i);
    }
  }

  method DoRead(fs: Fs, i: nat, off: Word32, n: Word32, ok: (nat, nat) -> bool, ghost s: Shot) returns (r: Reply)
    requires Sound(fs) && Shows(fs.vol, s) && i < fs.g.ninodes
    modifies fs
    ensures r.o.Ret? ==> Sound(fs) && Shows(fs.vol, s) && Reads(s, i, off, n, ok, r, s)
    ensures r.o.Ret? ==> Delivered(s.files[i].data, off, n, ok, r.o, r.out)
    ensures r.o.Hang? ==> s.files[i].kind == 0
  {
    ghost var v := fs.vol;
    assert s.files[i] == FileOf(v, i) && NoHoles(v, i);
    var locked := Lock(fs, i);
    if !locked {
      return Reply(Hang, []);
    }
    var o, out := fs.Readi(i, off, n, ok);
    r := Reply(o, out);
    WholeRead(v, fs.vol, i, off, Want(v.nodes[i].size, off, n), ok, |out|, o.Hang?);
    ReadServes(v, i, off, n, ok, o, out, s);
    ReadsDeliver(s, i, off, n, ok, r, s);
  }

  method DoTruncate(fs: Fs, i: nat, ghost s: Shot) returns (r: Reply, ghost t: Shot)
    requires Sound(fs) && Shows(fs.vol, s) && i < fs.g.ninodes
    modifies fs
    ensures r.o.Ret? ==> Sound(fs) && Shows(fs.vol, t) && Empties(s, i, s.files[i].kind, r, t)
    ensures r.o.Hang? ==> s.files[i].kind == 0
  {
    assert s.files[i] == FileOf(fs.vol, i);
    var locked := Lock(fs, i);
    if !locked {
      return Reply(Hang, []), s;
    }
    ghost var v := fs.vol;
    var done := fs.Itrunc(i);
    TruncatedFile(v, fs.vol, i, s);
    return Reply(Ret(0), []), After(s, fs.vol, i);
  }

  method DoRemove(fs: Fs, i: nat, ghost s: Shot) returns (r: Reply, ghost t: Shot)
    requires Sound(fs) && Shows(fs.vol, s) && i < fs.g.ninodes
    modifies fs
    ensures r.o.Ret? ==> Sound(fs) && Shows(fs.vol, t) && Empties(s, i, 0, r, t)
    ensures r.o.Hang? ==> s.files[i].kind == 0
  {
    assert s.files[i] == FileOf(fs.vol, i);
    var locked := Lock(fs, i);
    if !locked {
      return Reply(Hang, []), s;
    }
    ghost var v := fs.vol;
    var done := fs.FreeInode(i);
    EmptiedFile(v, fs.vol, i, s);
    return Reply(Ret(0), []), After(s, fs.vol, i);
  }

  lemma WipedFiles(v: Vol, r: Vol, i: nat, kind: Short, s: Shot)
    requires Own(v) && Wiped(v, r, i, kind) && Shows(v, s) && SizesOk(v)
    ensures Shows(r, Shot(s.files[i := File(kind, [])], s.free, s.trees[i := {}]))
  {
    forall j: nat | j < |r.nodes| ensures s.files[i := File(kind, [])][j] == FileOf(r, j) && s.trees[i := {}][j] == Taken(r, j) {
      WipedTaken(v, r, i, kind, j);
      assert s.files[j] == FileOf(v, j) && s.trees[j] == Taken(v, j);
      if j != i {
        assert Content(r, j) == Content(v, j);
      }
    }
    SameFree(v, r);
  }

  lemma WipedWhole(v: Vol, r: Vol, i: nat, kind: Short)
    requires Own(v) && Wiped(v, r, i, kind) && Whole(v) && SizesOk(v)
    ensures Whole(r)
  {
    forall j: nat | j < |r.nodes| ensures NoHoles(r, j) {
      if j != i {
        assert NoHoles(v, j);
        forall bn: nat | bn * BSIZE < r.nodes[j].size ensures Ptr(r, DataSlot(j, bn)) != 0 {
          assert Ok(v, DataSlot(j, bn)) && Ptr(v, DataSlot(j, bn)) != 0;
        }
      }
    }
  }

  method DoCreate(fs: Fs, kind: Short, ghost s: Shot) returns (r: Reply, ghost t: Shot)
    requires Sound(fs) && Shows(fs.vol, s) && kind != 0
    modifies fs
    ensures Sound(fs) && Shows(fs.vol, t) && Creates(s, kind, r.o, t) && r.out == []
  {
    ghost var v := fs.vol;
    assert forall j: nat | j < |s.files| :: s.files[j] == FileOf(v, j);
    var i := fs.Ialloc(kind);
    t := s;
    if i != 0 {
      WipedFiles(v, fs.vol, i, kind, s);
      WipedWhole(v, fs.vol, i, kind);
      t := Shot(s.files[i := File(kind, [])], s.free, s.trees[i := {}]);
    }
    r := Reply(Ret(i), []);
  }

  /** hist are the states of the simple file system as it serves ops with replies rs. */
  ghost predicate Traces(hist: seq<Shot>, ops: seq<Op>, rs: seq<Reply>) {
    && |rs| <= |ops| && |hist| == |rs| + 1
    && forall k {:trigger rs[k]} | 0 <= k < |rs| :: Serves(hist[k], ops[k], rs[k], hist[k + 1])
  }

  method Do(fs: Fs, op: Op, ghost s: Shot) returns (r: Reply, ghost t: Shot)
    requires Sound(fs) && Shows(fs.vol, s) && Sensible(fs.g, op)
    modifies fs
    ensures r.o.Ret? ==> Sound(fs) && Shows(fs.vol, t) && Serves(s, op, r, t)
    ensures r.o.Hang? ==> Stops(s, op)
  {
    match op {
      case Create(kind) => r, t := DoCreate(fs, kind, s);
      case Write(i, off, src, ok) => r, t := DoWrite(fs, i, off, src, ok, s);
      case Read(i, off, n, ok) => r := DoRead(fs, i, off, n, ok, s); t := s;
      case Truncate(i) => r, t := DoTruncate(fs, i, s);
      case Remove(i) => r, t := DoRemove(fs, i, s);
    }
  }

  /** What the callers in the kernel guarantee: a real inode number, a 32-bit length, a type. */
  predicate Sensible(g: Geometry, op: Op) {
    match op
    case Create(kind) => kind != 0
    case Write(i, _, src, _) => i < g.ninodes && |src| < 0x1_0000_0000
    case Read(i, _, _, _) => i < g.ninodes
    case Truncate(i) => i < g.ninodes
    case Remove(i) => i < g.ninodes
  }

  /** Run operations one after another, until one of them stops the machine. Whatever they are, the
      replies are those of the simple file system s, and it is known which one stopped and why. */
  method Run(fs: Fs, ops: seq<Op>, ghost s: Shot) returns (rs: seq<Reply>, hang: bool, ghost hist: seq<Shot>)
    requires Sound(fs) && Shows(fs.vol, s) && forall k | 0 <= k < |ops| :: Sensible(fs.g, ops[k])
    modifies fs
    ensures Traces(hist, ops, rs) && hist[0] == s
    ensures !hang ==> |rs| == |ops| && Sound(fs) && Shows(fs.vol, hist[|ops|])
    ensures hang ==> |rs| < |ops| && Stops(hist[|rs|], ops[|rs|])
  {
    rs, hist, hang := [], [s], false;
    while |rs| < |ops|
      invariant Traces(hist, ops, rs) && hist[0] == s && Sound(fs) && Shows(fs.vol, hist[|rs|])
    {
      var r, t := Do(fs, ops[|rs|], hist[|rs|]);
      if r.o.Hang? {
        return rs, true, hist;
      }
      rs, hist := rs + [r], hist + [t];
    }
  }

  /** A new file system is sound and shows free inodes only: where every run can begin. */
  method Mkfs(g: Geometry) returns (fs: Fs, ghost s: Shot)
    requires g.Valid()
    ensures fresh(fs) && fs.g == g && Sound(fs) && Shows(fs.vol, s) && NoLeak(fs.vol)
    ensures s == Formatted(g.ninodes, g.size - g.start)
  {
    fs := new Fs(g);
    s := Formatted(g.ninodes, g.size - g.start);
    NewFiles(fs.vol, s);
  }

  /** n free inodes and the given number of free blocks. */
  ghost function Formatted(n: nat, free: nat): (s: Shot) {
    Shot(seq(n, _ => File(0, [])), free, seq(n, _ => {}))
  }

  lemma NewFiles(v: Vol, s: Shot)
    requires forall i: nat | i < |v.nodes| :: v.nodes[i] == Unwritten() && Taken(v, i) == {}
    requires Own(v) && s == Formatted(|v.nodes|, Free(v))
    ensures Shows(v, s) && Whole(v)
  {
    forall i: nat | i < |v.nodes| ensures s.files[i] == FileOf(v, i) {
      assert Content(v, i) == [];
    }
  }
}
