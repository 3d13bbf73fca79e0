/** Where things live on the disk: the bitmap and the inodes inside raw blocks,
    and the volume that a disk together with the in-core inodes stands for. */
module Layout {
  import opened Blocks
  import opened Volume

  const DINODE: nat := 4 * 2 + WORD * (NDIRECT + 3) + 60 // sizeof(struct dinode), with its padding
  const IPB: nat := 4 // inodes per block

  lemma InodesPerBlock()
    ensures IPB == BSIZE / DINODE && BSIZE % DINODE == 0
  {
  }

  type Disk = seq<Block>

  /** The superblock's layout fields; data blocks begin at start. */
  datatype Geometry = Geometry(size: nat, inodestart: nat, ninodes: nat, bmapstart: nat, start: nat) {
    /** The layout mkfs computes: inode blocks, then bitmap blocks, then data. */
    predicate Valid() {
      && 2 <= inodestart
      && inodestart + ninodes / IPB + 1 <= bmapstart
      && bmapstart + size / BPB + 1 <= start <= size < 0x8000_0000
    }

    function IBlock(i: nat): (b: nat) {
      i / IPB + inodestart
    }

    function BBlock(b: nat): (r: nat) {
      b / BPB + bmapstart
    }
  }

  // Two shorts in one word.
  function Signed(u: nat): (x: Short)
    requires u < 0x1_0000
  {
    if u < 0x8000 then u else u - 0x1_0000
  }

  function Unsigned(x: Short): (u: nat)
    ensures u < 0x1_0000 && Signed(u) == x
  {
    if x >= 0 then x else x + 0x1_0000
  }

  function Pack(lo: Short, hi: Short): (w: Word32)
    ensures Lo(w) == lo && Hi(w) == hi
  {
    Unsigned(lo) + 0x1_0000 * Unsigned(hi)
  }

  function Lo(w: Word32): (x: Short) { Signed(w % 0x1_0000) }

  function Hi(w: Word32): (x: Short) { Signed(w / 0x1_0000) }

  function Words(b: Block, at: nat, n: nat): (ws: seq<Word32>)
    requires at + n <= NINDIRECT
    ensures |ws| == n
    ensures forall j: nat | j < n :: ws[j] == Word(b, at + j)
  {
    seq<Word32>(n, j requires 0 <= j < n => Word(b, at + j))
  }

  /** struct dinode number k of an inode block: 32 words, the last 15 padding. */
  function GetDinode(b: Block, k: nat): (d: Dinode)
    requires k < IPB
    ensures |d.addrs| == NDIRECT + 2
  {
    Dinode(Lo(Word(b, 32 * k)), Hi(Word(b, 32 * k)), Lo(Word(b, 32 * k + 1)), Hi(Word(b, 32 * k + 1)),
           Word(b, 32 * k + 2), Words(b, 32 * k + 3, NDIRECT + 2))
  }

  function SetWords(b: Block, at: nat, ws: seq<Word32>): (r: Block)
    requires at + |ws| <= NINDIRECT
    ensures forall j: nat | j < NINDIRECT :: Word(r, j) == if at <= j < at + |ws| then ws[j - at] else Word(b, j)
  {
    if ws == [] then b
    else SetWord(SetWords(b, at, ws[..|ws| - 1]), at + |ws| - 1, ws[|ws| - 1])
  }

  /** The words of a dinode before its padding. */
  function DinodeWords(d: Dinode): (ws: seq<Word32>)
    ensures |ws| == 3 + |d.addrs| && forall j: nat | j < |d.addrs| :: ws[3 + j] == d.addrs[j]
  {
    [Pack(d.kind, d.major), Pack(d.minor, d.nlink), d.size] + d.addrs
  }

  /** Whoever finds a dinode's words in place reads the dinode. */
  lemma DinodeRead(r: Block, k: nat, d: Dinode)
    requires k < IPB && |d.addrs| == NDIRECT + 2
    requires forall j: nat | j < NDIRECT + 5 :: Word(r, 32 * k + j) == DinodeWords(d)[j]
    ensures GetDinode(r, k) == d
  {
    var ws := DinodeWords(d);
    assert Word(r, 32 * k + 0) == ws[0] && Word(r, 32 * k + 1) == ws[1] && Word(r, 32 * k + 2) == ws[2];
    forall j: nat | j < NDIRECT + 2 ensures Words(r, 32 * k + 3, NDIRECT + 2)[j] == d.addrs[j] {
      assert Word(r, 32 * k + (3 + j)) == ws[3 + j];
    }
  }

  lemma DinodeKept(b: Block, r: Block, j: nat)
    requires j < IPB && forall w: nat | 32 * j <= w < 32 * j + 32 :: Word(r, w) == Word(b, w)
    ensures GetDinode(r, j) == GetDinode(b, j)
  {
    assert Words(r, 32 * j + 3, NDIRECT + 2) == Words(b, 32 * j + 3, NDIRECT + 2);
  }

  /** iupdate's store of an in-core inode over dinode k. */
  function SetDinode(b: Block, k: nat, d: Dinode): (r: Block)
    requires k < IPB && |d.addrs| == NDIRECT + 2
    ensures GetDinode(r, k) == d
    ensures forall j: nat | j < IPB && j != k :: GetDinode(r, j) == GetDinode(b, j)
  {
    var r := SetWords(b, 32 * k, DinodeWords(d));
    DinodeRead(r, k, d);
    assert forall j: nat | j < IPB && j != k :: GetDinode(r, j) == GetDinode(b, j) by {
      forall j: nat | j < IPB && j != k ensures GetDinode(r, j) == GetDinode(b, j) {
        DinodeKept(b, r, j);
      }
    }
    r
  }

  function OnDisk(g: Geometry, disk: Disk, i: nat): (d: Dinode)
    requires g.Valid() && |disk| == g.size && i < g.ninodes
    ensures |d.addrs| == NDIRECT + 2
  {
    GetDinode(disk[g.IBlock(i)], i % IPB)
  }

  predicate UsedBit(g: Geometry, disk: Disk, b: nat)
    requires g.Valid() && |disk| == g.size && b < g.size
  {
    BitAt(disk[g.BBlock(b)], b % BPB)
  }

  function DataAt(g: Geometry, disk: Disk, b: nat): (d: Block)
    requires |disk| == g.size && b < g.size
  {
    if b < g.start then Zeroes() else disk[b]
  }

  /** The inode that counts: the in-core copy where there is one. */
  function NodeAt(ino: seq<Dinode>, cache: map<nat, Dinode>, i: nat): (d: Dinode)
    requires i < |ino|
  {
    if i in cache then cache[i] else ino[i]
  }

  /** ino are the inodes on disk, and v is the volume that disk and valid in-core inodes stand
      for. The triggers make proofs ask for a block, a bit or an inode by name. */
  ghost predicate Stands(g: Geometry, disk: Disk, ino: seq<Dinode>, cache: map<nat, Dinode>, v: Vol) {
    && g.Valid() && |disk| == g.size && disk[0] == Zeroes() && (forall i | i in cache :: i < g.ninodes)
    && v.start == g.start && |v.blocks| == |v.used| == g.size && |v.nodes| == |ino| == g.ninodes
    && (forall b: nat {:trigger DataAt(g, disk, b)} | b < g.size :: v.blocks[b] == DataAt(g, disk, b))
    && (forall b: nat {:trigger UsedBit(g, disk, b)} | b < g.size :: v.used[b] == UsedBit(g, disk, b))
    && (forall i: nat {:trigger OnDisk(g, disk, i)} | i < g.ninodes :: ino[i] == OnDisk(g, disk, i))
    && (forall i: nat {:trigger NodeAt(ino, cache, i)} | i < g.ninodes :: v.nodes[i] == NodeAt(ino, cache, i))
  }

  /** A store into the data area shows up as exactly that block. */
  lemma StoreData(g: Geometry, disk: Disk, ino: seq<Dinode>, cache: map<nat, Dinode>, v: Vol, p: nat, d: Block)
    requires Stands(g, disk, ino, cache, v) && g.start <= p < g.size
    ensures Stands(g, disk[p := d], ino, cache, v.(blocks := v.blocks[p := d]))
  {
    var r, w := disk[p := d], v.(blocks := v.blocks[p := d]);
    forall b: nat | b < g.size ensures w.blocks[b] == DataAt(g, r, b) && w.used[b] == UsedBit(g, r, b) {
      assert DataAt(g, disk, b) == v.blocks[b] && UsedBit(g, disk, b) == v.used[b];
      assert g.BBlock(b) < g.start;
    }
    forall i: nat | i < g.ninodes ensures ino[i] == OnDisk(g, r, i) {
      assert OnDisk(g, disk, i) == ino[i] && g.IBlock(i) < g.bmapstart;
    }
  }

  /** The disk with the bitmap bit of block b set or cleared. */
  function FlipBit(g: Geometry, disk: Disk, b: nat, on: bool): (r: Disk)
    requires g.Valid() && |disk| == g.size && b < g.size
    ensures |r| == |disk|
  {
    disk[g.BBlock(b) := PutBlockBit(disk[g.BBlock(b)], b % BPB, on)]
  }

  lemma FlipBitAt(g: Geometry, disk: Disk, b: nat, on: bool, c: nat)
    requires g.Valid() && |disk| == g.size && b < g.size && c < g.size
    ensures UsedBit(g, FlipBit(g, disk, b, on), c) == if c == b then on else UsedBit(g, disk, c)
  {
    if g.BBlock(c) == g.BBlock(b) {
      PutBlockBitAt(disk[g.BBlock(b)], b % BPB, on, c % BPB);
    }
  }

  /** Changing one bitmap bit marks exactly that block. */
  lemma StoreBit(g: Geometry, disk: Disk, ino: seq<Dinode>, cache: map<nat, Dinode>, v: Vol, b: nat, on: bool)
    requires Stands(g, disk, ino, cache, v) && b < g.size
    ensures Stands(g, FlipBit(g, disk, b, on), ino, cache, v.(used := v.used[b := on]))
  {
    var r, w := FlipBit(g, disk, b, on), v.(used := v.used[b := on]);
    assert g.bmapstart <= g.BBlock(b) < g.start;
    forall c: nat | c < g.size ensures w.blocks[c] == DataAt(g, r, c) && w.used[c] == UsedBit(g, r, c) {
      assert DataAt(g, disk, c) == v.blocks[c] && UsedBit(g, disk, c) == v.used[c];
      FlipBitAt(g, disk, b, on, c);
    }
    forall i: nat | i < g.ninodes ensures ino[i] == OnDisk(g, r, i) {
      assert OnDisk(g, disk, i) == ino[i] && g.IBlock(i) < g.bmapstart;
    }
  }

  function WithDinode(g: Geometry, disk: Disk, i: nat, d: Dinode): (r: Disk)
    requires g.Valid() && |disk| == g.size && i < g.ninodes && |d.addrs| == NDIRECT + 2
    ensures |r| == |disk|
  {
    disk[g.IBlock(i) := SetDinode(disk[g.IBlock(i)], i % IPB, d)]
  }

  /** memset over dinode k. */
  function WipeDinode(b: Block, k: nat): (r: Block)
    requires k < IPB
  {
    b[..128 * k] + seq(128, _ => 0) + b[128 * k + 128..]
  }

  lemma WipeDinodeKeeps(b: Block, k: nat, j: nat)
    requires k < IPB && j < IPB && j != k
    ensures GetDinode(WipeDinode(b, k), j) == GetDinode(b, j)
  {
    var r := WipeDinode(b, k);
    forall w: nat | 32 * j <= w < 32 * j + 32 ensures Word(r, w) == Word(b, w) {
      assert forall x | 4 * w <= x < 4 * w + 4 :: r[x] == b[x];
    }
    DinodeKept(b, r, j);
  }

  /** Block nb is the inode block of inode i with d for it and the others as they were. */
  ghost predicate Replaces(g: Geometry, disk: Disk, i: nat, d: Dinode, nb: Block)
    requires g.Valid() && |disk| == g.size && i < g.ninodes
  {
    && GetDinode(nb, i % IPB) == d
    && forall j: nat {:trigger GetDinode(nb, j)} | j < IPB && j != i % IPB :: GetDinode(nb, j) == GetDinode(disk[g.IBlock(i)], j)
  }

  lemma DinodeAt(g: Geometry, disk: Disk, i: nat, d: Dinode, nb: Block, j: nat)
    requires g.Valid() && |disk| == g.size && i < g.ninodes && j < g.ninodes && Replaces(g, disk, i, d, nb)
    ensures OnDisk(g, disk[g.IBlock(i) := nb], j) == if j == i then d else OnDisk(g, disk, j)
  {
    if j != i && g.IBlock(i) == g.IBlock(j) {
      assert j % IPB != i % IPB;
    }
  }

  /** Writing a dinode changes that inode on disk, and the volume only where
      no in-core copy hides it. */
  lemma StoreDinode(g: Geometry, disk: Disk, ino: seq<Dinode>, cache: map<nat, Dinode>, v: Vol, i: nat, d: Dinode, nb: Block)
    requires Stands(g, disk, ino, cache, v) && i < g.ninodes && Replaces(g, disk, i, d, nb)
    ensures Stands(g, disk[g.IBlock(i) := nb], ino[i := d], cache,
                   if i in cache then v else v.(nodes := v.nodes[i := d]))
  {
    var r, w := disk[g.IBlock(i) := nb], if i in cache then v else v.(nodes := v.nodes[i := d]);
    assert g.inodestart <= g.IBlock(i) < g.bmapstart;
    forall b: nat | b < g.size ensures w.blocks[b] == DataAt(g, r, b) && w.used[b] == UsedBit(g, r, b) {
      assert DataAt(g, disk, b) == v.blocks[b] && UsedBit(g, disk, b) == v.used[b];
      assert g.bmapstart <= g.BBlock(b);
    }
    forall j: nat | j < g.ninodes ensures ino[i := d][j] == OnDisk(g, r, j) && w.nodes[j] == NodeAt(ino[i := d], cache, j) {
      assert NodeAt(ino, cache, j) == v.nodes[j] && OnDisk(g, disk, j) == ino[j];
      DinodeAt(g, disk, i, d, nb, j);
    }
  }

  lemma StoreInCore(g: Geometry, disk: Disk, ino: seq<Dinode>, cache: map<nat, Dinode>, v: Vol, i: nat, d: Dinode)
    requires Stands(g, disk, ino, cache, v) && i < g.ninodes
    ensures Stands(g, disk, ino, cache[i := d], v.(nodes := v.nodes[i := d]))
  {
    var w := v.(nodes := v.nodes[i := d]);
    forall j: nat | j < g.ninodes ensures w.nodes[j] == NodeAt(ino, cache[i := d], j) {
      assert NodeAt(ino, cache, j) == v.nodes[j];
    }
  }

  /** A free inode of a new disk. */
  function Unwritten(): (d: Dinode)
    ensures |d.addrs| == NDIRECT + 2 && forall k | 0 <= k < NDIRECT + 2 :: d.addrs[k] == 0
  {
    Dinode(0, 0, 0, 0, 0, seq<Word32>(NDIRECT + 2, _ => 0))
  }

  lemma ZeroDinode(k: nat)
    requires k < IPB
    ensures GetDinode(Zeroes(), k) == Unwritten()
  {
    var b := Zeroes();
    assert forall j: nat | j < NINDIRECT :: Word(b, j) == 0;
  }

  /** A disk of zeros holds free inodes and no used block. */
  lemma ZeroDisk(g: Geometry, disk: Disk, ino: seq<Dinode>, v: Vol)
    requires g.Valid() && |disk| == g.size && (forall b | 0 <= b < g.size :: disk[b] == Zeroes())
    requires |ino| == g.ninodes && (forall i | 0 <= i < g.ninodes :: ino[i] == Unwritten())
    requires v == Vol(g.start, disk, v.used, ino) && |v.used| == g.size && (forall b | 0 <= b < g.size :: !v.used[b])
    ensures Stands(g, disk, ino, map[], v)
  {
    forall b: nat | b < g.size ensures v.used[b] == UsedBit(g, disk, b) {
      assert g.BBlock(b) < g.size;
      NoBits(b % BPB % 8);
    }
    forall i: nat | i < g.ninodes ensures ino[i] == OnDisk(g, disk, i) {
      assert g.IBlock(i) < g.size;
      ZeroDinode(i % IPB);
    }
  }
}
