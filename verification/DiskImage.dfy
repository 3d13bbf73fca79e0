/** The disk image byte by byte: where on the disk an inode's fields, a bitmap bit, a directory entry and the bytes
    of a file are found, told from the raw blocks alone. */
module DiskImage {
  import WideArith
  import opened Blocks
  import opened Volume
  import opened Layout

  /** The signed little-endian short at a byte of a block. */
  function Le16(b: Block, at: nat): (x: Short)
    requires at + 2 <= 512
  {
    var lo: int, hi: int := b[at], b[at + 1];
    if hi >= 128 then lo + 256 * (hi - 256) else lo + 256 * hi
  }

  /** The little-endian 32-bit number at a byte of a block. */
  function Le32(b: Block, at: nat): (w: Word32)
    requires at + 4 <= 512
  {
    var x0: int, x1: int, x2: int, x3: int := b[at], b[at + 1], b[at + 2], b[at + 3];
    x0 + 256 * (x1 + 256 * (x2 + 256 * x3))
  }

  lemma WordBytes(b: Block, k: nat)
    requires k < 128
    ensures Word(b, k) == Le32(b, 4 * k)
  {
  }

  lemma ShortBytes(b: Block, k: nat)
    requires k < 128
    ensures Lo(Word(b, k)) == Le16(b, 4 * k) && Hi(Word(b, k)) == Le16(b, 4 * k + 2)
  {
    var x0: int, x1: int, x2: int, x3: int := b[4 * k], b[4 * k + 1], b[4 * k + 2], b[4 * k + 3];
    var w: int := Word(b, k);
    assert w == (x0 + 256 * x1) + 0x1_0000 * (x2 + 256 * x3);
    assert w % 0x1_0000 == x0 + 256 * x1 && w / 0x1_0000 == x2 + 256 * x3;
  }

  /** struct dinode number k of a block. */
  ghost predicate DinodeIn(b: Block, k: nat, d: Dinode) {
    && k < 4 && |d.addrs| == 14
    && d.kind == Le16(b, 128 * k) && d.major == Le16(b, 128 * k + 2) && d.minor == Le16(b, 128 * k + 4)
    && d.nlink == Le16(b, 128 * k + 6) && d.size == Le32(b, 128 * k + 8)
    && forall j: nat {:trigger d.addrs[j]} | j < 14 :: d.addrs[j] == Le32(b, 128 * k + 12 + 4 * j)
  }

  /** Type, major, minor, nlink, size and block numbers lie at bytes 0, 2, 4, 6, 8 and 12 of 128. */
  lemma DinodeBytes(b: Block, k: nat)
    requires k < 4
    ensures DinodeIn(b, k, GetDinode(b, k))
  {
    ShortBytes(b, 32 * k);
    ShortBytes(b, 32 * k + 1);
    WordBytes(b, 32 * k + 2);
    forall j: nat | j < 14 ensures GetDinode(b, k).addrs[j] == Le32(b, 128 * k + 12 + 4 * j) {
      WordBytes(b, 32 * k + 3 + j);
    }
  }

  lemma {:induction false} SetWordsBytes(b: Block, at: nat, ws: seq<Word32>, x: nat)
    requires at + |ws| <= 128 && x < 512 && !(4 * at <= x < 4 * (at + |ws|))
    ensures SetWords(b, at, ws)[x] == b[x]
    decreases |ws|
  {
    if |ws| > 0 { SetWordsBytes(b, at, ws[..|ws| - 1], x); }
  }

  /** Storing a dinode leaves every byte but its first 68 as it was, the padding too. */
  lemma SetDinodeBytes(b: Block, k: nat, d: Dinode, x: nat)
    requires k < 4 && |d.addrs| == 14 && x < 512 && !(128 * k <= x < 128 * k + 68)
    ensures SetDinode(b, k, d)[x] == b[x]
  {
    SetWordsBytes(b, 32 * k, DinodeWords(d), x);
  }

  lemma Halves(x: nat, p: nat)
    requires p > 0
    ensures x / 2 / p == x / (2 * p)
  {
    var y, q, r := x / 2, x / 2 / p, x / 2 % p;
    assert x == 2 * y + x % 2 && y == p * q + r;
    WideArith.Distrib(2, p * q, r);
    assert 2 * (p * q) == (2 * p) * q;
    WideArith.DivMod(x, 2 * p, q, 2 * r + x % 2);
  }

  /** Bit k of a byte or any number. */
  lemma {:induction false} BitIs(x: nat, k: nat)
    ensures Bit(x, k) <==> x / WideArith.Pow2(k) % 2 == 1
  {
    if k > 0 {
      BitIs(x / 2, k - 1);
      Halves(x, WideArith.Pow2(k - 1));
    }
  }

  /** Inode i lies in the block i / 4 blocks into the inode area. */
  lemma InodeOnDisk(g: Geometry, disk: Disk, i: nat)
    requires g.Valid() && |disk| == g.size && i < g.ninodes
    ensures g.inodestart + i / 4 < |disk| && DinodeIn(disk[g.inodestart + i / 4], i % 4, OnDisk(g, disk, i))
  {
    DinodeBytes(disk[g.inodestart + i / 4], i % 4);
  }

  /** Bit n of a bitmap block is bit n % 8 of its byte n / 8. */
  lemma BitAtIs(b: Block, n: nat)
    requires n < 4096
    ensures BitAt(b, n) <==> b[n / 8] / WideArith.Pow2(n % 8) % 2 == 1
  {
    BitIs(b[n / 8], n % 8);
  }

  lemma BitmapWhere(g: Geometry, b: nat)
    requires g.Valid() && b < g.size
    ensures g.BBlock(b) == g.bmapstart + b / 4096 < g.size && b % BPB == b % 4096 && b % 4096 % 8 == b % 8
  {
  }

  /** Block b is in use when bit b % 8 of byte b % 4096 / 8 of the bitmap block b / 4096 is set. */
  lemma BitmapOnDisk(g: Geometry, disk: Disk, b: nat)
    requires g.Valid() && |disk| == g.size && b < g.size
    ensures g.bmapstart + b / 4096 < |disk|
    ensures UsedBit(g, disk, b) <==> disk[g.bmapstart + b / 4096][b % 4096 / 8] / WideArith.Pow2(b % 8) % 2 == 1
  {
    BitmapWhere(g, b);
    BitAtIs(disk[g.bmapstart + b / 4096], b % 4096);
  }

  /** Word k of block p; block 0 is no block. */
  function Entry(disk: Disk, p: nat, k: nat): (w: nat)
    requires k < 128
  {
    if 0 < p < |disk| then Le32(disk[p], 4 * k) else 0
  }

  /** Block number bn of inode i, by the words on the disk: 12 direct ones, 128 behind the first index block, and 128
      for each of 128 blocks behind the second. */
  function BlockNo(g: Geometry, disk: Disk, i: nat, bn: nat): (p: nat)
    requires g.Valid() && |disk| == g.size && i < g.ninodes && bn < 12 + 128 + 128 * 128
  {
    var b, at := disk[g.inodestart + i / 4], 128 * (i % 4) + 12;
    if bn < 12 then Le32(b, at + 4 * bn)
    else if bn < 140 then Entry(disk, Le32(b, at + 4 * 12), bn - 12)
    else Entry(disk, Entry(disk, Le32(b, at + 4 * 13), (bn - 140) / 128), (bn - 140) % 128)
  }

  lemma EntryIs(g: Geometry, disk: Disk, ino: seq<Dinode>, cache: map<nat, Dinode>, v: Vol, s: Slot, k: nat)
    requires Stands(g, disk, ino, cache, v) && Own(v) && Ok(v, s) && k < 128
    ensures Deref(v, Ptr(v, s), k) == Entry(disk, Ptr(v, s), k)
  {
    var p := Ptr(v, s);
    ZeroWords();
    if p != 0 {
      assert DataAt(g, disk, p) == v.blocks[p];
      WordBytes(disk[p], k);
    }
  }

  /** Inode i is on the disk as it counts: nobody has it in memory, or it is written back. */
  predicate Written(ino: seq<Dinode>, cache: map<nat, Dinode>, i: nat) {
    i < |ino| && (i in cache ==> cache[i] == ino[i])
  }

  /** Word k of inode i, as the volume has it. */
  lemma AddrOnDisk(g: Geometry, disk: Disk, ino: seq<Dinode>, cache: map<nat, Dinode>, v: Vol, i: nat, k: nat)
    requires Stands(g, disk, ino, cache, v) && WF(v) && Written(ino, cache, i) && k < 14
    ensures g.inodestart + i / 4 < |disk| && Ptr(v, Addr(i, k)) == v.nodes[i].addrs[k]
    ensures v.nodes[i].addrs[k] == Le32(disk[g.inodestart + i / 4], 128 * (i % 4) + 12 + 4 * k)
  {
    InodeOnDisk(g, disk, i);
    assert OnDisk(g, disk, i) == ino[i] && NodeAt(ino, cache, i) == v.nodes[i];
  }

  /** The block map of the model is the one the disk spells. */
  lemma PointersOnDisk(g: Geometry, disk: Disk, ino: seq<Dinode>, cache: map<nat, Dinode>, v: Vol, i: nat, bn: nat)
    requires Stands(g, disk, ino, cache, v) && Own(v) && Written(ino, cache, i) && bn < 12 + 128 + 128 * 128
    ensures Ptr(v, DataSlot(i, bn)) == BlockNo(g, disk, i, bn)
  {
    AddrOnDisk(g, disk, ino, cache, v, i, if bn < 12 then bn else if bn < 140 then 12 else 13);
    if 12 <= bn < 140 {
      EntryIs(g, disk, ino, cache, v, Addr(i, 12), bn - 12);
    } else if 140 <= bn {
      DeepOnDisk(g, disk, ino, cache, v, i, (bn - 140) / 128, (bn - 140) % 128);
    }
  }

  lemma DeepOnDisk(g: Geometry, disk: Disk, ino: seq<Dinode>, cache: map<nat, Dinode>, v: Vol, i: nat, k: nat, j: nat)
    requires Stands(g, disk, ino, cache, v) && Own(v) && i < |v.nodes| && k < 128 && j < 128
    ensures Ptr(v, L2(i, k, j)) == Entry(disk, Entry(disk, v.nodes[i].addrs[13], k), j)
  {
    assert Ptr(v, Addr(i, 13)) == v.nodes[i].addrs[13];
    EntryIs(g, disk, ino, cache, v, Addr(i, 13), k);
    EntryIs(g, disk, ino, cache, v, L1(i, k), j);
  }

  /** Byte x of inode i, by the bytes on the disk; a hole reads as zero. */
  function FileByte(g: Geometry, disk: Disk, i: nat, x: nat): (c: Byte)
    requires g.Valid() && |disk| == g.size && i < g.ninodes && x < 512 * (12 + 128 + 128 * 128)
  {
    var p := BlockNo(g, disk, i, x / 512);
    if 0 < p < |disk| then disk[p][x % 512] else 0
  }

  /** The size and the bytes of every file are those the disk spells. */
  lemma ContentOnDisk(g: Geometry, disk: Disk, ino: seq<Dinode>, cache: map<nat, Dinode>, v: Vol, i: nat, x: nat)
    requires Stands(g, disk, ino, cache, v) && Own(v) && Written(ino, cache, i)
    ensures g.inodestart + i / 4 < |disk| && |Content(v, i)| == Le32(disk[g.inodestart + i / 4], 128 * (i % 4) + 8)
    ensures x < |Content(v, i)| && x < 512 * (12 + 128 + 128 * 128) ==> Content(v, i)[x] == FileByte(g, disk, i, x)
  {
    InodeOnDisk(g, disk, i);
    assert OnDisk(g, disk, i) == ino[i] && NodeAt(ino, cache, i) == v.nodes[i];
    if x < |Content(v, i)| && x < 512 * (12 + 128 + 128 * 128) {
      PointersOnDisk(g, disk, ino, cache, v, i, x / 512);
      var p := Ptr(v, DataSlot(i, x / 512));
      assert Ok(v, DataSlot(i, x / 512));
      if p != 0 { assert DataAt(g, disk, p) == v.blocks[p]; }
    }
  }

  /** A number is zero only if its bytes are. */
  lemma ZeroBytes(b: Block, at: nat, x: nat)
    ensures at + 2 <= 512 && Le16(b, at) == 0 && at <= x < at + 2 ==> b[x] == 0
    ensures at + 4 <= 512 && Le32(b, at) == 0 && at <= x < at + 4 ==> b[x] == 0
  {
  }

  /** All of a dinode is zero but its type. */
  predicate Zeroed(d: Dinode) {
    d.major == 0 && d.minor == 0 && d.nlink == 0 && d.size == 0 && forall j {:trigger d.addrs[j]} | 0 <= j < |d.addrs| :: d.addrs[j] == 0
  }

  /** A dinode that is zero but for its type is so on the disk. */
  lemma BlankBytes(b: Block, k: nat, d: Dinode, x: nat)
    requires DinodeIn(b, k, d) && Zeroed(d)
    requires 128 * k + 2 <= x < 128 * k + 68
    ensures b[x] == 0
  {
    var y := x - 128 * k;
    if y < 8 {
      ZeroBytes(b, 128 * k + y / 2 * 2, x);
    } else if y < 12 {
      ZeroBytes(b, 128 * k + 8, x);
    } else {
      var j := (y - 12) / 4;
      assert d.addrs[j] == 0;
      ZeroBytes(b, 128 * k + 12 + 4 * j, x);
    }
  }

  /** Dinode k of a block is zero, padding and all, but for its type. */
  ghost predicate BlankIn(b: Block, k: nat, kind: Short) {
    k < 4 && Le16(b, 128 * k) == kind && forall x {:trigger b[x]} | 128 * k + 2 <= x < 128 * k + 128 :: b[x] == 0
  }

  /** From z to r only bytes lo to hi changed. */
  ghost predicate Within(z: Block, r: Block, lo: nat, hi: nat) {
    forall x: nat {:trigger r[x]} | x < 512 && !(lo <= x < hi) :: r[x] == z[x]
  }

  ghost predicate ZeroIn(z: Block, lo: nat, hi: nat) {
    forall x: nat {:trigger z[x]} | x < 512 && lo <= x < hi :: z[x] == 0
  }

  lemma WipeBytes(b: Block, k: nat, z: Block)
    requires k < 4 && z == WipeDinode(b, k)
    ensures ZeroIn(z, 128 * k, 128 * k + 128) && Within(b, z, 128 * k, 128 * k + 128)
  {
  }

  lemma StoreBytes(z: Block, k: nat, d: Dinode, r: Block)
    requires k < 4 && |d.addrs| == 14 && r == SetDinode(z, k, d)
    ensures DinodeIn(r, k, d) && Within(z, r, 128 * k, 128 * k + 68)
  {
    DinodeBytes(r, k);
    forall x: nat | x < 512 && !(128 * k <= x < 128 * k + 68) ensures r[x] == z[x] { SetDinodeBytes(z, k, d, x); }
  }

  lemma WipedBlock(b: Block, z: Block, r: Block, k: nat, d: Dinode)
    requires k < 4 && ZeroIn(z, 128 * k, 128 * k + 128) && Within(b, z, 128 * k, 128 * k + 128)
    requires DinodeIn(r, k, d) && Within(z, r, 128 * k, 128 * k + 68) && Zeroed(d)
    ensures BlankIn(r, k, d.kind) && Within(b, r, 128 * k, 128 * k + 128)
  {
    forall x: nat | 128 * k + 2 <= x < 128 * k + 128 ensures r[x] == 0 {
      if x < 128 * k + 68 { BlankBytes(r, k, d, x); } else { assert z[x] == 0; }
    }
    forall x: nat | x < 512 && !(128 * k <= x < 128 * k + 128) ensures r[x] == b[x] {
      assert z[x] == b[x];
    }
  }

  /** memset over dinode k of a block. */
  method ClearDinode(b: Block, k: nat) returns (z: Block)
    requires k < 4
    ensures ZeroIn(z, 128 * k, 128 * k + 128) && Within(b, z, 128 * k, 128 * k + 128)
    ensures forall j: nat {:trigger GetDinode(z, j)} | j < 4 && j != k :: GetDinode(z, j) == GetDinode(b, j)
  {
    z := WipeDinode(b, k);
    WipeBytes(b, k, z);
    forall j: nat | j < 4 && j != k ensures GetDinode(z, j) == GetDinode(b, j) { WipeDinodeKeeps(b, k, j); }
  }

  /** Dinode k of a block zeroed and d, which has a type and nothing else, stored in it. */
  method BlankDinode(b: Block, k: nat, d: Dinode) returns (r: Block)
    requires k < 4 && |d.addrs| == 14 && Zeroed(d)
    ensures BlankIn(r, k, d.kind) && Within(b, r, 128 * k, 128 * k + 128) && GetDinode(r, k) == d
    ensures forall j: nat {:trigger GetDinode(r, j)} | j < 4 && j != k :: GetDinode(r, j) == GetDinode(b, j)
  {
    var z := ClearDinode(b, k);
    r := StoreIn(z, k, d);
    WipedBlock(b, z, r, k, d);
  }

  method StoreIn(b: Block, k: nat, d: Dinode) returns (r: Block)
    requires k < 4 && |d.addrs| == 14
    ensures DinodeIn(r, k, d) && Within(b, r, 128 * k, 128 * k + 68) && GetDinode(r, k) == d
    ensures forall j: nat {:trigger GetDinode(r, j)} | j < 4 && j != k :: GetDinode(r, j) == GetDinode(b, j)
  {
    r := SetDinode(b, k, d);
    StoreBytes(b, k, d, r);
  }
}
