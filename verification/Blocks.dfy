/** Disk blocks as arrays of bytes, their view as arrays of 32-bit words, and
    bits inside bytes: the three ways fs.c looks at a buffer's data. */
module Blocks {
  import WideArith

  const BSIZE: nat := 512
  const WORD: nat := 4 // sizeof(uint)
  const NINDIRECT: nat := 128 // words per block
  const BPB: nat := 4096 // bitmap bits per block

  type Byte = b: int | 0 <= b < 256
  type Word32 = w: int | 0 <= w < 0x1_0000_0000
  type Block = b: seq<Byte> | |b| == BSIZE witness seq(BSIZE, _ => 0)

  lemma PerBlock()
    ensures NINDIRECT == BSIZE / WORD && BPB == BSIZE * 8
  {
  }

  /** The block that bzero and mkfs write. */
  function Zeroes(): (b: Block)
    ensures forall k | 0 <= k < BSIZE :: b[k] == 0
  {
    seq(BSIZE, _ => 0)
  }

  /** Word k of a block seen as an array of little-endian 32-bit words. */
  function Word(b: Block, k: nat): (w: Word32)
    requires k < NINDIRECT
  {
    (b[4 * k] as int) + 0x100 * (b[4 * k + 1] as int)
    + 0x1_0000 * (b[4 * k + 2] as int) + 0x100_0000 * (b[4 * k + 3] as int)
  }

  function SetWord(b: Block, k: nat, w: Word32): (r: Block)
    requires k < NINDIRECT
    ensures Word(r, k) == w
    ensures forall j: nat | j < NINDIRECT && j != k :: Word(r, j) == Word(b, j)
  {
    Quarters(w);
    b[4 * k := w % 0x100][4 * k + 1 := w / 0x100 % 0x100]
    [4 * k + 2 := w / 0x1_0000 % 0x100][4 * k + 3 := w / 0x100_0000]
  }

  lemma Quarters(w: Word32)
    ensures w == w % 0x100 + 0x100 * (w / 0x100 % 0x100) + 0x1_0000 * (w / 0x1_0000 % 0x100) + 0x100_0000 * (w / 0x100_0000)
    ensures 0 <= w / 0x100_0000 < 0x100
  {
    assert w / 0x1_0000 == w / 0x100 / 0x100;
    assert w / 0x100_0000 == w / 0x1_0000 / 0x100;
  }

  /** (x & (1 << k)) != 0 */
  predicate Bit(x: nat, k: nat) {
    if k == 0 then x % 2 == 1 else Bit(x / 2, k - 1)
  }

  /** x | (1 << k), or x & ~(1 << k) when on is false. */
  function PutBit(x: nat, k: nat, on: bool): (y: nat)
    decreases k
  {
    if k == 0 then
      x / 2 * 2 + (if on then 1 else 0)
    else
      PutBit(x / 2, k - 1, on) * 2 + x % 2
  }

  lemma {:induction false} PutBitAt(x: nat, k: nat, on: bool, j: nat)
    ensures Bit(PutBit(x, k, on), j) == if j == k then on else Bit(x, j)
    decreases k
  {
    if k != 0 && j != 0 { PutBitAt(x / 2, k - 1, on, j - 1); }
  }

  lemma {:induction false} NoBits(k: nat)
    ensures !Bit(0, k)
  {
    if k > 0 { NoBits(k - 1); }
  }

  lemma {:induction false} PutBitFits(x: nat, k: nat, on: bool, n: nat)
    requires k < n && x < WideArith.Pow2(n)
    ensures PutBit(x, k, on) < WideArith.Pow2(n)
    decreases k
  {
    var m := WideArith.Pow2(n - 1);
    assert WideArith.Pow2(n) == 2 * m;
    if k != 0 {
      assert x / 2 < m;
      PutBitFits(x / 2, k - 1, on, n - 1);
    }
  }

  /** Bit n of a block seen as a bitmap. */
  predicate BitAt(b: Block, n: nat)
    requires n < BPB
  {
    Bit(b[n / 8], n % 8)
  }

  function PutByteBit(x: Byte, k: nat, on: bool): (y: Byte)
    requires k < 8
  {
    assert PutBit(x, k, on) < 256 by {
      assert WideArith.Pow2(8) == 256;
      PutBitFits(x, k, on, 8);
    }
    PutBit(x, k, on)
  }

  function PutBlockBit(b: Block, n: nat, on: bool): (r: Block)
    requires n < BPB
  {
    b[n / 8 := PutByteBit(b[n / 8], n % 8, on)]
  }

  lemma PutBlockBitAt(b: Block, n: nat, on: bool, m: nat)
    requires n < BPB && m < BPB
    ensures BitAt(PutBlockBit(b, n, on), m) == if m == n then on else BitAt(b, m)
  {
    if m / 8 == n / 8 { PutBitAt(b[n / 8], n % 8, on, m % 8); }
  }
}
