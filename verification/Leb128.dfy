/** LEB128: variable-length integers, seven bits to a byte, least significant first. */
module Leb128 {
  import opened Blocks
  import opened WideArith

  /** The seven bits a byte carries, and whether more bytes follow. */
  function Group(b: Byte): (g: nat) { b % 128 }

  predicate More(b: Byte) { b >= 128 }

  /** The number the bytes spell, unsigned. */
  function Value(bs: seq<Byte>): (v: nat) {
    if |bs| == 0 then 0 else Group(bs[0]) + 128 * Value(bs[1..])
  }

  /** The number the bytes spell when bit 6 of the last byte is a sign. */
  function SignedValue(bs: seq<Byte>): (v: int)
    requires |bs| > 0
  {
    if |bs| == 1 then (if Group(bs[0]) >= 64 then Group(bs[0]) - 128 else Group(bs[0]))
    else Group(bs[0]) + 128 * SignedValue(bs[1..])
  }

  /** bs is one number: every byte but the last announces another. */
  predicate Whole(bs: seq<Byte>) {
    |bs| > 0 && !More(bs[|bs| - 1]) && forall i | 0 <= i < |bs| - 1 :: More(bs[i])
  }

  /** One more group in front. */
  lemma Prepend(g: nat, t: seq<Byte>)
    requires Whole(t) && g < 128
    ensures Whole([g + 128] + t)
    ensures Value([g + 128] + t) == g + 128 * Value(t) && SignedValue([g + 128] + t) == g + 128 * SignedValue(t)
  {
    assert ([g + 128] + t)[1..] == t;
  }

  lemma Single(v: int)
    requires -64 <= v < 64
    ensures v % 128 == (if v < 0 then v + 128 else v) && Whole([v % 128]) && SignedValue([v % 128]) == v
  {
  }

  /** The lowest group of a number and the rest of it, which is nearer to 0. */
  lemma Lowest(v: int)
    ensures v == v % 128 + 128 * (v / 128) && 0 <= v % 128 < 128
    ensures v >= 64 ==> 0 <= v / 128 < v
    ensures v < -64 ==> v < v / 128 < 0
  {
  }

  /** The canonical encoding of an unsigned number. */
  function Encode(v: nat): (bs: seq<Byte>)
    ensures Whole(bs) && Value(bs) == v
  {
    if v < 128 then
      var b: Byte := v;
      assert Value([b]) == v;
      [b]
    else
      Lowest(v);
      var t := Encode(v / 128);
      Prepend(v % 128, t);
      [v % 128 + 128] + t
  }

  /** The canonical encoding of a signed number; v / 128 is the arithmetic shift. */
  function EncodeSigned(v: int): (bs: seq<Byte>)
    ensures Whole(bs) && SignedValue(bs) == v
    decreases if v < 0 then -v else v
  {
    if -64 <= v < 64 then
      Single(v);
      [v % 128]
    else
      Lowest(v);
      var t := EncodeSigned(v / 128);
      Prepend(v % 128, t);
      [v % 128 + 128] + t
  }

  /** Numbers of k groups of seven bits encode in k bytes at most. */
  lemma {:induction false} EncodeLength(v: nat, k: nat)
    requires k > 0 && v < Pow2(7 * k)
    ensures |Encode(v)| <= k
  {
    if v >= 128 {
      Seven(0);
      Seven(7 * (k - 1));
      EncodeLength(v / 128, k - 1);
    }
  }

  lemma Seven(n: nat)
    ensures Pow2(n + 7) == 128 * Pow2(n)
  {
    assert Pow2(n + 7) == 2 * Pow2(n + 6) == 4 * Pow2(n + 5) == 8 * Pow2(n + 4);
    assert Pow2(n + 4) == 2 * Pow2(n + 3) == 4 * Pow2(n + 2) == 8 * Pow2(n + 1) == 16 * Pow2(n);
  }

  lemma {:induction false} EncodeSignedLength(v: int, k: nat)
    requires k > 0 && 0 - Pow2(7 * k - 1) <= v < Pow2(7 * k - 1)
    ensures |EncodeSigned(v)| <= k
    decreases k
  {
    if !(-64 <= v < 64) {
      assert Pow2(6) == 64;
      Seven(7 * k - 8);
      EncodeSignedLength(v / 128, k - 1);
    }
  }

  /** One more byte at the end. */
  lemma {:induction false} ValueSnoc(bs: seq<Byte>, b: Byte)
    ensures Value(bs + [b]) == Value(bs) + Group(b) * Pow2(7 * |bs|)
  {
    if |bs| > 0 {
      assert (bs + [b])[1..] == bs[1..] + [b];
      ValueSnoc(bs[1..], b);
      Seven(7 * (|bs| - 1));
      Assoc(Group(b), 128, Pow2(7 * (|bs| - 1)));
      Assoc(128, Group(b), Pow2(7 * (|bs| - 1)));
      Distrib(128, Value(bs[1..]), Group(b) * Pow2(7 * (|bs| - 1)));
    }
  }

  lemma {:induction false} ValueBound(bs: seq<Byte>)
    ensures Value(bs) < Pow2(7 * |bs|)
  {
    if |bs| > 0 {
      ValueBound(bs[1..]);
      Seven(7 * (|bs| - 1));
    }
  }

  /** Signed and unsigned readings differ by 2^(7n) when the sign bit is set. */
  lemma {:induction false} SignedIs(bs: seq<Byte>)
    requires |bs| > 0
    ensures SignedValue(bs) == Value(bs) - if Group(bs[|bs| - 1]) >= 64 then Pow2(7 * |bs|) else 0
  {
    if |bs| == 1 {
      assert Value(bs[1..]) == 0;
      Seven(0);
    } else {
      SignedIs(bs[1..]);
      Seven(7 * (|bs| - 1));
    }
  }

  const M64 := 0x1_0000_0000_0000_0000

  lemma Pow64(w: nat)
    requires w == 64
    ensures Pow2(w) == M64
  {
    var a := Times256(0, 1);
    var b := Times256(a, 0x100);
    var c := Times256(b, 0x1_0000);
    var d := Times256(c, 0x100_0000);
    var e := Times256(d, 0x1_0000_0000);
    var f := Times256(e, 0x100_0000_0000);
    var g := Times256(f, 0x1_0000_0000_0000);
    var h := Times256(g, 0x100_0000_0000_0000);
  }

  lemma Times256(n: nat, v: nat) returns (m: nat)
    requires Pow2(n) == v
    ensures m == n + 8 && Pow2(m) == 256 * v
  {
    m := n + 8;
    Seven(n + 1);
  }

  /** How many bytes the first number in buf takes; 0 if buf ends before it does. */
  function Length(buf: seq<Byte>): (n: nat)
    ensures n <= |buf| && (n > 0 ==> Whole(buf[..n])) && (n == 0 <==> forall i | 0 <= i < |buf| :: More(buf[i]))
  {
    if |buf| == 0 then 0
    else if !More(buf[0]) then 1
    else
      var k := Length(buf[1..]);
      assert k > 0 ==> forall i | 0 < i < k + 1 :: buf[i] == buf[1..][..k][i - 1];
      assert k > 0 ==> !More(buf[1..][k - 1]);
      assert k == 0 ==> forall i | 0 < i < |buf| :: buf[i] == buf[1..][i - 1];
      if k == 0 then 0 else k + 1
  }

  /** A number is found whole, whatever follows it. */
  lemma LengthOf(bs: seq<Byte>, rest: seq<Byte>)
    requires Whole(bs)
    ensures Length(bs + rest) == |bs| && (bs + rest)[..|bs|] == bs
  {
    var buf := bs + rest;
    var n := Length(buf);
    assert buf[|bs| - 1] == bs[|bs| - 1];
    LengthIs(buf, |bs|);
  }

  lemma LengthIs(buf: seq<Byte>, k: nat)
    requires 0 < k <= |buf| && !More(buf[k - 1]) && forall i | 0 <= i < k - 1 :: More(buf[i])
    ensures Length(buf) == k
  {
    var n := Length(buf);
    assert Whole(buf[..n]);
    assert forall i | 0 <= i < n :: buf[..n][i] == buf[i];
  }

  /** result |= group << shift, in w bits, when result has no bits from shift on. */
  lemma Shifted(w: nat, g: nat, s: nat, result: nat)
    requires s <= w && result < Pow2(s)
    ensures Or(g * Pow2(s) % Pow2(w), result) == (g * Pow2(s) + result) % Pow2(w)
  {
    var p, q := Pow2(s), Pow2(w - s);
    Pow2Add(s, w - s);
    ShiftedBy(w, g, s, result, p, q);
  }

  lemma ShiftedBy(w: nat, g: nat, s: nat, result: nat, p: nat, q: nat)
    requires p == Pow2(s) && q > 0 && Pow2(w) == p * q && result < p
    ensures Or(g * p % Pow2(w), result) == (g * p + result) % Pow2(w)
  {
    ModParts(g, 0, p, q);
    ModParts(g, result, p, q);
    OrParts(s, g % q, result);
  }

  lemma {:induction false} Pow2Mono(a: nat, b: nat)
    requires a <= b
    ensures Pow2(a) <= Pow2(b)
  {
    if a < b { Pow2Mono(a, b - 1); }
  }

  /** The number, or the buffer, ends within 10 bytes: C leaves shifts of 64 and more undefined. */
  predicate InTen(buf: seq<Byte>) {
    |buf| <= 10 || 0 < Length(buf) <= 10
  }

  /** A number still unfinished after p bytes of a longer buffer has used fewer than 10. */
  lemma Within(buf: seq<Byte>, p: nat)
    requires InTen(buf) && p < |buf| && forall i | 0 <= i < p :: More(buf[i])
    ensures p < 10
  {
    var n := Length(buf);
    assert n > 0 ==> !More(buf[..n][n - 1]);
  }

  /** One turn of the readers' loop: byte p joins the groups before it. */
  lemma Joined(bs: seq<Byte>, b: Byte, shift: nat)
    requires |bs| < 10 && shift == 7 * |bs|
    ensures Or(Group(b) * Pow2(shift) % M64, Value(bs) % M64) == Value(bs + [b]) % M64
  {
    var w := 64;
    Pow64(w);
    ValueBound(bs);
    Pow2Mono(shift, w);
    Small(Value(bs), M64);
    ValueSnoc(bs, b);
    Shifted(w, Group(b), shift, Value(bs));
  }

  /** The loop both readers share, up to and with the byte that ends the number: its groups put
      together modulo 2^64. Returns 0 when buf ends first. */
  method Gather(buf: seq<Byte>) returns (n: nat, result: nat)
    requires InTen(buf)
    ensures n == Length(buf)
    ensures n > 0 ==> result == Value(buf[..n]) % M64
  {
    var p, shift := 0, 0;
    result := 0;
    while p < |buf|
      invariant p <= |buf| && shift == 7 * p && result == Value(buf[..p]) % M64
      invariant forall i | 0 <= i < p :: More(buf[i])
    {
      Within(buf, p);
      var b := buf[p];
      Joined(buf[..p], b, shift);
      assert buf[..p] + [b] == buf[..p + 1];
      result := Or(Group(b) * Pow2(shift) % M64, result);
      p := p + 1;
      if !More(b) {
        LengthIs(buf, p);
        return p, result;
      }
      shift := shift + 7;
    }
    return 0, 0;
  }

  /** Decode an unsigned number into r; the number of bytes read, or 0, with r as it was, if buf ends first. */
  method ReadUleb128(buf: seq<Byte>, r0: nat) returns (n: nat, r: nat)
    requires InTen(buf)
    ensures n == Length(buf)
    ensures r == if n > 0 then Value(buf[..n]) % M64 else r0
  {
    var result;
    n, result := Gather(buf);
    r := if n > 0 then result else r0;
  }

  /** A 64-bit word read as two's complement. */
  function ToInt64(x: nat): (v: int) {
    if x >= M64 / 2 then x - M64 else x
  }

  /** Decode a signed number into r, extending its sign. */
  method ReadSleb128(buf: seq<Byte>, r0: int) returns (n: nat, r: int)
    requires InTen(buf)
    ensures n == Length(buf)
    ensures r == if n > 0 then ToInt64(SignedValue(buf[..n]) % M64) else r0
  {
    var result;
    n, result := Gather(buf);
    if n == 0 {
      return 0, r0;
    }
    SignExtended(buf[..n], result);
    Within(buf, n - 1);
    var shift := 7 * n;
    if shift < 64 && Group(buf[n - 1]) >= 64 {
      result := Or((0 - Pow2(shift)) % M64, result);
    }
    r := ToInt64(result);
  }

  /** What filling in the bits above a set sign bit does: a number of fewer than 64 bits gets its
      sign, and one of 70 has lost it to the word already. */
  lemma SignExtended(bs: seq<Byte>, result: nat)
    requires 0 < |bs| && result == Value(bs) % M64
    ensures 7 * |bs| < 64 && Group(bs[|bs| - 1]) >= 64 ==> Or((0 - Pow2(7 * |bs|)) % M64, result) == SignedValue(bs) % M64
    ensures !(7 * |bs| < 64 && Group(bs[|bs| - 1]) >= 64) ==> result == SignedValue(bs) % M64
  {
    var s, w := 7 * |bs|, 64;
    var p := Pow2(s);
    Pow64(w);
    SignedIs(bs);
    ValueBound(bs);
    if s < w {
      Pow2Mono(s, w);
      Small(Value(bs), M64);
      Pow2Add(s, w - s);
      Extended(w, s, p, Pow2(w - s), Value(bs));
    } else {
      Pow2Add(w, s - w);
      if Group(bs[|bs| - 1]) >= 64 {
        SameResidue(SignedValue(bs), Value(bs), M64, 0 - Pow2(s - w));
      }
    }
  }

  /** Or with -(1 << s) subtracts 2^s from a number below it. */
  lemma Extended(w: nat, s: nat, p: nat, q: nat, v: nat)
    requires s <= w && p == Pow2(s) && q > 0 && Pow2(w) == p * q && v < p
    ensures Or((0 - p) % Pow2(w), v) == (v - p) % Pow2(w)
  {
    var h := -1 % q;
    ModParts(-1, 0, p, q);
    ModParts(-1, v, p, q);
    assert (0 - p) % Pow2(w) == h * p && (v - p) % Pow2(w) == h * p + v;
    OrParts(s, h, v);
  }

  /** The bytes to skip past a number of any length, or 0 if buf ends first. */
  method SkipLeb128(buf: seq<Byte>) returns (n: nat)
    ensures n == Length(buf)
  {
    var p := 0;
    while p < |buf|
      invariant p <= |buf| && forall i | 0 <= i < p :: More(buf[i])
    {
      var b := buf[p];
      p := p + 1;
      if !More(b) {
        LengthIs(buf, p);
        return p;
      }
    }
    return 0;
  }

  /** Every encoding of up to 10 bytes, padded or not, of every 64-bit number reads back as that number. */
  lemma RoundTrip(bs: seq<Byte>, rest: seq<Byte>)
    requires Whole(bs) && |bs| <= 10 && Value(bs) < M64
    ensures var buf := bs + rest;
      InTen(buf) && Length(buf) == |bs| && Value(buf[..Length(buf)]) % M64 == Value(bs)
  {
    LengthOf(bs, rest);
    Small(Value(bs), M64);
  }

  lemma RoundTripSigned(bs: seq<Byte>, rest: seq<Byte>)
    requires Whole(bs) && |bs| <= 10 && -0x8000_0000_0000_0000 <= SignedValue(bs) < 0x8000_0000_0000_0000
    ensures var buf := bs + rest;
      InTen(buf) && Length(buf) == |bs| && ToInt64(SignedValue(buf[..Length(buf)]) % M64) == SignedValue(bs)
  {
    LengthOf(bs, rest);
    var v := SignedValue(bs);
    if v >= 0 { DivMod(v, M64, 0, v); } else { DivMod(v, M64, -1, v + M64); }
  }

  /** Every 64-bit number has such an encoding. */
  lemma Encodable(v: int)
    ensures 0 <= v < M64 ==> |Encode(v)| <= 10
    ensures -0x8000_0000_0000_0000 <= v < 0x8000_0000_0000_0000 ==> |EncodeSigned(v)| <= 10
  {
    var w := 64;
    Pow64(w);
    Pow2Mono(w, 69);
    if 0 <= v < M64 {
      Pow2Mono(69, 70);
      EncodeLength(v, 10);
    }
    if -0x8000_0000_0000_0000 <= v < 0x8000_0000_0000_0000 {
      EncodeSignedLength(v, 10);
    }
  }

  /** So what the readers make of the canonical encoding of a 64-bit number, whatever follows it, is that number. */
  lemma EncodedBack(v: nat, rest: seq<Byte>)
    requires v < M64
    ensures var buf := Encode(v) + rest;
      InTen(buf) && Length(buf) == |Encode(v)| && Value(buf[..Length(buf)]) % M64 == v
  {
    Encodable(v);
    RoundTrip(Encode(v), rest);
  }

  lemma EncodedBackSigned(v: int, rest: seq<Byte>)
    requires -0x8000_0000_0000_0000 <= v < 0x8000_0000_0000_0000
    ensures var buf := EncodeSigned(v) + rest;
      InTen(buf) && Length(buf) == |EncodeSigned(v)| && ToInt64(SignedValue(buf[..Length(buf)]) % M64) == v
  {
    Encodable(v);
    RoundTripSigned(EncodeSigned(v), rest);
  }

  /** The examples of the DWARF standard, its figures 22 and 23. */
  lemma Figures()
    ensures Encode(2) == [2] && Encode(127) == [127] && Encode(128) == [0x80, 1] && Encode(129) == [0x81, 1]
    ensures Encode(130) == [0x82, 1] && Encode(12857) == [0xb9, 100]
    ensures EncodeSigned(2) == [2] && EncodeSigned(-2) == [0x7e] && EncodeSigned(127) == [0xff, 0] && EncodeSigned(-127) == [0x81, 0x7f]
    ensures EncodeSigned(128) == [0x80, 1] && EncodeSigned(-128) == [0x80, 0x7f]
    ensures EncodeSigned(129) == [0x81, 1] && EncodeSigned(-129) == [0xff, 0x7e]
  {
    assert Encode(1) == [1] && Encode(100) == [100];
    assert EncodeSigned(0) == [0] && EncodeSigned(-1) == [0x7f] && EncodeSigned(1) == [1] && EncodeSigned(-2) == [0x7e];
  }
}
