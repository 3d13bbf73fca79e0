/** Two-word arithmetic out of one-word operations, for every word size. A word of W bits is a number
    below 2^W; sums and products wrap modulo 2^W, as unsigned C arithmetic does. */
module WideArith {

  function Pow2(n: nat): (p: nat)
    ensures p >= 1 && (n > 0 ==> p >= 2 && p % 2 == 0)
  {
    if n == 0 then 1 else 2 * Pow2(n - 1)
  }

  lemma {:induction false} Pow2Add(a: nat, b: nat)
    ensures Pow2(a + b) == Pow2(a) * Pow2(b)
  {
    if a > 0 {
      Pow2Add(a - 1, b);
      Assoc(2, Pow2(a - 1), Pow2(b));
    }
  }

  lemma Assoc(x: int, y: int, z: int)
    ensures x * y * z == x * (y * z)
  {
  }

  /** Bitwise or and and. */
  function Or(a: nat, b: nat): (r: nat) {
    if a == 0 && b == 0 then 0
    else 2 * Or(a / 2, b / 2) + if a % 2 == 1 || b % 2 == 1 then 1 else 0
  }

  function And(a: nat, b: nat): (r: nat) {
    if a == 0 || b == 0 then 0
    else 2 * And(a / 2, b / 2) + if a % 2 == 1 && b % 2 == 1 then 1 else 0
  }

  /** Or of a high part and a low part is their sum. */
  lemma {:induction false} OrParts(h: nat, hi: nat, lo: nat)
    requires lo < Pow2(h)
    ensures Or(hi * Pow2(h), lo) == hi * Pow2(h) + lo
  {
    if h == 0 {
      OrZeroRight(hi);
      assert hi * Pow2(0) == hi;
    } else {
      var p := Pow2(h - 1);
      OrParts(h - 1, hi, lo / 2);
      Assoc(hi, 2, p);
      Assoc(2, hi, p);
      OrEven(hi * p, lo);
    }
  }

  lemma OrEven(x: nat, lo: nat)
    ensures Or(2 * x, lo) == 2 * Or(x, lo / 2) + lo % 2
  {
    var y := 2 * x;
    assert y / 2 == x && y % 2 == 0;
  }

  lemma {:induction false} OrZeroRight(a: nat)
    ensures Or(a, 0) == a
  {
    if a > 0 { OrZeroRight(a / 2); }
  }

  /** Masking with 2^h - 1 keeps the low h bits. */
  lemma {:induction false} AndMask(h: nat, a: nat)
    ensures And(a, Pow2(h) - 1) == a % Pow2(h)
  {
    if h > 0 {
      var p := Pow2(h - 1);
      AndMask(h - 1, a / 2);
      AndOdd(a, p);
      ModHalf(a, p);
    }
  }

  lemma AndOdd(a: nat, p: nat)
    requires p >= 1
    ensures And(a, 2 * p - 1) == 2 * And(a / 2, p - 1) + a % 2
  {
    var m := 2 * p - 1;
    assert m / 2 == p - 1 && m % 2 == 1;
  }

  lemma ModHalf(a: nat, p: nat)
    requires p >= 1
    ensures a % (2 * p) == 2 * (a / 2 % p) + a % 2
  {
    var q, r := a / 2 / p, a / 2 % p;
    assert a / 2 == q * p + r;
    assert a == (2 * p) * q + (2 * r + a % 2) by {
      assert 2 * (q * p) == (2 * p) * q;
    }
    DivMod(a, 2 * p, q, 2 * r + a % 2);
  }

  /** Quotient and remainder are unique. */
  lemma DivMod(n: int, d: nat, q: int, r: nat)
    requires d > 0 && n == d * q + r && r < d
    ensures n / d == q && n % d == r
  {
    var q', r' := n / d, n % d;
    assert n == d * q' + r';
    Gap(d, q', q);
    Gap(d, q, q');
  }

  lemma Gap(d: nat, a: int, b: int)
    ensures a < b ==> d * a + d <= d * b
  {
    if a < b {
      Distrib(d, a + 1, b - a - 1);
      Distrib(d, a, 1);
      NonNeg(d, b - a - 1);
    }
  }

  lemma Distrib(x: int, y: int, z: int)
    ensures x * (y + z) == x * y + x * z
  {
  }

  lemma NonNeg(x: nat, y: nat)
    ensures x * y >= 0
  {
  }

  /** A number of two parts modulo their range. */
  lemma ModParts(hi: int, lo: nat, p: nat, q: nat)
    requires lo < p && q > 0
    ensures p * q > 0 && (hi * p + lo) % (p * q) == hi % q * p + lo < p * q && 0 <= hi % q * p
  {
    var k, r := hi / q, hi % q;
    assert hi == q * k + r;
    Distrib(p, q * k, r);
    Assoc(p, q, k);
    Gap(p, r, q);
    NonNeg(p, r);
    DivMod(hi * p + lo, p * q, k, r * p + lo);
  }

  /** A number of two words modulo their range. */
  lemma ModWide(hi: int, lo: nat, m: nat)
    requires lo < m
    ensures m * m > 0 && (hi * m + lo) % (m * m) == hi % m * m + lo < m * m
  {
    ModParts(hi, lo, m, m);
  }

  /** (sh, sl) = (ah, al) + (bh, bl), modulo two words. */
  method AddSsaaaa(w: nat, ah: nat, al: nat, bh: nat, bl: nat) returns (sh: nat, sl: nat)
    requires ah < Pow2(w) && al < Pow2(w) && bh < Pow2(w) && bl < Pow2(w)
    ensures var m := Pow2(w); sh < m && sl < m && sh * m + sl == (ah * m + al + (bh * m + bl)) % (m * m)
  {
    var m := Pow2(w);
    var x := (al + bl) % m;
    Carry(al, bl, m);
    var c := if x < al then 1 else 0;
    sh := (ah + bh + c) % m;
    sl := x;
    AddWords(m, ah, al, bh, bl, c, x);
  }

  lemma AddWords(m: nat, ah: int, al: int, bh: int, bl: int, c: int, x: nat)
    requires x < m && al + bl == c * m + x
    ensures m * m > 0 && (ah + bh + c) % m * m + x == (ah * m + al + (bh * m + bl)) % (m * m)
  {
    Sum3(ah, bh, c, m);
    ModWide(ah + bh + c, x, m);
  }

  /** A wrapped sum is smaller than an addend exactly when it wrapped. */
  lemma Carry(a: nat, b: nat, m: nat)
    requires a < m && b < m
    ensures (a + b) % m == if a + b >= m then a + b - m else a + b
    ensures (a + b) % m < a <==> a + b >= m
  {
    if a + b >= m { DivMod(a + b, m, 1, a + b - m); } else { DivMod(a + b, m, 0, a + b); }
  }

  lemma Sum3(x: int, y: int, z: int, m: int)
    ensures (x + y + z) * m == x * m + y * m + z * m
  {
    Distrib(m, x + y, z);
    Distrib(m, x, y);
  }

  /** (sh, sl) = (ah, al) - (bh, bl), modulo two words. */
  method SubDdmmss(w: nat, ah: nat, al: nat, bh: nat, bl: nat) returns (sh: nat, sl: nat)
    requires ah < Pow2(w) && al < Pow2(w) && bh < Pow2(w) && bl < Pow2(w)
    ensures var m := Pow2(w); sh < m && sl < m && sh * m + sl == (ah * m + al - (bh * m + bl)) % (m * m)
  {
    var m := Pow2(w);
    var x := (al - bl) % m;
    Borrow(al, bl, m);
    var c := if x > al then 1 else 0;
    sh := (ah - bh - c) % m;
    sl := x;
    SubWords(m, ah, al, bh, bl, c, x);
  }

  lemma SubWords(m: nat, ah: int, al: int, bh: int, bl: int, c: int, x: nat)
    requires x < m && al - bl == x - c * m
    ensures m * m > 0 && (ah - bh - c) % m * m + x == (ah * m + al - (bh * m + bl)) % (m * m)
  {
    Diff3(ah, bh, c, m);
    ModWide(ah - bh - c, x, m);
  }

  lemma Borrow(a: nat, b: nat, m: nat)
    requires a < m && b < m
    ensures (a - b) % m == if a < b then a - b + m else a - b
    ensures (a - b) % m > a <==> a < b
  {
    if a < b { DivMod(a - b, m, -1, a - b + m); } else { DivMod(a - b, m, 0, a - b); }
  }

  lemma Diff3(x: int, y: int, z: int, m: int)
    ensures (x - y - z) * m == x * m - y * m - z * m
  {
    Distrib(m, x - y - z, y + z);
    Distrib(m, y, z);
  }

  /** The halves of a word of 2h bits, b = 2^h; AndMask says that the low one is a mask of the word. */
  function LowPart(t: nat, b: nat): (l: nat)
    requires b > 0
  {
    t % b
  }

  function HighPart(t: nat, b: nat): (u: nat)
    requires b > 0
  {
    Quot(t, b)
  }

  /** Unsigned division. */
  function Quot(t: nat, d: nat): (q: nat)
    requires d > 0
    ensures q == t / d && t == d * q + t % d
  {
    Gap(d, t / d, 0);
    assert t == d * (t / d) + t % d;
    t / d
  }

  lemma Parts(t: nat, b: nat)
    requires b > 0 && t < b * b
    ensures LowPart(t, b) < b && HighPart(t, b) < b && t == HighPart(t, b) * b + LowPart(t, b)
  {
    var q := Quot(t, b);
    Gap(b, b - 1, q);
    Distrib(b, b, -1);
  }

  /** The product of two half words fits a word with room to spare. */
  lemma HalfProduct(x: nat, y: nat, b: nat)
    requires x < b && y < b
    ensures 0 <= x * y && x * y + 2 * (b - 1) < b * b
  {
    NonNeg(x, y);
    MulLe(x, b - 1, y, b - 1);
    Distrib(b - 1, b, -1);
    Distrib(b, b, -1);
  }

  lemma MulLe(x: nat, x': nat, y: nat, y': nat)
    requires x <= x' && y <= y'
    ensures x * y <= x' * y'
  {
    Distrib(x, y, y' - y);
    NonNeg(x, y' - y);
    Distrib(y', x, x' - x);
    NonNeg(y', x' - x);
  }

  /** Schoolbook multiplication of two two-digit numbers. */
  lemma Expand(b: int, ul: int, uh: int, vl: int, vh: int)
    ensures (uh * b + ul) * (vh * b + vl) == uh * vh * (b * b) + (ul * vh + uh * vl) * b + ul * vl
  {
    var u := uh * b + ul;
    Distrib(u, vh * b, vl);
    assert u * (vh * b) == uh * vh * (b * b) + ul * vh * b by {
      Distrib(vh * b, uh * b, ul);
      Assoc(uh, vh, b * b);
      Assoc(vh, b, b);
      Assoc(uh, b, vh * b);
      Assoc(b, vh, b);
      Assoc(ul, vh, b);
    }
    assert u * vl == uh * vl * b + ul * vl by {
      Distrib(vl, uh * b, ul);
      Assoc(uh, vl, b);
      Assoc(uh, b, vl);
    }
    Distrib(b, ul * vh, uh * vl);
  }

  /** What umul_ppmm's pieces add up to: x1 is the middle sum, less c words that were carried out of it. */
  lemma Pieces(b: nat, top: int, mid: int, x0: nat, c: int, x1: nat)
    requires b > 0 && mid + Quot(x0, b) == c * (b * b) + x1
    ensures top * (b * b) + mid * b + x0 == (top + c * b + Quot(x1, b)) * (b * b) + (x1 % b * b + x0 % b)
  {
    var y0, y1, l1 := Quot(x0, b), Quot(x1, b), x1 % b;
    assert mid * b == c * b * (b * b) + x1 * b - y0 * b by {
      Diff3(c * (b * b) + x1, y0, 0, b);
      Sum3(c * (b * b), x1, 0, b);
      Assoc(c, b * b, b);
      Assoc(c, b, b * b);
      Assoc(b, b, b);
    }
    assert x1 * b == y1 * (b * b) + l1 * b by {
      Sum3(b * y1, l1, 0, b);
      Assoc(y1, b, b);
    }
    Sum3(top, c * b, y1, b * b);
  }

  /** The two words of the product, when x1 is the middle sum less its carry c. */
  lemma Multiplied(b: nat, ul: nat, uh: nat, vl: nat, vh: nat, c: nat, x1: nat)
    requires ul < b && uh < b && vl < b && vh < b && c <= 1
    requires ul * vh + Quot(ul * vl, b) + uh * vl == c * (b * b) + x1
    ensures var high, low := uh * vh + c * b + Quot(x1, b), x1 % b * b + ul * vl % b;
      && 0 <= uh * vh && uh * vh + c * b <= high < b * b && 0 <= low < b * b
      && (uh * b + ul) * (vh * b + vl) == high * (b * b) + low
  {
    var high, low := uh * vh + c * b + Quot(x1, b), x1 % b * b + ul * vl % b;
    NonNeg(uh, vh);
    Expand(b, ul, uh, vl, vh);
    Pieces(b, uh * vh, ul * vh + uh * vl, ul * vl, c, x1);
    Join(x1 % b, ul * vl % b, b);
    NonNeg(x1 % b, b);
    Join(uh, ul, b);
    Join(vh, vl, b);
    NonNeg(uh, b);
    NonNeg(vh, b);
    Below(uh * b + ul, vh * b + vl, b * b, high, low);
  }

  lemma Small(x: nat, m: nat)
    requires x < m
    ensures x % m == x
  {
    DivMod(x, m, 0, x);
  }

  /** umul_ppmm after its four multiplications: c is the carry out of the middle sum, y what is left. */
  method Combine(b: nat, m: nat, x0: nat, x1: nat, x2: nat, x3: nat) returns (w1: nat, w0: nat, ghost c: nat, ghost y: nat)
    requires 0 < b <= m && x1 + Quot(x0, b) < m && x2 < m && x3 < m
    ensures c <= 1 && x1 + Quot(x0, b) + x2 == c * m + y && y < m
    ensures w1 == (x3 + c * b + Quot(y, b)) % m && w0 == (y % b * b + x0 % b) % m
  {
    Small(x1 + HighPart(x0, b), m);
    var t, u := (x1 + HighPart(x0, b)) % m, x3;
    Carry(x2, t, m);
    t := (t + x2) % m;
    c, y := if t < x2 then 1 else 0, t;
    if t < x2 {
      u := (u + b) % m;
    }
    ModAdd(x3 + c * b, Quot(y, b), m);
    Small(x3, m);
    w1 := (u + HighPart(t, b)) % m;
    w0 := (LowPart(t, b) * b + LowPart(x0, b)) % m;
  }

  lemma ModAdd(x: int, y: int, m: nat)
    requires m > 0
    ensures (x % m + y) % m == (x + y) % m
  {
    var k := Remainder(x, m);
    SameResidue(x + y, x % m + y, m, k);
  }

  /** (w1, w0) = u * v, exactly. */
  method UmulPpmm(h: nat, u: nat, v: nat) returns (w1: nat, w0: nat)
    requires u < Pow2(2 * h) && v < Pow2(2 * h)
    ensures var m := Pow2(2 * h); w1 < m && w0 < m && w1 * m + w0 == u * v
  {
    var b := Pow2(h);
    Pow2Add(h, h);
    Parts(u, b);
    Parts(v, b);
    w1, w0 := UmulHalves(b, LowPart(u, b), HighPart(u, b), LowPart(v, b), HighPart(v, b));
  }

  method UmulHalves(b: nat, ul: nat, uh: nat, vl: nat, vh: nat) returns (w1: nat, w0: nat)
    requires ul < b && uh < b && vl < b && vh < b
    ensures var m := b * b; w1 < m && w0 < m && w1 * m + w0 == (uh * b + ul) * (vh * b + vl)
  {
    HalfProduct(ul, vl, b);
    HalfProduct(ul, vh, b);
    HalfProduct(uh, vl, b);
    HalfProduct(uh, vh, b);
    Parts(ul * vl, b);
    ghost var c, y;
    w1, w0, c, y := Combine(b, b * b, ul * vl, ul * vh, uh * vl, uh * vh);
    Multiplied(b, ul, uh, vl, vh, c, y);
    Small(uh * vh + c * b + Quot(y, b), b * b);
    Small(y % b * b + ul * vl % b, b * b);
  }

  /** Two half words make a word. */
  lemma Join(hi: nat, lo: nat, b: nat)
    requires hi < b && lo < b
    ensures b * b > 0 && (hi * b + lo) % (b * b) == hi * b + lo < b * b
  {
    DivMod(hi, b, 0, hi);
    ModWide(hi, lo, b);
  }

  /** The high word of a product of words is a word. */
  lemma Below(u: nat, v: nat, m: nat, high: int, low: nat)
    requires u < m && v < m && u * v == high * m + low && low < m
    ensures 0 <= high < m
  {
    MulLe(u, m - 1, v, m - 1);
    NonNeg(u, v);
    Gap(m, m - 1, high);
    Gap(m, high, 0);
    Distrib(m - 1, m, -1);
    Distrib(m, m, -1);
  }

  /** The value of a word read as two's complement. */
  function Signed(x: nat, m: nat): (s: int) {
    if 2 * x >= m then x - m else x
  }

  /** -(x >> (w - 1)) & y: y if the top bit of x is set, else 0. */
  function Masked(w: nat, x: nat, y: nat): (r: nat)
    requires w > 0 && x < Pow2(w) && y < Pow2(w)
    ensures r == if 2 * x >= Pow2(w) then y else 0
  {
    var p, m := Pow2(w - 1), Pow2(w);
    var top := Quot(x, p);
    assert top == if x >= p then 1 else 0 by {
      if x >= p { DivMod(x, p, 1, x - p); } else { DivMod(x, p, 0, x); }
    }
    var mask := (0 - top) % m;
    assert mask == if top == 1 then m - 1 else 0 by {
      if top == 1 { DivMod(-1, m, -1, m - 1); } else { DivMod(0, m, 0, 0); }
    }
    AndMask(w, y);
    Small(y, m);
    And(y, mask)
  }

  /** umul_ppmm out of a signed multiplication: (s1, w0) is the signed product of u and v. */
  method UmulBySmul(w: nat, u: nat, v: nat, s1: nat, w0: nat) returns (w1: nat)
    requires w > 0 && u < Pow2(w) && v < Pow2(w) && s1 < Pow2(w) && w0 < Pow2(w)
    requires var m := Pow2(w); m * m > 0 && s1 * m + w0 == Signed(u, m) * Signed(v, m) % (m * m)
    ensures var m := Pow2(w); w1 < m && w1 * m + w0 == u * v
  {
    var m := Pow2(w);
    w1 := (s1 + Masked(w, u, v) + Masked(w, v, u)) % m;
    Unsigned(u, v, m, s1, w0);
  }

  lemma Unsigned(u: nat, v: nat, m: nat, s1: nat, w0: nat)
    requires u < m && v < m && w0 < m && m * m > 0
    requires s1 * m + w0 == Signed(u, m) * Signed(v, m) % (m * m)
    ensures var t := s1 + (if 2 * u >= m then v else 0) + if 2 * v >= m then u else 0;
      t % m * m + w0 == u * v
  {
    var a, c := if 2 * u >= m then 1 else 0, if 2 * v >= m then 1 else 0;
    assert Signed(u, m) == u - a * m && Signed(v, m) == v - c * m;
    var k := Remainder(Signed(u, m) * Signed(v, m), m * m);
    Rebased(u, v, m, a, c, s1, w0, k);
    Exact(u, v, m, s1 + a * v + c * u, w0, k - a * c);
  }

  lemma Remainder(s: int, n: nat) returns (k: int)
    requires n > 0
    ensures s == n * k + s % n
  {
    k := s / n;
  }

  lemma Rebased(u: int, v: int, m: int, a: int, c: int, s1: int, w0: int, k: int)
    requires (u - a * m) * (v - c * m) == m * m * k + (s1 * m + w0)
    ensures u * v == (s1 + a * v + c * u) * m + w0 + m * m * (k - a * c)
  {
    SignedProduct(u, v, m, a, c);
    Distrib(m * m, k, -(a * c));
    Sum3(s1, a * v, c * u, m);
    Sum3(0, a * v, c * u, m);
  }

  /** A product of words that agrees with (t, w0) modulo two words is (t mod m, w0). */
  lemma Exact(u: nat, v: nat, m: nat, t: int, w0: nat, j: int)
    requires u < m && v < m && w0 < m && m * m > 0 && u * v == t * m + w0 + m * m * j
    ensures t % m * m + w0 == u * v
  {
    ModWide(t, w0, m);
    SameResidue(u * v, t * m + w0, m * m, j);
    ProductFits(u, v, m);
    Small(u * v, m * m);
  }

  lemma ProductFits(u: nat, v: nat, m: nat)
    requires u < m && v < m
    ensures 0 <= u * v < m * m
  {
    NonNeg(u, v);
    MulLe(u, m - 1, v, m - 1);
    Distrib(m - 1, m, -1);
    Distrib(m, m, -1);
  }

  lemma SignedProduct(u: int, v: int, m: int, a: int, c: int)
    ensures (u - a * m) * (v - c * m) == u * v - (a * v + c * u) * m + m * m * (a * c)
  {
    Expand(m, u, -a, v, -c);
    Assoc(m * m, a, c);
    Sum3(0, a * v, c * u, m);
  }

  lemma SameResidue(x: int, y: int, n: nat, j: int)
    requires n > 0 && x == y + n * j
    ensures x % n == y % n
  {
    Distrib(n, y / n, j);
    DivMod(x, n, y / n + j, y % n);
  }

  /** A normalized divisor of two half words: its top bit is set. */
  predicate Normalized(d: nat, b: nat) {
    d < b * b <= 2 * d && b >= 2 && b % 2 == 0
  }

  /** The high half of a normalized divisor is at least half of b. */
  lemma HighHalf(d: nat, b: nat)
    requires Normalized(d, b)
    ensures b <= 2 * HighPart(d, b) && HighPart(d, b) < b && d == HighPart(d, b) * b + LowPart(d, b)
    ensures LowPart(d, b) < b && HighPart(d, b) * b <= d
  {
    Parts(d, b);
    var d1 := HighPart(d, b);
    Gap(b, 2 * d1 + 1, b);
    Distrib(b, d1, d1);
    Distrib(b, 2 * d1, 1);
  }

  /** An estimate n / d1 is at most b + 1, and its product with the low half of d fits a word. */
  lemma EstimateFits(n: nat, d1: nat, d0: nat, b: nat, q: nat, e: nat)
    requires d0 < b <= 2 * d1 && n < d1 * b + d0 && n == d1 * q + e
    ensures q <= b + 1 && q * d0 < b * b
  {
    Gap(d1, b + 1, q);
    Distrib(d1, b + 1, 1);
    Distrib(d1, b, 1);
    MulLe(q, b + 1, d0, b - 1);
    Distrib(b + 1, b, -1);
    Distrib(b, b, 1);
  }

  /** What the estimate leaves, before its product with the low half of d is taken off. */
  lemma EstimateRest(n: nat, half: nat, d1: nat, d0: nat, b: nat, q: nat, e: nat)
    requires half < b && e < d1 && n == d1 * q + e
    ensures n * b + half == q * (d1 * b + d0) - q * d0 + (e * b + half) && 0 <= e * b && e * b + half < d1 * b
  {
    NonNeg(e, b);
    Gap(b, e, d1);
    Sum3(d1 * q, e, 0, b);
    Assoc(q, d1, b);
    Distrib(q, d1 * b, d0);
  }

  /** The estimate of a quotient digit: at most b + 1, its product with the low half of d fits a word,
      and the partial remainder is below d. */
  lemma Estimate(n: nat, half: nat, d: nat, b: nat)
    requires Normalized(d, b) && n < d && half < b
    ensures var d1, d0 := HighPart(d, b), LowPart(d, b);
      && d1 > 0
      && var q, r := Quot(n, d1), n % d1 * b + half;
         && q <= b + 1 && q * d0 < b * b && 0 <= n % d1 * b && r < d && n % d1 < b
         && n * b + half == q * d - q * d0 + r
  {
    HighHalf(d, b);
    var d1, d0 := HighPart(d, b), LowPart(d, b);
    EstimateFits(n, d1, d0, b, Quot(n, d1), n % d1);
    EstimateRest(n, half, d1, d0, b, Quot(n, d1), n % d1);
  }

  /** How an estimate q with partial remainder r and product p is corrected: k of d are added back. */
  function Corrections(r: nat, p: nat, d: nat): (k: nat) {
    if r >= p then 0 else if r + d >= p then 1 else 2
  }

  /** At most two corrections are needed, and they leave a remainder. */
  lemma Corrected(r: nat, p: nat, d: nat, m: nat)
    requires r < d < m <= 2 * d && p < m
    ensures 0 <= r + Corrections(r, p, d) * d - p < d
  {
  }

  /** The quotient of a number below d * b is below b. */
  lemma DigitFits(n: nat, half: nat, d: nat, b: nat, q: int, r: nat)
    requires n < d && half < b && n * b + half == q * d + r && r < d
    ensures 0 <= q < b
  {
    Gap(b, n, d);
    NonNeg(n, b);
    Gap(d, b - 1, q);
    Gap(d, q, 0);
    Distrib(d, b, -1);
  }

  /** The corrections as the code makes them, in wrapping arithmetic: after a correction, the test
      r >= d tells whether the addition wrapped. */
  method Correct(est: int, e: nat, p: nat, d: nat, m: nat) returns (q: int, r: nat)
    requires e < d < m <= 2 * d && p < m
    ensures q == est - Corrections(e, p, d) && r == e + Corrections(e, p, d) * d - p
  {
    Corrected(e, p, d, m);
    ghost var r0 := e + Corrections(e, p, d) * d - p;
    q, r := est, e;
    Carry(d, r, m);
    if r < p {
      q, r := q - 1, (r + d) % m;
      if r >= d {
        if r < p {
          Carry(d, r, m);
          q, r := q - 1, (r + d) % m;
        }
      }
    }
    Wrapped(r - p, r0, m);
    r := (r - p) % m;
  }

  /** One digit of the quotient of (n, half) by d, as __udiv_qrnnd_c computes it; est is its estimate. */
  method Digit(h: nat, n: nat, half: nat, d: nat) returns (q: nat, r: nat, ghost est: nat)
    requires h > 0 && d < Pow2(2 * h) <= 2 * d && n < d && half < Pow2(h)
    ensures q < Pow2(h) && r < d && n * Pow2(h) + half == q * d + r
    ensures HighPart(d, Pow2(h)) > 0 && est == Quot(n, HighPart(d, Pow2(h))) && q <= est <= q + 2
  {
    var b, m := Pow2(h), Pow2(2 * h);
    Pow2Add(h, h);
    Estimate(n, half, d, b);
    var d1, d0 := HighPart(d, b), LowPart(d, b);
    var q1, r1 := Quot(n, d1), n % d1;
    NonNeg(q1, d0);
    Small(q1 * d0, m);
    var p := q1 * d0 % m;
    Small(r1 * b, m);
    OrParts(h, r1, half);
    r1 := Or(r1 * b % m, half);
    est := q1;
    ghost var k := Corrections(r1, p, d);
    Corrected(r1, p, d, m);
    Diff3(q1, k, 0, d);
    var c;
    c, r := Correct(q1, r1, p, d, m);
    DigitFits(n, half, d, b, c, r);
    q := c;
  }

  lemma Wrapped(x: int, r: nat, m: nat)
    requires r < m && (x == r || x == r - m)
    ensures x % m == r
  {
    if x == r { DivMod(x, m, 0, r); } else { DivMod(x, m, -1, r); }
  }

  /** (q, r): quotient and remainder of the two-word number (n1, n0) by the normalized word d. */
  method UdivQrnnd(h: nat, n1: nat, n0: nat, d: nat) returns (q: nat, r: nat)
    requires h > 0 && d < Pow2(2 * h) <= 2 * d && n1 < d && n0 < Pow2(2 * h)
    ensures q < Pow2(2 * h) && r < d && n1 * Pow2(2 * h) + n0 == q * d + r
  {
    var b, m := Pow2(h), Pow2(2 * h);
    Pow2Add(h, h);
    Parts(n0, b);
    var q1, r1, _ := Digit(h, n1, HighPart(n0, b), d);
    var q0, r0, _ := Digit(h, r1, LowPart(n0, b), d);
    Join(q1, q0, b);
    Small(q1 * b, m);
    OrParts(h, q1, q0);
    q, r := Or(q1 * b % m, q0), r0;
    TwoDigits(b, n1, HighPart(n0, b), LowPart(n0, b), d, q1, r1, q0, r0);
  }

  lemma TwoDigits(b: nat, n1: nat, hi: nat, lo: nat, d: nat, q1: nat, r1: nat, q0: nat, r0: nat)
    requires n1 * b + hi == q1 * d + r1 && r1 * b + lo == q0 * d + r0
    ensures n1 * (b * b) + (hi * b + lo) == (q1 * b + q0) * d + r0
  {
    Sum3(n1 * b, hi, 0, b);
    Assoc(n1, b, b);
    Sum3(q1 * d, r1, 0, b);
    Sum3(q1 * b, q0, 0, d);
    Assoc(q1, d, b);
    Assoc(q1, b, d);
  }
}
