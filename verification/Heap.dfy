/** The kernel's malloc and free: bucketed free lists over a pool that is only ever chopped off. */
module Heap {

  const BLOCK_ALIGN := 16
  const HEADER := 16
  const MAX_ALLOC_SIZE := 0x100000
  const BUCKETS := 7

  /** Block sizes, one free list each; 0 ends the table. */
  function Size(j: nat): (n: nat) {
    if j == 0 then 0x40 else if j == 1 then 0x400 else if j == 2 then 0x1000 else if j == 3 then 0x4000
    else if j == 4 then 0x40000 else if j == 5 then 0x80000 else if j == 6 then 0x100000 else 0
  }

  lemma Sizes(j: nat)
    requires j < BUCKETS
    ensures 0 < Size(j) <= MAX_ALLOC_SIZE && Size(j) % BLOCK_ALIGN == 0
    ensures forall k: nat | k < j :: Size(k) < Size(j)
  {
  }

  /** The bucket malloc takes for n bytes. */
  function Best(n: nat): (j: nat)
    ensures n <= MAX_ALLOC_SIZE ==> Fits(n, j)
  {
    if n <= 0x40 then 0 else if n <= 0x400 then 1 else if n <= 0x1000 then 2 else if n <= 0x4000 then 3
    else if n <= 0x40000 then 4 else if n <= 0x80000 then 5 else 6
  }

  /** j is the bucket of the smallest blocks that hold n bytes. */
  ghost predicate Fits(n: nat, j: nat) {
    j < BUCKETS && n <= Size(j) && forall k: nat | k < j :: Size(k) < n
  }

  lemma OneFits(n: nat, j: nat)
    requires Fits(n, j)
    ensures j == Best(n)
  {
  }

  /** A block header; next is the next block on a free list, 0 for none. */
  datatype Header = Header(size: nat, next: nat)

  type Headers = map<nat, Header>

  /** Bytes a block of the given size takes from the pool. */
  function Span(size: nat): (n: nat)
    ensures n % BLOCK_ALIGN == 0 && HEADER + size <= n < HEADER + size + BLOCK_ALIGN
  {
    var x := HEADER + size + BLOCK_ALIGN - 1;
    assert x == x / BLOCK_ALIGN * BLOCK_ALIGN + x % BLOCK_ALIGN;
    x / BLOCK_ALIGN * BLOCK_ALIGN
  }

  /** Where block i of the carved blocks ends: at the next block, or at the end of them all. */
  function EndOf(carved: seq<nat>, end: nat, i: nat): (e: nat) {
    if i + 1 < |carved| then carved[i + 1] else end
  }

  ghost predicate Tile(hdr: Headers, carved: seq<nat>, end: nat, i: nat) {
    i < |carved| && carved[i] in hdr && carved[i] % BLOCK_ALIGN == 0 && carved[i] + Span(hdr[carved[i]].size) == EndOf(carved, end, i)
  }

  /** The carved blocks, in order, fill the pool from base to end without gap or overlap. */
  ghost predicate Tiled(hdr: Headers, carved: seq<nat>, base: nat, end: nat) {
    && base % BLOCK_ALIGN == 0 && (if |carved| == 0 then end == base else carved[0] == base)
    && (forall i: nat {:trigger Tile(hdr, carved, end, i)} | i < |carved| :: Tile(hdr, carved, end, i))
    && forall a | a in hdr :: a in carved
  }

  lemma {:induction false} Ordered(hdr: Headers, carved: seq<nat>, base: nat, end: nat, i: nat, j: nat)
    requires Tiled(hdr, carved, base, end) && i < j <= |carved|
    ensures Tile(hdr, carved, end, i) && carved[i] + Span(hdr[carved[i]].size) <= if j < |carved| then carved[j] else end
    decreases j - i
  {
    assert Tile(hdr, carved, end, i);
    if i + 1 < j {
      Ordered(hdr, carved, base, end, i + 1, j);
    }
  }

  /** Different blocks lie apart, and every block lies in the used part of the pool, aligned. */
  lemma Apart(hdr: Headers, carved: seq<nat>, base: nat, end: nat, a: nat, b: nat)
    requires Tiled(hdr, carved, base, end) && a in hdr && b in hdr
    ensures a != b ==> a + Span(hdr[a].size) <= b || b + Span(hdr[b].size) <= a
    ensures base <= a && a + Span(hdr[a].size) <= end && a % BLOCK_ALIGN == 0
  {
    var i: nat :| i < |carved| && carved[i] == a;
    var j: nat :| j < |carved| && carved[j] == b;
    Ordered(hdr, carved, base, end, i, |carved|);
    if 0 < i { Ordered(hdr, carved, base, end, 0, i); }
    if i < j { Ordered(hdr, carved, base, end, i, j); }
    if j < i { Ordered(hdr, carved, base, end, j, i); }
  }

  /** What malloc returns is aligned as its header is. */
  lemma Aligned(hdr: Headers, carved: seq<nat>, base: nat, end: nat, a: nat, p: nat)
    requires Tiled(hdr, carved, base, end) && a in hdr && p == a + HEADER
    ensures p % BLOCK_ALIGN == 0
  {
    Apart(hdr, carved, base, end, a, a);
  }

  function Head(list: seq<nat>): (a: nat) {
    if |list| == 0 then 0 else list[0]
  }

  /** list is what a walk along a free list meets. */
  ghost predicate Chain(hdr: Headers, head: nat, list: seq<nat>) {
    head == Head(list) && forall i: nat {:trigger Points(hdr, list, i)} | i < |list| :: Points(hdr, list, i)
  }

  /** Block i of list points to the next, or nowhere. */
  ghost predicate Points(hdr: Headers, list: seq<nat>, i: nat) {
    && i < |list| && list[i] in hdr && list[i] != 0
    && hdr[list[i]].next == if i + 1 < |list| then list[i + 1] else 0
  }

  /** The blocks of a free list: no block twice, all of the list's size, none of them outstanding. */
  ghost predicate Idle(hdr: Headers, list: seq<nat>, size: nat, out: set<nat>) {
    && (forall i, j | 0 <= i < j < |list| :: list[i] != list[j])
    && forall a | a in list :: a in hdr && hdr[a].size == size && a !in out
  }

  ghost predicate Listed(hdr: Headers, heads: seq<nat>, lists: seq<seq<nat>>, out: set<nat>) {
    && |heads| == |lists| == BUCKETS
    && forall j: nat {:trigger lists[j]} | j < BUCKETS ::
         Chain(hdr, heads[j], lists[j]) && Idle(hdr, lists[j], Size(j), out)
  }

  /** The outstanding blocks of one size. */
  ghost function Held(hdr: Headers, out: set<nat>, size: nat): (s: set<nat>) {
    set a | a in out && a in hdr && hdr[a].size == size
  }

  ghost predicate Counted(hdr: Headers, out: set<nat>, count: seq<nat>) {
    |count| == BUCKETS && forall j: nat {:trigger count[j]} | j < BUCKETS :: count[j] == |Held(hdr, out, Size(j))|
  }

  /** Every block is outstanding, or on the free list of its size. */
  ghost predicate Placed(hdr: Headers, lists: seq<seq<nat>>, out: set<nat>) {
    && (forall a | a in out :: a in hdr && hdr[a].next == 0)
    && forall a {:trigger Somewhere(hdr, lists, out, a)} | a in hdr :: Somewhere(hdr, lists, out, a)
  }

  ghost predicate Somewhere(hdr: Headers, lists: seq<seq<nat>>, out: set<nat>, a: nat) {
    a in hdr && (a in out || exists j: nat :: j < |lists| && j < BUCKETS && hdr[a].size == Size(j) && a in lists[j])
  }

  /** The size of a block is one of the table. */
  ghost predicate Sized(hdr: Headers, a: nat) {
    a in hdr && exists j: nat :: j < BUCKETS && hdr[a].size == Size(j)
  }

  /** A free list does not notice changes to a block that is not on it. */
  lemma Unmoved(hdr: Headers, head: nat, list: seq<nat>, size: nat, out: set<nat>, a: nat, h: Header, out': set<nat>)
    requires Chain(hdr, head, list) && Idle(hdr, list, size, out) && a !in list && out' <= out + {a}
    ensures Chain(hdr[a := h], head, list) && Idle(hdr[a := h], list, size, out')
  {
    var hdr' := hdr[a := h];
    forall i: nat | i < |list| ensures Points(hdr', list, i) {
      assert Points(hdr, list, i) && list[i] in list;
    }
  }

  /** A block of one size is on no list of another. */
  lemma OtherSize(hdr: Headers, heads: seq<nat>, lists: seq<seq<nat>>, out: set<nat>, a: nat, j: nat, k: nat)
    requires Listed(hdr, heads, lists, out) && a in hdr && j < BUCKETS && k < BUCKETS && j != k && hdr[a].size == Size(j)
    ensures a !in lists[k]
  {
    assert Idle(hdr, lists[k], Size(k), out);
    Sizes(j);
    Sizes(k);
  }

  /** Exchanging list j, while block a, on no other list, changes. */
  lemma Relisted(hdr: Headers, heads: seq<nat>, lists: seq<seq<nat>>, out: set<nat>, j: nat, a: nat, h: Header,
                 head: nat, list: seq<nat>, out': set<nat>)
    requires Listed(hdr, heads, lists, out) && j < BUCKETS && out' <= out + {a}
    requires forall k: nat | k < BUCKETS && k != j :: a !in lists[k]
    requires Chain(hdr[a := h], head, list) && Idle(hdr[a := h], list, Size(j), out')
    ensures Listed(hdr[a := h], heads[j := head], lists[j := list], out')
  {
    forall k: nat | k < BUCKETS && k != j
      ensures Chain(hdr[a := h], heads[k], lists[k]) && Idle(hdr[a := h], lists[k], Size(k), out')
    {
      Unmoved(hdr, heads[k], lists[k], Size(k), out, a, h, out');
    }
  }

  /** Taking the first block off list j. */
  lemma Pop(hdr: Headers, heads: seq<nat>, lists: seq<seq<nat>>, out: set<nat>, j: nat, a: nat)
    requires Listed(hdr, heads, lists, out) && j < BUCKETS && heads[j] == a != 0
    ensures a in hdr && |lists[j]| > 0 && lists[j][0] == a && a !in out && hdr[a].size == Size(j)
    ensures Listed(hdr[a := hdr[a].(next := 0)], heads[j := hdr[a].next], lists[j := lists[j][1..]], out + {a})
  {
    var list := lists[j];
    assert list[0] == a && a in list && Points(hdr, list, 0);
    var h, rest := hdr[a].(next := 0), list[1..];
    assert Chain(hdr, hdr[a].next, rest) && Idle(hdr, rest, Size(j), out) && a !in rest by {
      forall i: nat | i < |rest| ensures Points(hdr, rest, i) && rest[i] == list[i + 1] {
        assert Points(hdr, list, i + 1);
      }
    }
    Unmoved(hdr, hdr[a].next, rest, Size(j), out, a, h, out + {a});
    forall k: nat | k < BUCKETS && k != j ensures a !in lists[k] {
      OtherSize(hdr, heads, lists, out, a, j, k);
    }
    Relisted(hdr, heads, lists, out, j, a, h, hdr[a].next, rest, out + {a});
  }

  /** Putting an outstanding block in front of the list of its size. */
  lemma Push(hdr: Headers, heads: seq<nat>, lists: seq<seq<nat>>, out: set<nat>, j: nat, a: nat)
    requires Listed(hdr, heads, lists, out) && j < BUCKETS && a in out && a in hdr && a != 0 && hdr[a].size == Size(j)
    ensures Listed(hdr[a := hdr[a].(next := heads[j])], heads[j := a], lists[j := [a] + lists[j]], out - {a})
  {
    var list, h := lists[j], hdr[a].(next := heads[j]);
    assert Idle(hdr, list, Size(j), out);
    Unmoved(hdr, heads[j], list, Size(j), out, a, h, out - {a});
    var longer := [a] + list;
    var hdr' := hdr[a := h];
    assert Chain(hdr', a, longer) && Idle(hdr', longer, Size(j), out - {a}) by {
      forall i: nat | i < |longer| ensures Points(hdr', longer, i) && (i > 0 ==> longer[i] == list[i - 1]) {
        assert i > 0 ==> Points(hdr', list, i - 1);
      }
    }
    forall k: nat | k < BUCKETS && k != j ensures a !in lists[k] {
      OtherSize(hdr, heads, lists, out, a, j, k);
    }
    Relisted(hdr, heads, lists, out, j, a, h, a, longer, out - {a});
  }

  /** Chopping a new block off the pool at end. */
  lemma Carve(hdr: Headers, carved: seq<nat>, base: nat, end: nat, j: nat)
    requires Tiled(hdr, carved, base, end) && j < BUCKETS
    ensures end !in hdr && end % BLOCK_ALIGN == 0
    ensures Tiled(hdr[end := Header(Size(j), 0)], carved + [end], base, end + Span(Size(j)))
  {
    var hdr', carved', end' := hdr[end := Header(Size(j), 0)], carved + [end], end + Span(Size(j));
    if |carved| > 0 {
      var i := |carved| - 1;
      assert Tile(hdr, carved, end, i);
    }
    if end in hdr {
      Apart(hdr, carved, base, end, end, end);
    }
    forall i: nat | i < |carved'| ensures Tile(hdr', carved', end', i) {
      if i < |carved| { assert Tile(hdr, carved, end, i); }
    }
  }

  lemma HeldOut(hdr: Headers, out: set<nat>, j: nat, a: nat, h: Header, k: nat)
    requires j < BUCKETS && k < BUCKETS && a !in out && h.size == Size(j)
    ensures |Held(hdr[a := h], out + {a}, Size(k))| == |Held(hdr, out, Size(k))| + if k == j then 1 else 0
  {
    Sizes(j);
    Sizes(k);
    assert Held(hdr[a := h], out + {a}, Size(k)) == Held(hdr, out, Size(k)) + (if k == j then {a} else {});
  }

  /** One more outstanding block of size j; h has the size it is counted by. */
  lemma CountOut(hdr: Headers, out: set<nat>, count: seq<nat>, j: nat, a: nat, h: Header)
    requires Counted(hdr, out, count) && j < BUCKETS && a !in out && h.size == Size(j)
    ensures Counted(hdr[a := h], out + {a}, count[j := count[j] + 1])
  {
    forall k: nat | k < BUCKETS ensures |Held(hdr[a := h], out + {a}, Size(k))| == count[k] + if k == j then 1 else 0 {
      HeldOut(hdr, out, j, a, h, k);
    }
  }

  /** One less. */
  lemma CountIn(hdr: Headers, out: set<nat>, count: seq<nat>, j: nat, a: nat, h: Header)
    requires Counted(hdr, out, count) && j < BUCKETS && a in out && a in hdr && hdr[a].size == h.size == Size(j)
    ensures count[j] > 0 && Counted(hdr[a := h], out - {a}, count[j := count[j] - 1])
  {
    assert a in Held(hdr, out, Size(j));
    forall k: nat | k < BUCKETS ensures |Held(hdr[a := h], out - {a}, Size(k))| == count[k] - if k == j then 1 else 0 {
      Sizes(j);
      Sizes(k);
      assert Held(hdr[a := h], out - {a}, Size(k)) == Held(hdr, out, Size(k)) - (if k == j then {a} else {});
    }
  }

  lemma PlacedOut(hdr: Headers, lists: seq<seq<nat>>, out: set<nat>, j: nat, a: nat, h: Header, list: seq<nat>)
    requires Placed(hdr, lists, out) && j < |lists| && h.next == 0
    requires forall b | b in lists[j] :: b == a || b in list
    ensures Placed(hdr[a := h], lists[j := list], out + {a})
  {
    var hdr', lists', out' := hdr[a := h], lists[j := list], out + {a};
    forall b | b in hdr' ensures Somewhere(hdr', lists', out', b) {
      if b !in out' {
        assert Somewhere(hdr, lists, out, b);
        var k: nat :| k < |lists| && k < BUCKETS && hdr[b].size == Size(k) && b in lists[k];
        assert b in lists'[k];
      }
    }
  }

  lemma PlacedIn(hdr: Headers, lists: seq<seq<nat>>, out: set<nat>, j: nat, a: nat, h: Header)
    requires Placed(hdr, lists, out) && j < |lists| && j < BUCKETS && a in hdr && h.size == Size(j)
    ensures Placed(hdr[a := h], lists[j := [a] + lists[j]], out - {a})
  {
    var hdr', lists', out' := hdr[a := h], lists[j := [a] + lists[j]], out - {a};
    forall b | b in hdr' ensures Somewhere(hdr', lists', out', b) {
      if b == a {
        assert b in lists'[j];
      } else if b !in out {
        assert Somewhere(hdr, lists, out, b);
        var k: nat :| k < |lists| && k < BUCKETS && hdr[b].size == Size(k) && b in lists[k];
        assert b in lists'[k];
      }
    }
  }

  /** The heap's invariant. */
  ghost predicate Sound(hdr: Headers, heads: seq<nat>, lists: seq<seq<nat>>, out: set<nat>, count: seq<nat>,
                        carved: seq<nat>, base: nat, end: nat)
  {
    && 0 < base && Tiled(hdr, carved, base, end) && Listed(hdr, heads, lists, out)
    && Placed(hdr, lists, out) && Counted(hdr, out, count)
    && forall a {:trigger Sized(hdr, a)} | a in hdr :: Sized(hdr, a)
  }

  /** The first block of a free list. */
  lemma First(hdr: Headers, heads: seq<nat>, lists: seq<seq<nat>>, out: set<nat>, j: nat, a: nat)
    requires Listed(hdr, heads, lists, out) && j < BUCKETS && heads[j] == a != 0
    ensures |lists[j]| > 0 && a == lists[j][0] && a in hdr && a !in out && hdr[a].size == Size(j)
  {
    assert Chain(hdr, heads[j], lists[j]) && Idle(hdr, lists[j], Size(j), out);
  }

  lemma PopAll(hdr: Headers, heads: seq<nat>, lists: seq<seq<nat>>, out: set<nat>, count: seq<nat>,
               carved: seq<nat>, base: nat, end: nat, j: nat, a: nat,
               hdr': Headers, heads': seq<nat>, lists': seq<seq<nat>>, out': set<nat>, count': seq<nat>)
    requires Sound(hdr, heads, lists, out, count, carved, base, end) && j < BUCKETS && heads[j] == a != 0
    requires a in hdr && |lists[j]| > 0 && hdr' == hdr[a := hdr[a].(next := 0)] && heads' == heads[j := hdr[a].next]
    requires lists' == lists[j := lists[j][1..]] && out' == out + {a} && count' == count[j := count[j] + 1]
    ensures Sound(hdr', heads', lists', out', count', carved, base, end) && Serves(hdr, out, j, a, hdr', out')
  {
    Pop(hdr, heads, lists, out, j, a);
    var h := hdr[a].(next := 0);
    CountOut(hdr, out, count, j, a, h);
    PlacedOut(hdr, lists, out, j, a, h, lists[j][1..]);
    TiledStill(hdr, carved, base, end, a, 0);
    StillSized(hdr, a, h, j);
  }

  lemma NewAll(hdr: Headers, heads: seq<nat>, lists: seq<seq<nat>>, out: set<nat>, count: seq<nat>,
               carved: seq<nat>, base: nat, end: nat, j: nat)
    requires Sound(hdr, heads, lists, out, count, carved, base, end) && j < BUCKETS
    ensures end !in hdr && end !in out
    ensures Sound(hdr[end := Header(Size(j), 0)], heads, lists, out + {end}, count[j := count[j] + 1],
              carved + [end], base, end + Span(Size(j)))
  {
    var h := Header(Size(j), 0);
    Carve(hdr, carved, base, end, j);
    Fresh(hdr, heads, lists, out, j, end);
    CountOut(hdr, out, count, j, end, h);
    PlacedOut(hdr, lists, out, j, end, h, lists[j]);
    assert lists == lists[j := lists[j]];
    StillSized(hdr, end, h, j);
  }

  lemma StillSized(hdr: Headers, a: nat, h: Header, j: nat)
    requires (forall b {:trigger Sized(hdr, b)} | b in hdr :: Sized(hdr, b)) && h.size == Size(j) && j < BUCKETS
    ensures var hdr' := hdr[a := h]; forall b {:trigger Sized(hdr', b)} | b in hdr' :: Sized(hdr', b)
  {
    var hdr' := hdr[a := h];
    forall b | b in hdr' ensures Sized(hdr', b) {
      assert b != a ==> Sized(hdr, b);
    }
  }

  lemma PushAll(hdr: Headers, heads: seq<nat>, lists: seq<seq<nat>>, out: set<nat>, count: seq<nat>,
                carved: seq<nat>, base: nat, end: nat, j: nat, a: nat)
    requires Sound(hdr, heads, lists, out, count, carved, base, end) && j < BUCKETS
    requires a in out && a in hdr && hdr[a].size == Size(j)
    ensures count[j] > 0
    ensures Sound(hdr[a := hdr[a].(next := heads[j])], heads[j := a], lists[j := [a] + lists[j]], out - {a},
              count[j := count[j] - 1], carved, base, end)
  {
    var h := hdr[a].(next := heads[j]);
    Apart(hdr, carved, base, end, a, a);
    Push(hdr, heads, lists, out, j, a);
    CountIn(hdr, out, count, j, a, h);
    PlacedIn(hdr, lists, out, j, a, h);
    TiledStill(hdr, carved, base, end, a, heads[j]);
    StillSized(hdr, a, h, j);
  }

  /** The size of every block is one of the table. */
  lemma SizeListed(hdr: Headers, heads: seq<nat>, lists: seq<seq<nat>>, out: set<nat>, count: seq<nat>,
                   carved: seq<nat>, base: nat, end: nat, a: nat) returns (j: nat)
    requires Sound(hdr, heads, lists, out, count, carved, base, end) && a in hdr
    ensures j < BUCKETS && hdr[a].size == Size(j)
  {
    assert Sized(hdr, a);
    j :| j < BUCKETS && hdr[a].size == Size(j);
  }

  /** What malloc returns: nothing, an address, or no return at all. Done is the end of free. */
  datatype Reply = Null | Block(p: nat) | Bug | Done

  /** Bytes the first i carved blocks take. */
  ghost function Total(hdr: Headers, carved: seq<nat>, i: nat): (n: nat) {
    if i == 0 || i > |carved| || carved[i - 1] !in hdr then 0
    else Total(hdr, carved, i - 1) + Span(hdr[carved[i - 1]].size)
  }

  /** The blocks carved take exactly what is gone from the pool. */
  lemma {:induction false} TotalIs(hdr: Headers, carved: seq<nat>, base: nat, end: nat, i: nat)
    requires Tiled(hdr, carved, base, end) && i <= |carved|
    ensures base + Total(hdr, carved, i) == if i < |carved| then carved[i] else end
  {
    if i > 0 {
      TotalIs(hdr, carved, base, end, i - 1);
      assert Tile(hdr, carved, end, i - 1);
    }
  }

  /** Every carved block is outstanding or listed, and the lists are used first. */
  ghost predicate Peaked(count: seq<nat>, lists: seq<seq<nat>>, maxCount: seq<nat>) {
    && |maxCount| == |count| == |lists| == BUCKETS
    && forall j: nat {:trigger maxCount[j]} | j < BUCKETS :: maxCount[j] == count[j] + |lists[j]|
  }

  function Bumped(maxCount: seq<nat>, j: nat, c: nat): (m: seq<nat>)
    requires j < |maxCount|
  {
    if c > maxCount[j] then maxCount[j := c] else maxCount
  }

  /** Bytes that m[j] blocks of each of the first n sizes take. */
  function Used(m: seq<nat>, n: nat): (k: nat)
    requires n <= |m|
  {
    if n == 0 then 0 else Used(m, n - 1) + m[n - 1] * Span(Size(n - 1))
  }

  lemma {:induction false} UsedNone(m: seq<nat>, n: nat)
    requires n <= |m| && forall j | 0 <= j < |m| :: m[j] == 0
    ensures Used(m, n) == 0
  {
    if n > 0 { UsedNone(m, n - 1); }
  }

  lemma {:induction false} UsedSame(m: seq<nat>, j: nat, x: nat, n: nat)
    requires n <= j < |m|
    ensures Used(m[j := x], n) == Used(m, n)
  {
    if n > 0 { UsedSame(m, j, x, n - 1); }
  }

  lemma OneMore(a: nat, b: nat)
    ensures (a + 1) * b == a * b + b
  {
  }

  /** One more block of size j. */
  lemma {:induction false} UsedOne(m: seq<nat>, j: nat, n: nat)
    requires j < n <= |m|
    ensures Used(m[j := m[j] + 1], n) == Used(m, n) + Span(Size(j))
  {
    if j == n - 1 {
      UsedSame(m, j, m[j] + 1, j);
      OneMore(m[j], Span(Size(j)));
    } else {
      UsedOne(m, j, n - 1);
    }
  }

  /** A listed block goes out: the peak stays. */
  lemma PeakListed(count: seq<nat>, lists: seq<seq<nat>>, maxCount: seq<nat>, j: nat)
    requires Peaked(count, lists, maxCount) && j < BUCKETS && |lists[j]| > 0
    ensures Bumped(maxCount, j, count[j] + 1) == maxCount
    ensures Peaked(count[j := count[j] + 1], lists[j := lists[j][1..]], maxCount)
  {
  }

  /** A new one goes out: the peak is one higher. */
  lemma PeakNew(count: seq<nat>, lists: seq<seq<nat>>, maxCount: seq<nat>, j: nat, peak: seq<nat>)
    requires Peaked(count, lists, maxCount) && j < BUCKETS && lists[j] == [] && peak == Bumped(maxCount, j, count[j] + 1)
    ensures Peaked(count[j := count[j] + 1], lists, peak) && Used(peak, BUCKETS) == Used(maxCount, BUCKETS) + Span(Size(j))
  {
    UsedOne(maxCount, j, BUCKETS);
  }

  lemma LessTimes(a: nat, b: nat, c: nat)
    requires a <= b
    ensures a * c <= b * c
  {
  }

  lemma {:induction false} UsedMore(m: seq<nat>, r: seq<nat>, n: nat)
    requires n <= |m| == |r| && forall j | 0 <= j < |m| :: m[j] <= r[j]
    ensures Used(m, n) <= Used(r, n)
  {
    if n > 0 {
      UsedMore(m, r, n - 1);
      LessTimes(m[n - 1], r[n - 1], Span(Size(n - 1)));
    }
  }

  /** A list without a head is empty. */
  lemma NoList(hdr: Headers, heads: seq<nat>, lists: seq<seq<nat>>, out: set<nat>, j: nat)
    requires Listed(hdr, heads, lists, out) && j < BUCKETS
    ensures heads[j] == 0 <==> lists[j] == []
  {
    if lists[j] != [] { assert Chain(hdr, heads[j], lists[j]) && Points(hdr, lists[j], 0); }
  }

  /** How many blocks of size j were carved: as many as ever were outstanding at a time. */
  lemma CarvedPeak(hdr: Headers, heads: seq<nat>, lists: seq<seq<nat>>, out: set<nat>, count: seq<nat>,
                   carved: seq<nat>, base: nat, end: nat, maxCount: seq<nat>, j: nat)
    requires Sound(hdr, heads, lists, out, count, carved, base, end) && Peaked(count, lists, maxCount) && j < BUCKETS
    ensures |OfSize(hdr, Size(j))| == maxCount[j]
  {
    var listed := Elems(lists[j]);
    assert Chain(hdr, heads[j], lists[j]) && Idle(hdr, lists[j], Size(j), out);
    Members(lists[j]);
    assert count[j] == |Held(hdr, out, Size(j))|;
    forall a | a in hdr && hdr[a].size == Size(j) ensures a in Held(hdr, out, Size(j)) + listed {
      assert Somewhere(hdr, lists, out, a);
      if a !in out {
        var k: nat :| k < |lists| && k < BUCKETS && hdr[a].size == Size(k) && a in lists[k];
        Sizes(j);
        Sizes(k);
      }
    }
    assert OfSize(hdr, Size(j)) == Held(hdr, out, Size(j)) + listed && Held(hdr, out, Size(j)) !! listed;
  }

  ghost function OfSize(hdr: Headers, size: nat): (s: set<nat>) {
    set a | a in hdr && hdr[a].size == size
  }

  function Elems(list: seq<nat>): (s: set<nat>) {
    set a | a in list
  }

  lemma {:induction false} Members(list: seq<nat>)
    requires forall i, j | 0 <= i < j < |list| :: list[i] != list[j]
    ensures |Elems(list)| == |list|
  {
    if |list| > 0 {
      Members(list[1..]);
      assert list[0] !in list[1..];
      assert Elems(list) == Elems(list[1..]) + {list[0]};
    }
  }

  class Pool {
    const base: nat
    const limit: nat
    var nextBlock: nat
    var hdr: Headers
    var heads: seq<nat>
    var count: seq<nat> // blocks of each size that are outstanding
    var maxCount: seq<nat> // and the most there were at a time
    ghost var carved: seq<nat>
    ghost var lists: seq<seq<nat>>
    ghost var out: set<nat>

    /** The carved blocks tile the used part of the pool; each is outstanding or on the one free list of
        its size, once; nCount counts the outstanding ones; and as many of each size were carved as ever
        were outstanding at a time, nMaxCount. */
    ghost predicate Valid()
      reads this
    {
      && nextBlock <= limit && Sound(hdr, heads, lists, out, count, carved, base, nextBlock)
      && Peaked(count, lists, maxCount) && nextBlock == base + Used(maxCount, BUCKETS)
    }

    /** alloc_init. */
    constructor (b: nat, size: nat)
      requires 0 < b && b % BLOCK_ALIGN == 0
      ensures Valid() && out == {} && nextBlock == base == b && limit == b + size
      ensures count == maxCount == seq(BUCKETS, _ => 0)
    {
      base, limit, nextBlock := b, b + size, b;
      hdr, carved, out := map[], [], {};
      heads, count, lists := seq(BUCKETS, _ => 0), seq(BUCKETS, _ => 0), seq(BUCKETS, _ => []);
      maxCount := seq(BUCKETS, _ => 0);
      new;
      UsedNone(maxCount, BUCKETS);
    }

    /** mem_get_size. */
    function MemGetSize(): (n: nat)
      requires nextBlock <= limit
      reads this
    {
      limit - nextBlock
    }

    /** What mem_get_size reports and what the blocks carved so far take, headers and padding included,
        make up the whole pool. */
    lemma Remaining()
      requires Valid()
      ensures MemGetSize() + Total(hdr, carved, |carved|) == limit - base && Total(hdr, carved, |carved|) == Used(maxCount, BUCKETS)
    {
      TotalIs(hdr, carved, base, nextBlock, |carved|);
    }

    /** The bucket whose blocks fit n bytes best. */
    method Bucket(n: nat) returns (j: nat)
      requires n <= MAX_ALLOC_SIZE
      ensures Fits(n, j)
    {
      j := 0;
      while Size(j) > 0
        invariant j < BUCKETS && forall k: nat | k < j :: Size(k) < n
        decreases BUCKETS - j
      {
        if n <= Size(j) {
          return;
        }
        j := j + 1;
      }
    }

    /** malloc's first way: the block at the head of free list j. */
    method TakeListed(j: nat) returns (a: nat)
      requires Valid() && j < BUCKETS && heads[j] != 0
      modifies this
      ensures Valid() && nextBlock == old(nextBlock) && Serves(old(hdr), old(out), j, a, hdr, out)
      ensures count == old(count)[j := old(count)[j] + 1] && maxCount == Bumped(old(maxCount), j, count[j])
    {
      a := heads[j];
      First(hdr, heads, lists, out, j, a);
      PeakListed(count, lists, maxCount, j);
      heads, hdr := heads[j := hdr[a].next], hdr[a := hdr[a].(next := 0)];
      lists, out := lists[j := lists[j][1..]], out + {a};
      CountOne(j);
      PopAll(old(hdr), old(heads), old(lists), old(out), old(count), carved, base, nextBlock, j, a, hdr, heads, lists, out, count);
    }

    /** malloc's other way: a new block from the pool; false when it does not fit. */
    method TakeNew(j: nat) returns (ok: bool, a: nat)
      requires Valid() && j < BUCKETS && heads[j] == 0
      modifies this
      ensures ok <==> Span(Size(j)) <= old(MemGetSize())
      ensures nextBlock == old(nextBlock) + Span(Size(j)) && heads == old(heads)
      ensures !ok ==> hdr == old(hdr) && out == old(out) && count == old(count)
      ensures !ok ==> maxCount == old(maxCount) && lists == old(lists) && carved == old(carved)
      ensures ok ==> Valid() && a == old(nextBlock) && Serves(old(hdr), old(out), j, a, hdr, out)
      ensures ok ==> count == old(count)[j := old(count)[j] + 1] && maxCount == Bumped(old(maxCount), j, count[j])
    {
      a := nextBlock;
      NewAll(hdr, heads, lists, out, count, carved, base, nextBlock, j);
      NoList(hdr, heads, lists, out, j);
      PeakNew(count, lists, maxCount, j, Bumped(maxCount, j, count[j] + 1));
      nextBlock := nextBlock + Span(Size(j));
      if nextBlock > limit {
        return false, a;
      }
      hdr, carved := hdr[a := Header(Size(j), 0)], carved + [a];
      out := out + {a};
      CountOne(j);
      ok := true;
    }

    /** if (++pBucket->nCount > pBucket->nMaxCount) pBucket->nMaxCount = pBucket->nCount; */
    method CountOne(j: nat)
      requires j < |count| == |maxCount|
      modifies this`count, this`maxCount
      ensures count == old(count)[j := old(count)[j] + 1] && maxCount == Bumped(old(maxCount), j, count[j])
    {
      count := count[j := count[j] + 1];
      if count[j] > maxCount[j] {
        maxCount := maxCount[j := count[j]];
      }
    }

    /** A block of size j, listed or new; false when there is neither. */
    method Take(j: nat) returns (ok: bool, a: nat)
      requires Valid() && j < BUCKETS
      modifies this
      ensures !ok <==> old(heads)[j] == 0 && old(MemGetSize()) < Span(Size(j))
      ensures !ok ==> heads == old(heads) && hdr == old(hdr) && out == old(out) && count == old(count)
      ensures !ok ==> maxCount == old(maxCount) && lists == old(lists) && carved == old(carved)
      ensures !ok ==> nextBlock == old(nextBlock) + Span(Size(j))
      ensures ok ==> Valid() && Serves(old(hdr), old(out), j, a, hdr, out)
      ensures ok ==> count == old(count)[j := old(count)[j] + 1] && maxCount == Bumped(old(maxCount), j, count[j])
    {
      if heads[j] != 0 {
        a := TakeListed(j);
        ok := true;
      } else {
        ok, a := TakeNew(j);
      }
    }

    /** An address for n bytes, null for too many; BUG when the pool is used up. */
    method Malloc(n: nat) returns (r: Reply)
      requires Valid()
      modifies this
      ensures !r.Done? && (r.Null? <==> n > MAX_ALLOC_SIZE)
      ensures r.Null? ==> unchanged(this)
      ensures r.Bug? <==> n <= MAX_ALLOC_SIZE && old(heads)[Best(n)] == 0 && old(MemGetSize()) < Span(Size(Best(n)))
      ensures r.Bug? ==> heads == old(heads) && hdr == old(hdr) && out == old(out) && count == old(count)
      ensures r.Bug? ==> maxCount == old(maxCount) && lists == old(lists) && carved == old(carved)
      ensures r.Bug? ==> nextBlock == old(nextBlock) + Span(Size(Best(n)))
      ensures r.Block? ==> Valid() && r.p >= HEADER && r.p % BLOCK_ALIGN == 0
      ensures r.Block? ==> Serves(old(hdr), old(out), Best(n), r.p - HEADER, hdr, out)
      ensures r.Block? ==> count == old(count)[Best(n) := old(count)[Best(n)] + 1] && maxCount == Bumped(old(maxCount), Best(n), count[Best(n)])
    {
      if n > MAX_ALLOC_SIZE {
        return Null;
      }
      var j := Bucket(n);
      OneFits(n, j);
      var ok, a := Take(j);
      if !ok {
        return Bug;
      }
      Aligned(hdr, carved, base, nextBlock, a, a + HEADER);
      return Block(a + HEADER);
    }

    lemma Separate(p: nat, n: nat, q: nat, k: nat)
      requires Valid() && Owned(hdr, out, p, n) && Owned(hdr, out, q, k)
      ensures p % BLOCK_ALIGN == 0 && base <= p && p + n <= limit && (p != q ==> Disjoint(p, n, q, k))
    {
      Regions(hdr, heads, lists, out, count, carved, base, nextBlock, p - HEADER, q - HEADER);
    }

    /** Return a block that malloc handed out and nobody returned since. */
    method Free(p: nat)
      requires Valid() && p >= HEADER && p - HEADER in out
      modifies this
      ensures Valid() && out == old(out) - {p - HEADER} && nextBlock == old(nextBlock) && maxCount == old(maxCount)
      ensures p - HEADER in old(hdr) && forall j: nat {:trigger Size(j)} | j < BUCKETS && Size(j) == old(hdr)[p - HEADER].size ::
        old(count)[j] > 0 && count == old(count)[j := old(count)[j] - 1]
      ensures hdr.Keys == old(hdr).Keys && forall b | b in hdr :: hdr[b].size == old(hdr)[b].size
    {
      var a := p - HEADER;
      var size := hdr[a].size;
      ghost var i := SizeListed(hdr, heads, lists, out, count, carved, base, nextBlock, a);
      var j := 0;
      while Size(j) != size
        invariant j <= i
        decreases i - j
      {
        j := j + 1;
      }
      forall k: nat | k < BUCKETS && Size(k) == size ensures k == j { Sizes(k); Sizes(j); }
      PushAll(hdr, heads, lists, out, count, carved, base, nextBlock, j, a);
      hdr := hdr[a := hdr[a].(next := heads[j])];
      heads := heads[j := a];
      count := count[j := count[j] - 1];
      lists, out := lists[j := [a] + lists[j]], out - {a};
    }
  }

  /** What handing out block a of size j promises: it was not outstanding, and no other block changed hands
      or size. */
  ghost predicate Serves(hdr: Headers, out: set<nat>, j: nat, a: nat, hdr': Headers, out': set<nat>) {
    && a !in out && out' == out + {a} && a in hdr' && hdr'[a].size == Size(j)
    && (a in hdr ==> hdr'[a].size == hdr[a].size)
    && forall b | b in hdr && b != a :: b in hdr' && hdr'[b].size == hdr[b].size
  }

  /** The tiling does not depend on the list pointers. */
  lemma TiledStill(hdr: Headers, carved: seq<nat>, base: nat, end: nat, a: nat, next: nat)
    requires Tiled(hdr, carved, base, end) && a in hdr
    ensures Tiled(hdr[a := hdr[a].(next := next)], carved, base, end)
  {
    var hdr' := hdr[a := hdr[a].(next := next)];
    forall i: nat | i < |carved| ensures Tile(hdr', carved, end, i) {
      assert Tile(hdr, carved, end, i);
    }
  }

  /** A new block is on no list. */
  lemma Fresh(hdr: Headers, heads: seq<nat>, lists: seq<seq<nat>>, out: set<nat>, j: nat, a: nat)
    requires Listed(hdr, heads, lists, out) && j < BUCKETS && a !in hdr
    ensures Listed(hdr[a := Header(Size(j), 0)], heads, lists, out + {a})
  {
    forall k: nat | k < BUCKETS ensures a !in lists[k] {
      assert Idle(hdr, lists[k], Size(k), out);
    }
    Unmoved(hdr, heads[j], lists[j], Size(j), out, a, Header(Size(j), 0), out + {a});
    Relisted(hdr, heads, lists, out, j, a, Header(Size(j), 0), heads[j], lists[j], out + {a});
    assert lists == lists[j := lists[j]] && heads == heads[j := heads[j]];
  }

  /** Region p holds n bytes of an outstanding block, of the size that fits best. */
  ghost predicate Owned(hdr: Headers, out: set<nat>, p: nat, n: nat) {
    p >= HEADER && p - HEADER in out && p - HEADER in hdr && n <= hdr[p - HEADER].size == Size(Best(n))
  }

  /** The n bytes at p and the k bytes at q have none in common. */
  predicate Disjoint(p: nat, n: nat, q: nat, k: nat) {
    p + n <= q || q + k <= p
  }

  /** Outstanding regions are aligned, lie in the used part of the pool, and share no byte with each
      other or with any block header. */
  lemma Regions(hdr: Headers, heads: seq<nat>, lists: seq<seq<nat>>, out: set<nat>, count: seq<nat>,
                carved: seq<nat>, base: nat, end: nat, a: nat, b: nat)
    requires Sound(hdr, heads, lists, out, count, carved, base, end) && a in out && b in hdr
    ensures a in hdr && (a + HEADER) % BLOCK_ALIGN == 0 && base <= a && a + HEADER + hdr[a].size <= end
    ensures Disjoint(a + HEADER, hdr[a].size, b, HEADER)
    ensures a != b ==> Disjoint(a + HEADER, hdr[a].size, b + HEADER, hdr[b].size)
  {
    Apart(hdr, carved, base, end, a, b);
  }
}
