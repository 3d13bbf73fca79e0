/** The buffer list itself: bcache.buf threaded on a circular doubly linked list through head. Buffers
    are named by their index; index n, one past the last, is the list head. */
module BufferRing {
  import opened Blocks
  import opened BufferCache

  /** Stop i of the walk along list: the head first, then the members, then the head again. */
  function Stop(list: seq<nat>, n: nat, i: nat): (b: nat) {
    if 1 <= i <= |list| then list[i - 1] else n
  }

  ghost predicate Members(list: seq<nat>, n: nat) {
    && (forall i | 0 <= i < |list| :: list[i] < n)
    && forall i, j | 0 <= i < j < |list| :: list[i] != list[j]
  }

  /** prev and next thread exactly the members of list, in order, through the head. */
  ghost predicate Ring(prev: seq<nat>, next: seq<nat>, list: seq<nat>, n: nat) {
    && |prev| == |next| == n + 1 && Members(list, n)
    && forall i: nat {:trigger Link(prev, next, list, n, i)} | i <= |list| :: Link(prev, next, list, n, i)
  }

  /** Stops i and i + 1 point at each other. */
  ghost predicate Link(prev: seq<nat>, next: seq<nat>, list: seq<nat>, n: nat, i: nat) {
    var x, y := Stop(list, n, i), Stop(list, n, i + 1);
    x < |next| && y < |prev| && next[x] == y && prev[y] == x
  }

  /** Different stops but the two ends are different buffers. */
  lemma Stops(list: seq<nat>, n: nat, i: nat, j: nat)
    requires Members(list, n) && i <= |list| && j <= |list| + 1
    ensures Stop(list, n, i) == Stop(list, n, j) <==> i == j || (i == 0 && j == |list| + 1)
    ensures Stop(list, n, i) <= n
  {
  }

  /** Linking b in right after the head. */
  lemma Insert(prev: seq<nat>, next: seq<nat>, list: seq<nat>, n: nat, b: nat)
    requires Ring(prev, next, list, n) && b < n && b !in list
    ensures next[n] <= n
    ensures Ring(prev[b := n][next[n] := b], next[b := next[n]][n := b], [b] + list, n)
  {
    var r := [b] + list;
    assert Link(prev, next, list, n, 0);
    var prev', next' := prev[b := n][next[n] := b], next[b := next[n]][n := b];
    forall i: nat | i <= |r| ensures Link(prev', next', r, n, i) {
      assert Stop(r, n, i) == if i == 0 then n else if i == 1 then b else Stop(list, n, i - 1);
      assert Stop(r, n, i + 1) == if i == 0 then b else Stop(list, n, i);
      if i >= 2 {
        Stops(list, n, i - 1, 0);
        Stops(list, n, 1, i);
        assert Link(prev, next, list, n, i - 1);
      }
    }
  }

  /** The neighbours of the member at place p. */
  lemma Neighbours(prev: seq<nat>, next: seq<nat>, list: seq<nat>, n: nat, p: nat)
    requires Ring(prev, next, list, n) && p < |list|
    ensures list[p] < n && prev[list[p]] == Stop(list, n, p) <= n && next[list[p]] == Stop(list, n, p + 2) <= n
  {
    assert Link(prev, next, list, n, p) && Link(prev, next, list, n, p + 1);
  }

  /** Link i of the list without the member at place p, by the old list. */
  lemma Rejoined(prev: seq<nat>, next: seq<nat>, list: seq<nat>, n: nat, p: nat, i: nat)
    requires Ring(prev, next, list, n) && p < |list| && i <= |list| - 1
    ensures var b, x, y := list[p], Stop(list, n, if i <= p then i else i + 1), Stop(list, n, if i < p then i + 1 else i + 2);
      b < n && next[b] <= n && prev[b] <= n && x <= n && y <= n
      && next[prev[b] := next[b]][x] == y && prev[next[b] := prev[b]][y] == x
  {
    Neighbours(prev, next, list, n, p);
    var x, y := if i <= p then i else i + 1, if i < p then i + 1 else i + 2;
    Stops(list, n, x, p);
    if x != p {
      Stops(list, n, p, x);
      Other(list, n, p + 2, y);
      assert Link(prev, next, list, n, x);
    }
  }

  /** Linking out the member at place p. */
  lemma Unlink(prev: seq<nat>, next: seq<nat>, list: seq<nat>, n: nat, p: nat, r: seq<nat>)
    requires Ring(prev, next, list, n) && p < |list| && r == list[..p] + list[p + 1..]
    ensures var b := list[p]; b < n && prev[b] <= n && next[b] <= n
    ensures var b := list[p]; Ring(prev[next[b] := prev[b]], next[prev[b] := next[b]], r, n)
  {
    Neighbours(prev, next, list, n, p);
    var b := list[p];
    var prev', next' := prev[next[b] := prev[b]], next[prev[b] := next[b]];
    forall i: nat | i <= |r| ensures Link(prev', next', r, n, i) {
      Skip(list, n, p, r, i);
      Skip(list, n, p, r, i + 1);
      Rejoined(prev, next, list, n, p, i);
    }
    FewerMembers(list, n, p, r);
  }

  lemma FewerMembers(list: seq<nat>, n: nat, p: nat, r: seq<nat>)
    requires Members(list, n) && p < |list| && r == list[..p] + list[p + 1..]
    ensures Members(r, n) && list[p] !in r
  {
    forall i | 0 <= i < |r| ensures r[i] == list[if i < p then i else i + 1] {
    }
  }

  lemma Skip(list: seq<nat>, n: nat, p: nat, r: seq<nat>, i: nat)
    requires p < |list| && r == list[..p] + list[p + 1..]
    ensures Stop(r, n, i) == Stop(list, n, if i <= p then i else i + 1)
  {
  }

  lemma Other(list: seq<nat>, n: nat, i: nat, j: nat)
    requires Members(list, n) && 1 <= i <= |list| + 1 && 1 <= j <= |list| + 1 && i != j
    ensures Stop(list, n, i) != Stop(list, n, j)
  {
  }

  /** n - 1, ..., 1, 0: each new buffer goes in front. */
  ghost function Down(n: nat): (list: seq<nat>)
    ensures |list| == n && forall i | 0 <= i < n :: list[i] == n - 1 - i
  {
    seq(n, i requires 0 <= i < n => n - 1 - i)
  }

  class Bcache {
    var bufs: seq<Buf>
    var prev: seq<nat>
    var next: seq<nat>
    ghost var order: seq<nat>
    ghost var freed: seq<nat>
    ghost var clock: nat

    ghost function Tab(): (t: Table)
      reads this
    {
      Table(bufs, order, freed, clock)
    }

    /** The list threads all buffers, in the order of their last releases. */
    ghost predicate Valid()
      reads this
    {
      Recent(Tab()) && Ring(prev, next, order, |bufs|)
    }

    /** binit over n zeroed buffers. */
    constructor (n: nat)
      ensures Valid() && |bufs| == n && Unused(Tab())
    {
      bufs := seq(n, _ => Buf(0, 0, false, 0, Zeroes()));
      prev := seq(n + 1, _ => n);
      next := seq(n + 1, _ => n);
      order, freed, clock := [], seq(n, _ => 0), 0;
      new;
      EmptyRing(prev, next, n);
      for b := 0 to n
        invariant |bufs| == n && Unused(Tab()) && order == Down(b) && Ring(prev, next, order, n)
      {
        Insert(prev, next, order, n, b);
        prev, next := prev[b := n][next[n] := b], next[b := next[n]][n := b];
        order := [b] + order;
        assert order == Down(b + 1);
      }
      UnusedRecent(Tab());
    }

    /** bget's first walk: a buffer that stands for block (dev, blockno), or the head. */
    method Find(dev: nat, blockno: nat) returns (b: nat)
      requires Valid()
      ensures b <= |bufs|
      ensures b < |bufs| ==> Home(bufs[b]) == (dev, blockno)
      ensures b == |bufs| ==> !Cached(bufs, (dev, blockno))
    {
      var n := |bufs|;
      assert Link(prev, next, order, n, 0);
      ghost var i := 1;
      b := next[n];
      while b != n
        invariant 1 <= i <= n + 1 && b == Stop(order, n, i)
        invariant forall q | 0 <= q < i - 1 :: Home(bufs[order[q]]) != (dev, blockno)
        decreases n + 1 - i
      {
        if bufs[b].dev == dev && bufs[b].blockno == blockno {
          return;
        }
        assert Link(prev, next, order, n, i);
        b, i := next[b], i + 1;
      }
      NotCached(Tab(), (dev, blockno));
    }

    /** bget's second walk, from the other end: the last buffer in the order that is not in use. */
    method FindUnused() returns (b: nat)
      requires Valid()
      ensures b <= |bufs|
      ensures b < |bufs| ==> bufs[b].refcnt == 0 && exists p: nat :: p < |order| && order[p] == b && BusyFrom(Tab(), p + 1)
      ensures b == |bufs| ==> BusyFrom(Tab(), 0)
    {
      var n := |bufs|;
      assert Link(prev, next, order, n, n);
      ghost var i: nat := n;
      b := prev[n];
      while b != n
        invariant i <= n && b == Stop(order, n, i) && BusyFrom(Tab(), i)
        decreases i
      {
        if bufs[b].refcnt == 0 {
          assert order[i - 1] == b;
          return;
        }
        assert Link(prev, next, order, n, i - 1);
        b, i := prev[b], i - 1;
      }
    }

    /** bget under bcache.lock: buffer b, or none when all are in use. */
    method Bget(dev: nat, blockno: nat) returns (panic: bool, b: nat)
      requires Valid()
      modifies this`bufs
      ensures Valid()
      ensures panic <==> !Cached(old(bufs), (dev, blockno)) && forall c | 0 <= c < |bufs| :: old(bufs)[c].refcnt != 0
      ensures panic ==> bufs == old(bufs)
      ensures !panic ==> Gets(old(Tab()), (dev, blockno), b, Tab())
    {
      b := Find(dev, blockno);
      if b != |bufs| {
        bufs := bufs[b := bufs[b].(refcnt := bufs[b].refcnt + 1)];
        return false, b;
      }
      b := FindUnused();
      if b != |bufs| {
        bufs := bufs[b := Buf(dev, blockno, false, 1, bufs[b].data)];
        return false, b;
      }
      AllBusy(Tab());
      return true, 0;
    }

    /** brelse under bcache.lock. */
    method Brelse(b: nat)
      requires Valid() && b < |bufs| && bufs[b].refcnt > 0
      modifies this
      ensures Valid() && Puts(old(Tab()), b, Tab())
    {
      var n := |bufs|;
      bufs := bufs[b := bufs[b].(refcnt := bufs[b].refcnt - 1)];
      if bufs[b].refcnt == 0 {
        ghost var p := Place(order, b);
        ghost var rest := order[..p] + order[p + 1..];
        WithoutIs(order, b, p);
        Unlink(prev, next, order, n, p, rest);
        FewerMembers(order, n, p, rest);
        prev := prev[next[b] := prev[b]];
        next := next[prev[b] := next[b]];
        Insert(prev, next, rest, n, b);
        next := next[b := next[n]];
        prev := prev[b := n];
        prev := prev[next[n] := b];
        next := next[n := b];
        order, freed, clock := [b] + rest, freed[b := clock + 1], clock + 1;
      }
      PutsRecent(old(Tab()), b, Tab());
    }
  }

  lemma NotCached(t: Table, a: Addr)
    requires Recent(t) && forall q | 0 <= q < |t.order| :: Home(t.bufs[t.order[q]]) != a
    ensures !Cached(t.bufs, a)
  {
    forall b: nat | b < |t.bufs| ensures Home(t.bufs[b]) != a {
      var q := Place(t.order, b);
    }
  }

  lemma AllBusy(t: Table)
    requires Recent(t) && BusyFrom(t, 0)
    ensures forall c | 0 <= c < |t.bufs| :: t.bufs[c].refcnt != 0
  {
    forall c: nat | c < |t.bufs| ensures t.bufs[c].refcnt != 0 {
      var q := Place(t.order, c);
    }
  }

  lemma EmptyRing(prev: seq<nat>, next: seq<nat>, n: nat)
    requires |prev| == |next| == n + 1 && prev[n] == next[n] == n
    ensures Ring(prev, next, Down(0), n)
  {
  }

  /** No buffer was ever used. */
  ghost predicate Unused(t: Table) {
    && t.clock == 0 && |t.freed| == |t.bufs|
    && forall b {:trigger t.bufs[b]} | 0 <= b < |t.bufs| :: t.bufs[b] == Buf(0, 0, false, 0, Zeroes()) && t.freed[b] == 0
  }

  lemma UnusedRecent(t: Table)
    requires Unused(t) && t.order == Down(|t.bufs|)
    ensures Recent(t)
  {
    var n := |t.bufs|;
    forall b: nat | b < n ensures b in t.order {
      assert t.order[n - 1 - b] == b;
    }
    forall b: nat | b < n ensures t.freed[b] == 0 {
      assert t.bufs[b].refcnt == 0;
    }
  }

  /** After binit, with idle threads and free locks, the machine is in its initial state. */
  lemma Boots(t: Table, pcs: seq<Pc>, lock: seq<Owner>, disk: Disk)
    requires Recent(t) && Unused(t) && |lock| == |t.bufs|
    requires (forall b | 0 <= b < |lock| :: lock[b].Free?) && forall i | 0 <= i < |pcs| :: pcs[i].Idle?
    ensures Init(State(t, pcs, lock, disk, []))
  {
    forall b: nat | b < |t.bufs| ensures t.freed[b] == 0 {
      assert t.bufs[b].refcnt == 0;
    }
  }
}
