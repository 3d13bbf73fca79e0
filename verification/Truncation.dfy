/** What itrunc takes away: the direct blocks, the indirect block and the blocks behind it. */
module Truncation {
  import opened Blocks
  import opened Volume

  function Cleared(addrs: seq<Word32>, k: nat): (r: seq<Word32>)
    requires k <= |addrs|
    ensures |r| == |addrs| && forall j | 0 <= j < |r| :: r[j] == if j < k then 0 else addrs[j]
  {
    if k == 0 then addrs else Cleared(addrs, k - 1)[k - 1 := 0]
  }

  /** Slot s is among the first k words of inode i or the first j words of its indirect block. */
  predicate Doomed(s: Slot, i: nat, k: nat, j: nat) {
    s.i == i && ((s.Addr? && s.k < k) || (s.Ind? && s.k < j))
  }

  ghost predicate Gone(v: Vol, i: nat, k: nat, j: nat, b: nat) {
    b != 0 && exists s :: Doomed(s, i, k, j) && Ptr(v, s) == b
  }

  /** itrunc has cleared the first k words of the inode and freed their blocks, and has freed the
      blocks behind the first j words of the indirect block. */
  ghost predicate Cutting(v0: Vol, v: Vol, i: nat, k: nat, j: nat) {
    && Own(v0) && i < |v0.nodes| && k <= NDIRECT + 1 && j <= NINDIRECT
    && v == v0.(used := v.used, nodes := v0.nodes[i := v0.nodes[i].(addrs := Cleared(v0.nodes[i].addrs, k))])
    && |v.used| == |v0.used|
    && forall b: nat {:trigger Gone(v0, i, k, j, b)} | b < |v0.used| :: v.used[b] == (v0.used[b] && !Gone(v0, i, k, j, b))
  }

  lemma CutNothing(v: Vol, i: nat)
    requires Own(v) && i < |v.nodes|
    ensures Cutting(v, v, i, 0, 0)
  {
  }

  /** The next block to free is still marked in use. */
  lemma StillUsed(v0: Vol, v: Vol, i: nat, k: nat, j: nat, s: Slot)
    requires Cutting(v0, v, i, k, j) && Ok(v0, s) && s.i == i && Ptr(v0, s) != 0
    requires (s.Addr? && s.k >= k) || (s.Ind? && s.k >= j)
    ensures v0.start <= Ptr(v0, s) < |v.used| && v.used[Ptr(v0, s)]
  {
    var b := Ptr(v0, s);
    if Gone(v0, i, k, j, b) {
      var t :| Doomed(t, i, k, j) && Ptr(v0, t) == b;
      assert Ok(v0, t);
    }
    assert !Gone(v0, i, k, j, b);
  }

  /** Freeing the block of inode word k and clearing the word (or finding the word clear). */
  lemma CutAddr(v0: Vol, v: Vol, i: nat, k: nat, j: nat, r: Vol)
    requires Cutting(v0, v, i, k, j) && k <= NDIRECT && v0.nodes[i].addrs[k] < |v.used|
    requires r == v.(used := if v0.nodes[i].addrs[k] == 0 then v.used else v.used[v0.nodes[i].addrs[k] := false],
                     nodes := v0.nodes[i := v0.nodes[i].(addrs := Cleared(v0.nodes[i].addrs, k + 1))])
    ensures Cutting(v0, r, i, k + 1, j)
  {
    var p := v0.nodes[i].addrs[k];
    assert Ptr(v0, Addr(i, k)) == p;
    forall b: nat | b < |v0.used| ensures r.used[b] == (v0.used[b] && !Gone(v0, i, k + 1, j, b)) {
      assert v.used[b] == (v0.used[b] && !Gone(v0, i, k, j, b));
      assert Gone(v0, i, k + 1, j, b) <==> Gone(v0, i, k, j, b) || (b != 0 && b == p) by {
        assert Doomed(Addr(i, k), i, k + 1, j);
        if Gone(v0, i, k, j, b) {
          var t :| Doomed(t, i, k, j) && Ptr(v0, t) == b;
          assert Doomed(t, i, k + 1, j);
        } else if Gone(v0, i, k + 1, j, b) {
          var t :| Doomed(t, i, k + 1, j) && Ptr(v0, t) == b;
          assert !Doomed(t, i, k, j);
          assert t == Addr(i, k);
        }
      }
    }
  }

  /** Freeing the block behind word j of the indirect block (or finding none). */
  lemma CutInd(v0: Vol, v: Vol, i: nat, k: nat, j: nat, r: Vol)
    requires Cutting(v0, v, i, k, j) && j < NINDIRECT && Ptr(v0, Ind(i, j)) < |v.used|
    requires r == v.(used := if Ptr(v0, Ind(i, j)) == 0 then v.used else v.used[Ptr(v0, Ind(i, j)) := false])
    ensures Cutting(v0, r, i, k, j + 1)
  {
    var p := Ptr(v0, Ind(i, j));
    forall b: nat | b < |v0.used| ensures r.used[b] == (v0.used[b] && !Gone(v0, i, k, j + 1, b)) {
      assert v.used[b] == (v0.used[b] && !Gone(v0, i, k, j, b));
      assert Gone(v0, i, k, j + 1, b) <==> Gone(v0, i, k, j, b) || (b != 0 && b == p) by {
        assert Doomed(Ind(i, j), i, k, j + 1);
        if Gone(v0, i, k, j, b) {
          var t :| Doomed(t, i, k, j) && Ptr(v0, t) == b;
          assert Doomed(t, i, k, j + 1);
        } else if Gone(v0, i, k, j + 1, b) {
          var t :| Doomed(t, i, k, j + 1) && Ptr(v0, t) == b;
          assert !Doomed(t, i, k, j);
          assert t == Ind(i, j);
        }
      }
    }
  }

  /** With no indirect block there is nothing to free behind it. */
  lemma CutNoIndirect(v0: Vol, v: Vol, i: nat)
    requires Cutting(v0, v, i, NDIRECT, 0) && v0.nodes[i].addrs[NDIRECT] == 0
    ensures Cutting(v0, v, i, NDIRECT + 1, NINDIRECT)
  {
    ZeroWords();
    assert Cleared(v0.nodes[i].addrs, NDIRECT + 1) == Cleared(v0.nodes[i].addrs, NDIRECT);
    assert Ptr(v0, Addr(i, NDIRECT)) == 0;
    forall b: nat | b < |v0.used| ensures v.used[b] == (v0.used[b] && !Gone(v0, i, NDIRECT + 1, NINDIRECT, b)) {
      assert v.used[b] == (v0.used[b] && !Gone(v0, i, NDIRECT, 0, b));
      if Gone(v0, i, NDIRECT, 0, b) {
        var t :| Doomed(t, i, NDIRECT, 0) && Ptr(v0, t) == b;
        assert Doomed(t, i, NDIRECT + 1, NINDIRECT);
      } else if Gone(v0, i, NDIRECT + 1, NINDIRECT, b) {
        var t :| Doomed(t, i, NDIRECT + 1, NINDIRECT) && Ptr(v0, t) == b;
      }
    }
  }

  /** Block b is in the tree of inode i, outside its doubly indirect part. */
  ghost predicate Released(v: Vol, i: nat, b: nat) {
    Gone(v, i, NDIRECT + 1, NINDIRECT, b)
  }

  /** What itrunc(i) makes of volume v: the tree of i is gone except for its doubly indirect part,
      exactly its blocks are free again, and nothing else changed. */
  ghost predicate Truncated(v: Vol, r: Vol, i: nat) {
    && Own(r) && i < |v.nodes| && |v.nodes[i].addrs| == NDIRECT + 2
    && r == v.(used := r.used, nodes := v.nodes[i := v.nodes[i].(size := 0, addrs := Cleared(v.nodes[i].addrs, NDIRECT + 1))])
    && |r.used| == |v.used|
    && (forall b: nat {:trigger Released(v, i, b)} | b < |v.used| :: r.used[b] == (v.used[b] && !Released(v, i, b)))
    && (forall t {:trigger Ptr(r, t)} | Ok(v, t) ::
          Ptr(r, t) == if Doomed(t, i, NDIRECT + 1, NINDIRECT) then 0 else Ptr(v, t))
    && (forall j: nat, k: nat {:trigger ByteAt(r, j, k)} | j < |v.nodes| && j != i && k < MAXBYTES ::
          ByteAt(r, j, k) == ByteAt(v, j, k))
  }

  lemma CutPtr(v0: Vol, r: Vol, i: nat, t: Slot)
    requires Own(v0) && i < |v0.nodes| && Ok(v0, t) && r.blocks == v0.blocks
    requires |r.nodes| == |v0.nodes| && r.nodes == v0.nodes[i := r.nodes[i]] && r.nodes[i].addrs == Cleared(v0.nodes[i].addrs, NDIRECT + 1)
    ensures Ptr(r, t) == if Doomed(t, i, NDIRECT + 1, NINDIRECT) then 0 else Ptr(v0, t)
    decreases if t.Addr? then 0 else if t.L2? then 2 else 1
  {
    ZeroWords();
    if !t.Addr? {
      assert Ok(v0, Up(t));
      CutPtr(v0, r, i, Up(t));
    }
  }

  lemma CutDone(v0: Vol, v: Vol, i: nat, r: Vol)
    requires Cutting(v0, v, i, NDIRECT + 1, NINDIRECT)
    requires r == v.(nodes := v.nodes[i := v.nodes[i].(size := 0)])
    ensures Truncated(v0, r, i)
  {
    forall t | Ok(v0, t) ensures Ptr(r, t) == if Doomed(t, i, NDIRECT + 1, NINDIRECT) then 0 else Ptr(v0, t) {
      CutPtr(v0, r, i, t);
    }
    forall s | Ok(r, s) && Ptr(r, s) != 0 ensures r.start <= Ptr(r, s) < |r.used| && r.used[Ptr(r, s)] {
      assert Ok(v0, s);
      NotGone(v0, i, s);
    }
    forall s, t | Ok(r, s) && Ok(r, t) && Ptr(r, s) != 0 && Ptr(r, s) == Ptr(r, t) ensures s == t {
      assert Ok(v0, s) && Ok(v0, t);
    }
    var k, j := NDIRECT + 1, NINDIRECT;
    assert Cutting(v0, v, i, k, j);
    forall b: nat | b < |v0.used| ensures r.used[b] == (v0.used[b] && !Released(v0, i, b)) {
      assert Released(v0, i, b) == Gone(v0, i, k, j, b);
    }
    forall b | 0 <= b < r.start ensures r.used[b] {
      MetaStays(v0, i, b);
    }
    forall j: nat, k: nat | j < |v0.nodes| && j != i && k < MAXBYTES ensures ByteAt(r, j, k) == ByteAt(v0, j, k) {
      assert Ok(v0, DataSlot(j, k / BSIZE));
    }
  }

  lemma NotGone(v: Vol, i: nat, s: Slot)
    requires Own(v) && Ok(v, s) && !Doomed(s, i, NDIRECT + 1, NINDIRECT) && i < |v.nodes|
    ensures !Released(v, i, Ptr(v, s))
  {
    forall t | Doomed(t, i, NDIRECT + 1, NINDIRECT) ensures Ptr(v, s) == 0 || Ptr(v, t) != Ptr(v, s) {
      assert Ok(v, t);
    }
  }

  lemma MetaStays(v: Vol, i: nat, b: nat)
    requires Own(v) && b < v.start && i < |v.nodes|
    ensures !Released(v, i, b)
  {
    forall t | Doomed(t, i, NDIRECT + 1, NINDIRECT) ensures Ptr(v, t) == 0 || Ptr(v, t) >= v.start {
      assert Ok(v, t);
    }
  }
}
