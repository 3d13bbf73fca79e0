/** When a walk along a path changes nothing and finds what the tree says. */
module Walks {
  import opened Blocks
  import opened Directory
  import opened Paths

  /** Letting inode i go frees nothing: someone has it, or something links to it. */
  ghost predicate Spares(s: seq<Islot>, nodes: seq<Node>, i: nat) {
    Left(s, nodes, i) == nodes
  }

  /** Every inode the walk meets has a type or is in memory, and every one it leaves is spared. */
  ghost predicate Calm(s: seq<Islot>, nodes: seq<Node>, i: nat, cs: seq<seq<Byte>>, parent: bool)
    decreases |cs|
  {
    |cs| > 0 ==>
      var n := NodeOf(nodes, i);
      var next := Lookup(n.es, cs[0]);
      && (n.kind != 0 || Loaded(s, i)) && (n.kind != T_DIR ==> Spares(s, nodes, i))
      && (n.kind == T_DIR && !(parent && |cs| == 1) ==>
            if next == 0 then Spares(s, nodes, i)
            else (next == i || Spares(s, nodes, i)) && Calm(s, nodes, next, cs[1..], parent))
  }

  /** The end of a walk that comes to inode i, or with 0 to none. */
  function Reaches(i: nat): (end: Trip) {
    if i == 0 then Nowhere else Found(i)
  }

  /** A calm walk changes nothing and ends where the components lead, unless the table is full on the way. */
  lemma {:induction false} CalmResolves(s: seq<Islot>, nodes: seq<Node>, i: nat, cs: seq<seq<Byte>>, parent: bool)
    requires Calm(s, nodes, i, cs, parent) && i != 0
    ensures var r := Follow(s, nodes, i, cs, parent);
      r.nodes == nodes && (r.end == Reaches(Resolve(nodes, i, cs, parent)) || (r.end.Stuck? && |Inodes(s) + {r.end.i}| >= NINODE))
    decreases |cs|
  {
    if |cs| > 0 && NodeOf(nodes, i).kind == T_DIR && !(parent && |cs| == 1) {
      var next := Lookup(NodeOf(nodes, i).es, cs[0]);
      if next != 0 { CalmResolves(s, nodes, next, cs[1..], parent); }
    }
  }

  /** The table has two slots to spare. */
  ghost predicate Roomy(s: seq<Islot>) {
    |Inodes(s)| + 1 < NINODE
  }

  lemma NoCrowd(s: seq<Islot>, i: nat)
    requires Roomy(s)
    ensures |Inodes(s) + {i}| < NINODE
  {
    if i in Inodes(s) { assert Inodes(s) + {i} == Inodes(s); }
  }

  /** An inode that was not spared is not what it was, whatever comes after. */
  lemma NotSpared(s: seq<Islot>, nodes: seq<Node>, i: nat, next: nat, cs: seq<seq<Byte>>, parent: bool)
    requires !Spares(s, nodes, i)
    ensures Follow(s, Left(s, nodes, i), next, cs, parent).nodes != nodes
  {
    var left := Left(s, nodes, i);
    Thins(s, left, next, cs, parent);
    var r := Follow(s, left, next, cs, parent).nodes;
    assert left[i] == Node(0, 0, []) != nodes[i];
    assert r[i] == left[i];
  }

  /** With slots to spare, a walk changes nothing and meets no free inode if and only if it is calm. */
  lemma {:induction false} CalmIff(s: seq<Islot>, nodes: seq<Node>, i: nat, cs: seq<seq<Byte>>, parent: bool)
    requires Roomy(s)
    ensures var r := Follow(s, nodes, i, cs, parent); Calm(s, nodes, i, cs, parent) <==> r.nodes == nodes && !r.end.Stuck?
    decreases |cs|
  {
    if |cs| > 0 && NodeOf(nodes, i).kind == T_DIR && !(parent && |cs| == 1) {
      var next := Lookup(NodeOf(nodes, i).es, cs[0]);
      NoCrowd(s, i);
      if next != 0 {
        if next == i || Spares(s, nodes, i) {
          CalmIff(s, nodes, next, cs[1..], parent);
        } else {
          NotSpared(s, nodes, i, next, cs[1..], parent);
        }
      }
    }
  }

  /** Every live entry of a directory names an inode that is allocated and linked. */
  ghost predicate Sane(nodes: seq<Node>) {
    forall d: nat, name {:trigger Lookup(nodes[d].es, name)} | d < |nodes| :: Named(nodes, Lookup(nodes[d].es, name))
  }

  predicate Named(nodes: seq<Node>, i: nat) {
    i != 0 ==> NodeOf(nodes, i).kind != 0 && NodeOf(nodes, i).nlink > 0
  }

  /** In a tree whose entries name live, linked inodes every walk from one that is live and held is calm. */
  lemma {:induction false} SaneCalm(s: seq<Islot>, nodes: seq<Node>, i: nat, cs: seq<seq<Byte>>, parent: bool)
    requires Sane(nodes) && NodeOf(nodes, i).kind != 0 && Spares(s, nodes, i)
    ensures Calm(s, nodes, i, cs, parent)
    decreases |cs|
  {
    if |cs| > 0 && NodeOf(nodes, i).kind == T_DIR {
      var next := Lookup(nodes[i].es, cs[0]);
      assert Named(nodes, next);
      if next != 0 { SaneCalm(s, nodes, next, cs[1..], parent); }
    }
  }

  /** The walk meets inode j and moves on from it, or fails there. */
  ghost predicate Leaves(s: seq<Islot>, nodes: seq<Node>, i: nat, cs: seq<seq<Byte>>, parent: bool, j: nat)
    decreases |cs|
  {
    |cs| > 0 && (NodeOf(nodes, i).kind != 0 || Loaded(s, i)) &&
      var next := Lookup(NodeOf(nodes, i).es, cs[0]);
      if NodeOf(nodes, i).kind != T_DIR then j == i
      else if parent && |cs| == 1 then false
      else if next == 0 then j == i
      else if Crowd(s, i, next) then false
      else (j == i && next != i) || Leaves(s, if next == i then nodes else Left(s, nodes, i), next, cs[1..], parent, j)
  }

  /** A walk frees exactly the inodes it leaves that nobody has and nothing links to, of whatever type. */
  lemma {:induction false} FreesExactly(s: seq<Islot>, nodes: seq<Node>, i: nat, cs: seq<seq<Byte>>, parent: bool, j: nat)
    ensures NodeOf(Follow(s, nodes, i, cs, parent).nodes, j) ==
      if Leaves(s, nodes, i, cs, parent, j) && Refs(s, j) == 0 && NodeOf(nodes, j).nlink == 0 then Node(0, 0, []) else NodeOf(nodes, j)
    decreases |cs|
  {
    if |cs| > 0 && NodeOf(nodes, i).kind == T_DIR && !(parent && |cs| == 1) {
      var next := Lookup(NodeOf(nodes, i).es, cs[0]);
      if next != 0 && !Crowd(s, i, next) {
        var left := if next == i then nodes else Left(s, nodes, i);
        FreesExactly(s, left, next, cs[1..], parent, j);
        LeftAt(s, nodes, i, j);
      }
    } else {
      LeftAt(s, nodes, i, j);
    }
  }

  lemma LeftAt(s: seq<Islot>, nodes: seq<Node>, i: nat, j: nat)
    ensures NodeOf(Left(s, nodes, i), j) ==
      if j == i && Refs(s, j) == 0 && NodeOf(nodes, j).nlink == 0 then Node(0, 0, []) else NodeOf(nodes, j)
  {
  }
}
