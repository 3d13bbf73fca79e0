/** Path walking: how namex splits a path and balances inode references. */
module Paths {
  import opened Blocks
  import opened Volume
  import opened Names
  import opened Directory

  const NINODE := 50
  const ROOTINO := 1

  /** How many of the first bytes of s are not slashes. */
  function Run(s: seq<Byte>): (k: nat)
    ensures k <= |s| && SLASH !in s[..k] && (k < |s| ==> s[k] == SLASH)
  {
    if |s| == 0 || s[0] == SLASH then 0
    else
      var k := 1 + Run(s[1..]);
      assert s[..k] == [s[0]] + s[1..][..k - 1];
      k
  }

  /** The nonempty components of a path, between slashes. */
  function Split(s: seq<Byte>): (cs: seq<seq<Byte>>)
    ensures forall c | c in cs :: 0 < |c| && SLASH !in c
    decreases |s|
  {
    if |s| == 0 then []
    else if s[0] == SLASH then Split(s[1..])
    else [s[..Run(s)]] + Split(s[Run(s)..])
  }

  function Slashes(n: nat): (s: seq<Byte>)
    ensures |s| == n && forall k | 0 <= k < n :: s[k] == SLASH
  {
    seq(n, _ => SLASH)
  }

  /** A path that spells components cs: gaps[i] slashes stand before component i, and tail after the last. */
  function Spell(cs: seq<seq<Byte>>, gaps: seq<nat>, tail: nat): (s: seq<Byte>)
    requires |gaps| == |cs|
  {
    if |cs| == 0 then Slashes(tail) else Slashes(gaps[0]) + cs[0] + Spell(cs[1..], gaps[1..], tail)
  }

  lemma {:induction false} SkipSlashes(n: nat, s: seq<Byte>)
    ensures Split(Slashes(n) + s) == Split(s)
  {
    var t := Slashes(n) + s;
    if n == 0 {
      assert t == s;
    } else {
      assert t[1..] == Slashes(n - 1) + s;
      SkipSlashes(n - 1, s);
    }
  }

  /** A component is read up to the slash that follows it. */
  lemma {:induction false} RunOf(c: seq<Byte>, s: seq<Byte>)
    requires SLASH !in c && (|s| == 0 || s[0] == SLASH)
    ensures Run(c + s) == |c|
  {
    if |c| == 0 {
      assert c + s == s;
    } else {
      assert (c + s)[1..] == c[1..] + s;
      RunOf(c[1..], s);
    }
  }

  lemma SplitFirst(c: seq<Byte>, rest: seq<Byte>)
    requires 0 < |c| && SLASH !in c && (|rest| == 0 || rest[0] == SLASH)
    ensures Split(c + rest) == [c] + Split(rest)
  {
    RunOf(c, rest);
    var p := c + rest;
    assert p[0] == c[0] && p[..|c|] == c && p[|c|..] == rest;
  }

  /** However many slashes a path has, it splits into the components it spells. */
  lemma {:induction false} SplitSpell(cs: seq<seq<Byte>>, gaps: seq<nat>, tail: nat)
    requires |gaps| == |cs| && forall c | c in cs :: 0 < |c| && SLASH !in c
    requires forall k | 0 < k < |gaps| :: 0 < gaps[k]
    ensures Split(Spell(cs, gaps, tail)) == cs
  {
    if |cs| == 0 {
      assert Slashes(tail) == Slashes(tail) + [];
      SkipSlashes(tail, []);
    } else {
      var rest := Spell(cs[1..], gaps[1..], tail);
      assert Spell(cs, gaps, tail) == Slashes(gaps[0]) + (cs[0] + rest);
      SkipSlashes(gaps[0], cs[0] + rest);
      assert cs[0] in cs && (|cs| > 1 ==> gaps[1..][0] == gaps[1]);
      SplitFirst(cs[0], rest);
      SplitSpell(cs[1..], gaps[1..], tail);
      assert cs == [cs[0]] + cs[1..];
    }
  }

  /** Leading slashes do not matter; a first component is what stands before the next slash. */
  lemma SplitAt(s: seq<Byte>, a: nat, b: nat)
    requires a < b <= |s| && (forall k | 0 <= k < a :: s[k] == SLASH)
    requires SLASH !in s[a..b] && (b < |s| ==> s[b] == SLASH)
    ensures Split(s) == [s[a..b]] + Split(s[b..])
  {
    Decompose(s, a, b);
    SkipSlashes(a, s[a..b] + s[b..]);
    SplitFirst(s[a..b], s[b..]);
  }

  lemma Decompose(s: seq<Byte>, a: nat, b: nat)
    requires a <= b <= |s| && forall k | 0 <= k < a :: s[k] == SLASH
    ensures s == Slashes(a) + (s[a..b] + s[b..])
  {
  }

  function Min(a: nat, b: nat): (m: nat) { if a < b then a else b }

  /** The component stands at a..b, and c is the next byte after the slashes behind it. */
  lemma Skipped(s: seq<Byte>, a: nat, b: nat, c: nat)
    requires a < b <= c <= |s| && (forall k | 0 <= k < a :: s[k] == SLASH) && SLASH !in s[a..b]
    requires (forall k | b <= k < c :: s[k] == SLASH) && (c < |s| ==> s[c] != SLASH)
    requires b == c ==> c == |s|
    ensures Split(s) == [s[a..b]] + Split(s[c..]) && (c == |s| <==> Split(s[c..]) == [])
  {
    SplitAt(s, a, b);
    SlashesAt(s, b, c);
    SkipSlashes(c - b, s[c..]);
  }

  lemma SlashesAt(s: seq<Byte>, b: nat, c: nat)
    requires b <= c <= |s| && forall k | b <= k < c :: s[k] == SLASH
    ensures s[b..] == Slashes(c - b) + s[c..]
  {
  }

  /** The name field skipelem fills: DIRSIZ bytes at most, terminated if shorter. */
  function Field(c: seq<Byte>): (f: seq<Byte>) {
    if |c| >= DIRSIZ then c[..DIRSIZ] else c + [0]
  }

  lemma FieldKey(c: seq<Byte>)
    requires 0 !in c
    ensures Key(Field(c)) == Key(c) == c[..Min(DIRSIZ, |c|)]
  {
    var len := Min(DIRSIZ, |c|);
    assert Field(c)[..len] == c[..len];
    CutIs(Field(c), DIRSIZ, len);
    CutIs(c, DIRSIZ, len);
  }

  /** skipelem: the rest of the path after its first component, with no leading slashes, and that
      component in the name field; none when the path has no component. */
  method Skipelem(path: seq<Byte>) returns (none: bool, rest: seq<Byte>, name: seq<Byte>)
    requires 0 !in path
    ensures none <==> Split(path) == []
    ensures !none ==> |rest| < |path| && 0 !in rest && Split(path) == [Split(path)[0]] + Split(rest)
    ensures !none ==> (rest == [] <==> Split(rest) == [])
    ensures !none ==> Key(name) == Key(Split(path)[0]) == Split(path)[0][..Min(DIRSIZ, |Split(path)[0]|)]
  {
    var a := SkipWhile(path, 0, true);
    if a == |path| {
      assert path == Slashes(a) + [];
      SkipSlashes(a, []);
      return true, [], [];
    }
    var b := SkipWhile(path, a, false);
    name := Field(path[a..b]);
    FieldKey(path[a..b]);
    var c := SkipWhile(path, b, true);
    Skipped(path, a, b, c);
    return false, path[c..], name;
  }

  /** The first position from a on where path ends or stops (not) being slashes. */
  method SkipWhile(path: seq<Byte>, a: nat, slash: bool) returns (b: nat)
    requires a <= |path|
    ensures a <= b <= |path| && (b < |path| ==> (path[b] == SLASH) != slash)
    ensures forall k | a <= k < b :: (path[k] == SLASH) == slash
  {
    b := a;
    while b < |path| && (path[b] == SLASH) == slash
      invariant a <= b <= |path| && forall k | a <= k < b :: (path[k] == SLASH) == slash
    {
      b := b + 1;
    }
  }

  /** An inode as path walking sees it. */
  datatype Node = Node(kind: Short, nlink: Short, es: seq<Dirent>)

  /** A slot of the in-memory inode table. */
  datatype Islot = Islot(inum: nat, ref: nat, valid: bool)

  function NodeOf(nodes: seq<Node>, i: nat): (n: Node) {
    if i < |nodes| then nodes[i] else Node(0, 0, [])
  }

  /** The references held on inode i, over the whole table. */
  function Refs(slots: seq<Islot>, i: nat): (n: nat) {
    if |slots| == 0 then 0
    else (if slots[0].inum == i then slots[0].ref else 0) + Refs(slots[1..], i)
  }

  function Part(s: Islot, i: nat): (n: nat) { if s.inum == i then s.ref else 0 }

  lemma {:induction false} RefsUpdate(slots: seq<Islot>, k: nat, s: Islot, i: nat)
    requires k < |slots|
    ensures Refs(slots[k := s], i) + Part(slots[k], i) == Refs(slots, i) + Part(s, i)
  {
    if k == 0 {
      assert slots[k := s][1..] == slots[1..];
    } else {
      assert slots[k := s][1..] == slots[1..][k - 1 := s];
      RefsUpdate(slots[1..], k - 1, s, i);
    }
  }

  /** At most one slot in use stands for an inode. */
  predicate Unique(slots: seq<Islot>) {
    forall a, b | 0 <= a < b < |slots| && slots[a].ref > 0 && slots[b].ref > 0 :: slots[a].inum != slots[b].inum
  }

  lemma {:induction false} RefsOne(slots: seq<Islot>, k: nat)
    requires Unique(slots) && k < |slots| && slots[k].ref > 0
    ensures Refs(slots, slots[k].inum) == slots[k].ref
  {
    var i, t := slots[k].inum, slots[1..];
    if k == 0 {
      RefsNone(t, i);
    } else {
      assert Unique(t) by {
        forall a, b | 0 <= a < b < |t| && t[a].ref > 0 && t[b].ref > 0 ensures t[a].inum != t[b].inum {
          assert slots[a + 1].inum != slots[b + 1].inum;
        }
      }
      RefsOne(t, k - 1);
    }
  }

  lemma {:induction false} RefsNone(slots: seq<Islot>, i: nat)
    requires forall k | 0 <= k < |slots| && slots[k].ref > 0 :: slots[k].inum != i
    ensures Refs(slots, i) == 0
  {
    if |slots| > 0 { RefsNone(slots[1..], i); }
  }

  /** r holds the references of s and one more on inode i. */
  ghost predicate OneMore(s: seq<Islot>, r: seq<Islot>, i: nat) {
    forall j {:trigger Refs(r, j)} :: Refs(r, j) == Refs(s, j) + if j == i then 1 else 0
  }

  ghost predicate SameRefs(s: seq<Islot>, r: seq<Islot>) {
    forall j {:trigger Refs(r, j)} :: Refs(r, j) == Refs(s, j)
  }

  lemma GiveBack(s: seq<Islot>, a: seq<Islot>, b: seq<Islot>, i: nat)
    requires OneMore(s, a, i) && OneMore(b, a, i)
    ensures SameRefs(s, b)
  {
    forall j ensures Refs(b, j) == Refs(s, j) {
      assert Refs(a, j) == Refs(s, j) + if j == i then 1 else 0;
    }
  }

  lemma MoveOn(s: seq<Islot>, a: seq<Islot>, b: seq<Islot>, c: seq<Islot>, i: nat, j: nat)
    requires OneMore(s, a, i) && OneMore(a, b, j) && OneMore(c, b, i)
    ensures OneMore(s, c, j)
  {
    forall n ensures Refs(c, n) == Refs(s, n) + if n == j then 1 else 0 {
      assert Refs(b, n) == Refs(a, n) + if n == j then 1 else 0;
      assert Refs(a, n) == Refs(s, n) + if n == i then 1 else 0;
    }
  }

  /** The inode a list of components leads to from inode ip, or with parent the directory that the
      last of them is to be found in; 0 if there is none. */
  ghost function Resolve(nodes: seq<Node>, ip: nat, cs: seq<seq<Byte>>, parent: bool): (r: nat)
    decreases |cs|
  {
    if |cs| == 0 then (if parent then 0 else ip)
    else if NodeOf(nodes, ip).kind != T_DIR then 0
    else if parent && |cs| == 1 then ip
    else
      var next := Lookup(NodeOf(nodes, ip).es, cs[0]);
      if next == 0 then 0 else Resolve(nodes, next, cs[1..], parent)
  }

  /** Resolving a path is looking up its last component in the directory nameiparent finds. */
  lemma {:induction false} ParentThenLookup(nodes: seq<Node>, ip: nat, cs: seq<seq<Byte>>)
    requires |cs| > 0 && ip != 0
    ensures var d := Resolve(nodes, ip, cs, true);
      Resolve(nodes, ip, cs, false) == if d == 0 then 0 else Lookup(NodeOf(nodes, d).es, cs[|cs| - 1])
    ensures var d := Resolve(nodes, ip, cs, true); d != 0 ==> NodeOf(nodes, d).kind == T_DIR
    decreases |cs|
  {
    var n := NodeOf(nodes, ip);
    if |cs| > 1 && n.kind == T_DIR && Lookup(n.es, cs[0]) != 0 {
      ParentThenLookup(nodes, Lookup(n.es, cs[0]), cs[1..]);
      assert cs[1..][|cs| - 2] == cs[|cs| - 1];
    }
  }

  /** How a turn of the walk ends. */
  datatype Step = Panic | End | Fail | Stop | Go

  /** Slot k is held by the walk, beside the references of s. */
  ghost predicate Holds(s: seq<Islot>, slots: seq<Islot>, k: nat) {
    && |slots| == NINODE && Unique(slots)
    && k < NINODE && slots[k].ref > 0 && OneMore(s, slots, slots[k].inum)
  }

  /** Only unlinked inodes were freed. */
  ghost predicate Thinned(a: seq<Node>, b: seq<Node>) {
    |a| == |b| && forall j {:trigger b[j]} | 0 <= j < |a| :: b[j] == a[j] || (a[j].nlink == 0 && b[j] == Node(0, 0, []))
  }

  /** All slots are taken, none by inode inum. */
  predicate Crowded(slots: seq<Islot>, inum: nat) {
    forall j | 0 <= j < |slots| :: slots[j].ref > 0 && slots[j].inum != inum
  }

  predicate Full(slots: seq<Islot>) {
    forall j | 0 <= j < |slots| :: slots[j].ref > 0
  }

  /** The inodes that have a slot. */
  ghost function Inodes(slots: seq<Islot>): (t: set<nat>) {
    set j | 0 <= j < |slots| && slots[j].ref > 0 :: slots[j].inum
  }

  lemma {:induction false} RefsSome(slots: seq<Islot>, j: nat)
    requires j < |slots| && slots[j].ref > 0
    ensures Refs(slots, slots[j].inum) >= slots[j].ref
  {
    if j > 0 { RefsSome(slots[1..], j - 1); }
  }

  lemma InodesHave(slots: seq<Islot>, i: nat)
    ensures i in Inodes(slots) <==> Refs(slots, i) > 0
  {
    if j: nat :| j < |slots| && slots[j].ref > 0 && slots[j].inum == i {
      RefsSome(slots, j);
    } else {
      RefsNone(slots, i);
    }
  }

  /** A table is full when it has a slot for as many inodes as there are slots. */
  lemma {:induction false} FullIff(slots: seq<Islot>)
    requires Unique(slots)
    ensures |Inodes(slots)| <= |slots| && (Full(slots) <==> |Inodes(slots)| == |slots|)
  {
    if |slots| > 0 {
      var t := slots[1..];
      assert Unique(t) by {
        forall a, b | 0 <= a < b < |t| && t[a].ref > 0 && t[b].ref > 0 ensures t[a].inum != t[b].inum {
          assert slots[a + 1].inum != slots[b + 1].inum;
        }
      }
      FullIff(t);
      InodesFirst(slots);
      assert Full(slots) <==> slots[0].ref > 0 && Full(t) by {
        forall j | 0 <= j < |t| ensures t[j] == slots[j + 1] { }
      }
    }
  }

  lemma InodesFirst(slots: seq<Islot>)
    requires |slots| > 0 && Unique(slots)
    ensures |Inodes(slots)| == |Inodes(slots[1..])| + if slots[0].ref > 0 then 1 else 0
  {
    var t, x := Inodes(slots[1..]), slots[0].inum;
    forall i ensures i in Inodes(slots) <==> i in t || (slots[0].ref > 0 && i == x) {
      InodesHave(slots, i);
      InodesHave(slots[1..], i);
    }
    if slots[0].ref > 0 {
      assert x !in t;
      assert Inodes(slots) == t + {x};
    } else {
      assert Inodes(slots) == t;
    }
  }

  /** With inode i in hand beside the references s, there is no slot for inode next. */
  ghost predicate Crowd(s: seq<Islot>, i: nat, next: nat) {
    next !in Inodes(s) + {i} && |Inodes(s) + {i}| >= NINODE
  }

  lemma CrowdIs(s: seq<Islot>, slots: seq<Islot>, k: nat, next: nat)
    requires Holds(s, slots, k)
    ensures Crowded(slots, next) <==> Crowd(s, slots[k].inum, next)
  {
    var t := Inodes(s) + {slots[k].inum};
    forall i ensures i in Inodes(slots) <==> i in t {
      InodesHave(slots, i);
      InodesHave(s, i);
      assert Refs(slots, i) == Refs(s, i) + if i == slots[k].inum then 1 else 0;
    }
    assert Inodes(slots) == t;
    FullIff(slots);
  }

  /** Someone has inode i in memory. */
  ghost predicate Loaded(s: seq<Islot>, i: nat) {
    exists j: nat :: j < |s| && s[j].ref > 0 && s[j].inum == i && s[j].valid
  }

  /** Where a walk ends: in a panic with inode i in hand, nowhere, or at inode i. */
  datatype Trip = Stuck(i: nat) | Nowhere | Found(i: nat)

  /** And what it leaves on disk. */
  datatype Journey = Journey(end: Trip, nodes: seq<Node>)

  /** The inodes after the walk lets the locked inode i go: nobody has it, and no name. */
  ghost function Left(s: seq<Islot>, nodes: seq<Node>, i: nat): (r: seq<Node>) {
    if Refs(s, i) == 0 && i < |nodes| && nodes[i].nlink == 0 then nodes[i := Node(0, 0, [])] else nodes
  }

  /** Where components cs lead from inode i, beside the references s, in whatever tree: inodes that nobody has
      and nothing links to are freed as they are left, one that is free on disk and not in memory is a panic,
      and so is one that finds no slot. */
  ghost function Follow(s: seq<Islot>, nodes: seq<Node>, i: nat, cs: seq<seq<Byte>>, parent: bool): (r: Journey)
    decreases |cs|
  {
    if |cs| == 0 then Journey(if parent then Nowhere else Found(i), nodes)
    else if NodeOf(nodes, i).kind == 0 && !Loaded(s, i) then Journey(Stuck(i), nodes)
    else if NodeOf(nodes, i).kind != T_DIR then Journey(Nowhere, Left(s, nodes, i))
    else if parent && |cs| == 1 then Journey(Found(i), nodes)
    else
      var next := Lookup(NodeOf(nodes, i).es, cs[0]);
      if next == 0 then Journey(Nowhere, Left(s, nodes, i))
      else if Crowd(s, i, next) then Journey(Stuck(i), nodes)
      else Follow(s, if next == i then nodes else Left(s, nodes, i), next, cs[1..], parent)
  }

  /** The slots of s are still what they were, and a slot that is in memory has a type or was so in s. */
  ghost predicate Fair(s: seq<Islot>, slots: seq<Islot>, nodes: seq<Node>) {
    && |s| == |slots|
    && (forall j: nat {:trigger slots[j]} | j < |s| && s[j].ref > 0 ::
          slots[j].ref > 0 && slots[j].inum == s[j].inum && (s[j].valid ==> slots[j].valid))
    && forall j: nat {:trigger slots[j]} | j < |slots| && slots[j].ref > 0 && slots[j].valid ::
         NodeOf(nodes, slots[j].inum).kind != 0 || Loaded(s, slots[j].inum)
  }

  /** Letting slot k go now frees no inode. */
  ghost predicate Quiet(s: seq<Islot>, slots: seq<Islot>, k: nat) {
    k < |slots| && (Refs(s, slots[k].inum) > 0 || !slots[k].valid)
  }

  /** How a walk with components cs to go stands to the journey it is on. */
  ghost predicate OnWay(s: seq<Islot>, nodes: seq<Node>, slots: seq<Islot>, st: Step, k: nat, cs: seq<seq<Byte>>, parent: bool, goal: Journey) {
    match st
    case Panic => Holds(s, slots, k) && goal == Journey(Stuck(slots[k].inum), nodes)
    case Fail => SameRefs(s, slots) && goal == Journey(Nowhere, nodes)
    case Stop => Holds(s, slots, k) && goal == Journey(Found(slots[k].inum), nodes)
    case End => Holds(s, slots, k) && (parent ==> Quiet(s, slots, k)) && goal == Journey(if parent then Nowhere else Found(slots[k].inum), nodes)
    case Go => Holds(s, slots, k) && Fair(s, slots, nodes) && (parent && cs == [] ==> Quiet(s, slots, k))
               && goal == Follow(s, nodes, slots[k].inum, cs, parent)
  }

  /** Whether ilock of slot k panics can be told from the references the walk began with. */
  lemma LockPanics(s: seq<Islot>, slots: seq<Islot>, nodes: seq<Node>, k: nat)
    requires Holds(s, slots, k) && Fair(s, slots, nodes) && NodeOf(nodes, slots[k].inum).kind == 0
    ensures slots[k].valid <==> Loaded(s, slots[k].inum)
  {
    if j: nat :| j < |s| && s[j].ref > 0 && s[j].inum == slots[k].inum && s[j].valid {
      assert slots[j].inum == slots[k].inum;
    }
  }

  class Itable {
    var slots: seq<Islot>
    var nodes: seq<Node>

    predicate Valid()
      reads this
    {
      |slots| == NINODE && Unique(slots)
    }

    /** iinit: no slot is in use. */
    constructor (nodes: seq<Node>)
      ensures Valid() && this.nodes == nodes && forall i: nat :: Refs(slots, i) == 0
    {
      this.nodes := nodes;
      slots := seq(NINODE, _ => Islot(0, 0, false));
      new;
      forall i: nat ensures Refs(slots, i) == 0 {
        RefsNone(slots, i);
      }
    }

    /** A reference to inode inum: slot k, found or newly taken. Panics when the table is full. */
    method Iget(inum: nat) returns (panic: bool, k: nat)
      requires Valid()
      modifies this`slots
      ensures Valid()
      ensures panic <==> Crowded(old(slots), inum)
      ensures panic ==> slots == old(slots)
      ensures !panic ==> k < NINODE && slots[k].inum == inum && slots[k].ref == old(slots)[k].ref + 1
      ensures !panic ==> OneMore(old(slots), slots, inum) && (old(slots)[k].ref > 0 ==> old(slots)[k].inum == inum)
      ensures !panic ==> forall j | 0 <= j < NINODE && j != k :: slots[j] == old(slots)[j]
      ensures !panic ==> (slots[k].valid <==> old(slots)[k].ref > 0 && old(slots)[k].valid)
    {
      var empty: nat := NINODE;
      k := 0;
      while k < NINODE
        invariant k <= NINODE && slots == old(slots)
        invariant empty == NINODE || (empty < k && slots[empty].ref == 0)
        invariant forall j | 0 <= j < k :: slots[j].ref == 0 || slots[j].inum != inum
        invariant empty == NINODE ==> forall j | 0 <= j < k :: slots[j].ref > 0
      {
        if slots[k].ref > 0 && slots[k].inum == inum {
          Bump(k, slots[k].(ref := slots[k].ref + 1), inum);
          slots := slots[k := slots[k].(ref := slots[k].ref + 1)];
          return false, k;
        }
        if empty == NINODE && slots[k].ref == 0 {
          empty := k;
        }
        k := k + 1;
      }
      if empty == NINODE {
        return true, 0;
      }
      k := empty;
      Bump(k, Islot(inum, 1, false), inum);
      slots := slots[k := Islot(inum, 1, false)];
      panic := false;
    }

    lemma Bump(k: nat, s: Islot, inum: nat)
      requires k < |slots| && s.inum == inum && s.ref == slots[k].ref + 1
      requires slots[k].ref > 0 ==> slots[k].inum == inum
      ensures OneMore(slots, slots[k := s], inum)
    {
      forall j ensures Refs(slots[k := s], j) == Refs(slots, j) + if j == inum then 1 else 0 {
        RefsUpdate(slots, k, s, j);
      }
    }

    method Idup(k: nat)
      requires Valid() && k < NINODE && slots[k].ref > 0
      modifies this`slots
      ensures Valid() && OneMore(old(slots), slots, slots[k].inum) && slots[k].ref > 0
      ensures slots == old(slots)[k := old(slots)[k].(ref := old(slots)[k].ref + 1)]
    {
      Bump(k, slots[k].(ref := slots[k].ref + 1), slots[k].inum);
      slots := slots[k := slots[k].(ref := slots[k].ref + 1)];
    }

    /** Load the inode of slot k if it is not in memory. Panics if it is free on disk. */
    method Ilock(k: nat) returns (panic: bool)
      requires Valid() && k < NINODE && slots[k].ref > 0
      modifies this`slots
      ensures Valid() && SameRefs(old(slots), slots)
      ensures slots == old(slots)[k := slots[k]] && slots[k] == old(slots)[k].(valid := true)
      ensures panic <==> !old(slots)[k].valid && NodeOf(nodes, slots[k].inum).kind == 0
    {
      panic := !slots[k].valid && NodeOf(nodes, slots[k].inum).kind == 0;
      forall j ensures Refs(slots[k := slots[k].(valid := true)], j) == Refs(slots, j) {
        RefsUpdate(slots, k, slots[k].(valid := true), j);
      }
      slots := slots[k := slots[k].(valid := true)];
    }

    /** Give a reference back; the last reference to an unlinked inode frees it. */
    method Iput(k: nat)
      requires Valid() && k < NINODE && slots[k].ref > 0
      modifies this
      ensures Valid() && OneMore(slots, old(slots), old(slots)[k].inum)
      ensures slots == old(slots)[k := slots[k]] && slots[k].ref == old(slots)[k].ref - 1
      ensures slots[k].inum == old(slots)[k].inum
      ensures old(slots)[k].ref == 1 && old(slots)[k].valid && NodeOf(old(nodes), slots[k].inum).nlink == 0 ==>
        && !slots[k].valid && NodeOf(nodes, slots[k].inum) == Node(0, 0, [])
        && |nodes| == |old(nodes)| && forall j | 0 <= j < |nodes| && j != slots[k].inum :: nodes[j] == old(nodes)[j]
      ensures !(old(slots)[k].ref == 1 && old(slots)[k].valid && NodeOf(old(nodes), slots[k].inum).nlink == 0) ==>
        slots[k].valid == old(slots)[k].valid && nodes == old(nodes)
    {
      var s, n := slots[k], NodeOf(nodes, slots[k].inum);
      if s.ref == 1 && s.valid && n.nlink == 0 {
        if s.inum < |nodes| {
          nodes := nodes[s.inum := Node(0, 0, [])];
        }
        s := s.(valid := false);
      }
      s := s.(ref := s.ref - 1);
      forall j ensures Refs(slots, j) == Refs(slots[k := s], j) + if j == s.inum then 1 else 0 {
        RefsUpdate(slots, k, s, j);
      }
      slots := slots[k := s];
    }

    /** The locked slot k is given back: what is left of the references, the slots and the inodes. */
    method Release(k: nat, ghost s0: seq<Islot>, ghost i: nat, ghost again: bool)
      requires Valid() && k < NINODE && slots[k].ref > 0 && slots[k].inum == i && slots[k].valid && Fair(s0, slots, nodes)
      requires Refs(slots, i) == Refs(s0, i) + (if again then 2 else 1)
      modifies this
      ensures Valid() && OneMore(slots, old(slots), i) && Fair(s0, slots, nodes)
      ensures nodes == if again then old(nodes) else Left(s0, old(nodes), i)
      ensures slots == old(slots)[k := slots[k]] && slots[k].inum == i && slots[k].ref == old(slots)[k].ref - 1
    {
      RefsOne(slots, k);
      if s0[k].ref > 0 { RefsSome(s0, k); }
      Iput(k);
    }

    /** One turn of the walk: look name up in the directory of slot k and move on to what it names. */
    method Descend(k: nat, name: seq<Byte>, ghost s0: seq<Islot>) returns (panic: bool, none: bool, k': nat)
      requires Holds(s0, slots, k) && Fair(s0, slots, nodes) && slots[k].valid
      modifies this
      ensures Valid()
      ensures var i, next := old(slots)[k].inum, Lookup(NodeOf(old(nodes), old(slots)[k].inum).es, name);
        && (panic <==> next != 0 && Crowd(s0, i, next)) && (none <==> next == 0)
        && (panic ==> slots == old(slots) && nodes == old(nodes) && k' == k)
        && (none ==> SameRefs(s0, slots) && nodes == Left(s0, old(nodes), i))
        && (!panic && !none ==> Holds(s0, slots, k') && Fair(s0, slots, nodes) && slots[k'].inum == next
                                && nodes == if next == i then old(nodes) else Left(s0, old(nodes), i))
    {
      ghost var a, i := slots, slots[k].inum;
      var next := Lookup(NodeOf(nodes, slots[k].inum).es, name);
      assert Refs(slots, i) == Refs(s0, i) + 1;
      if next == 0 {
        Release(k, s0, i, false);
        GiveBack(s0, a, slots, i);
        return false, true, k;
      }
      CrowdIs(s0, slots, k, next);
      panic, k' := Iget(next);
      none := false;
      if panic {
        k' := k;
      } else {
        ghost var b := slots;
        assert Refs(b, i) == Refs(a, i) + if next == i then 1 else 0;
        Release(k, s0, i, next == i);
        MoveOn(s0, a, b, slots, i, next);
      }
    }

    /** One turn of namex's loop with slot k in hand. */
    method Turn(k: nat, path: seq<Byte>, parent: bool, ghost s0: seq<Islot>, ghost goal: Journey)
      returns (st: Step, k': nat, rest: seq<Byte>, name: seq<Byte>)
      requires 0 !in path && OnWay(s0, nodes, slots, Go, k, Split(path), parent, goal)
      modifies this
      ensures Valid() && (st.Go? || st.Stop? ==> |rest| < |path| && 0 !in rest)
      ensures st.Go? || st.Stop? ==> Split(path) != [] && Split(path) == [Split(path)[0]] + Split(rest)
      ensures st.Stop? ==> parent && rest == [] && Key(name) == Key(Split(path)[0])
      ensures OnWay(s0, nodes, slots, st, k', Split(rest), parent, goal)
    {
      var end;
      end, rest, name := Skipelem(path);
      if end {
        return End, k, rest, name;
      }
      if NodeOf(nodes, slots[k].inum).kind == 0 { LockPanics(s0, slots, nodes, k); }
      var panic := Ilock(k);
      Relock(s0, old(slots), slots, slots[k].inum);
      if panic {
        return Panic, k, rest, name;
      }
      if NodeOf(nodes, slots[k].inum).kind != T_DIR {
        PutBack(k, s0);
        return Fail, k, rest, name;
      }
      if parent && rest == [] {
        return Stop, k, rest, name;
      }
      ghost var i, next := slots[k].inum, Lookup(NodeOf(nodes, slots[k].inum).es, name);
      SameKey(NodeOf(nodes, i).es, name, Split(path)[0]);
      assert Split(path)[1..] == Split(rest);
      var none;
      panic, none, k' := Descend(k, name, s0);
      st := if panic then Panic else if none then Fail else Go;
    }

    /** Where a walk begins: the root, or the current directory. */
    method Begin(path: seq<Byte>, cwd: nat) returns (panic: bool, k: nat)
      requires Valid() && cwd < NINODE && slots[cwd].ref > 0
      modifies this`slots
      ensures Valid() && (panic <==> At(path, 0) == SLASH && Crowded(old(slots), ROOTINO)) && (panic ==> slots == old(slots))
      ensures !panic ==> Holds(old(slots), slots, k) && Quiet(old(slots), slots, k)
      ensures !panic ==> forall j: nat {:trigger slots[j]} | j < NINODE && j != k :: slots[j] == old(slots)[j]
      ensures !panic ==> (slots[k].valid <==> old(slots)[k].ref > 0 && old(slots)[k].valid)
      ensures !panic && old(slots)[k].ref > 0 ==> slots[k].inum == old(slots)[k].inum
      ensures !panic ==> slots[k].inum == if At(path, 0) == SLASH then ROOTINO else old(slots)[cwd].inum
    {
      if At(path, 0) == SLASH {
        panic, k := Iget(ROOTINO);
      } else {
        Idup(cwd);
        panic, k := false, cwd;
      }
      if !panic && old(slots)[k].ref > 0 { RefsSome(old(slots), k); }
    }

    /** namex's loop, from slot k to the end of the path. */
    method Walk(k: nat, path: seq<Byte>, parent: bool, ghost s0: seq<Islot>, ghost goal: Journey) returns (st: Step, k': nat, name: seq<Byte>)
      requires 0 !in path && OnWay(s0, nodes, slots, Go, k, Split(path), parent, goal)
      modifies this
      ensures Valid() && !st.Go? && OnWay(s0, nodes, slots, st, k', [], parent, goal)
      ensures st.Stop? ==> parent && Split(path) != [] && Key(name) == Key(Split(path)[|Split(path)| - 1])
    {
      ghost var all := Split(path);
      k', st, name := k, Go, [];
      var rest := path;
      while st.Go?
        invariant Valid() && OnWay(s0, nodes, slots, st, k', Split(rest), parent, goal)
        invariant st.Go? ==> 0 !in rest && Tail(Split(rest), all)
        invariant st.Stop? ==> parent && all != [] && Key(name) == Key(all[|all| - 1])
        decreases st.Go?, |rest|
      {
        ghost var cs := Split(rest);
        st, k', rest, name := Turn(k', rest, parent, s0, goal);
        if st.Go? || st.Stop? { TailStep(cs, Split(rest), all); }
      }
    }

    /** The inode a path names, or with parent the directory its last component belongs in. It comes
        with exactly one new reference; when there is none, no reference is left behind. */
    method Namex(path: seq<Byte>, parent: bool, cwd: nat) returns (panic: bool, none: bool, k: nat, name: seq<Byte>)
      requires Valid() && 0 !in path && cwd < NINODE && slots[cwd].ref > 0
      modifies this
      ensures Valid() && Thinned(old(nodes), nodes)
      ensures At(path, 0) == SLASH && Crowded(old(slots), ROOTINO) ==> panic && slots == old(slots) && nodes == old(nodes)
      ensures !(At(path, 0) == SLASH && Crowded(old(slots), ROOTINO)) ==>
        Arrives(old(slots), slots, panic, none, k, nodes,
          Follow(old(slots), old(nodes), if At(path, 0) == SLASH then ROOTINO else old(slots)[cwd].inum, Split(path), parent))
      ensures !panic && !none && parent ==> Split(path) != [] && Key(name) == Key(Split(path)[|Split(path)| - 1])
    {
      ghost var s0, i := slots, if At(path, 0) == SLASH then ROOTINO else slots[cwd].inum;
      none, name := false, [];
      panic, k := Begin(path, cwd);
      if panic {
        return;
      }
      ghost var goal := Follow(s0, nodes, i, Split(path), parent);
      Thins(s0, nodes, i, Split(path), parent);
      var st;
      st, k, name := Walk(k, path, parent, s0, goal);
      if st.Panic? || st.Fail? {
        return st.Panic?, st.Fail?, k, name;
      }
      if st.End? && parent {
        PutBack(k, s0);
        none := true;
      }
    }

    /** The walk fails: its one reference goes back. */
    method PutBack(k: nat, ghost s0: seq<Islot>)
      requires Holds(s0, slots, k)
      modifies this
      ensures Valid() && SameRefs(s0, slots)
      ensures nodes == if old(slots)[k].valid then Left(s0, old(nodes), old(slots)[k].inum) else old(nodes)
    {
      ghost var i := slots[k].inum;
      assert Refs(slots, i) == Refs(s0, i) + 1;
      RefsOne(slots, k);
      Iput(k);
      GiveBack(s0, old(slots), slots, i);
    }
  }

  /** namex came back from a journey: with a reference more where it ended, or none where there is nothing. */
  ghost predicate Arrives(s: seq<Islot>, slots: seq<Islot>, panic: bool, none: bool, k: nat, nodes: seq<Node>, goal: Journey) {
    && nodes == goal.nodes && (panic <==> goal.end.Stuck?) && (!panic ==> (none <==> goal.end.Nowhere?))
    && (if !panic && none then SameRefs(s, slots) else Holds(s, slots, k))
    && (goal.end.Stuck? || goal.end.Found? ==> k < |slots| && slots[k].inum == goal.end.i)
  }

  /** A walk frees unlinked inodes only. */
  lemma {:induction false} Thins(s: seq<Islot>, nodes: seq<Node>, i: nat, cs: seq<seq<Byte>>, parent: bool)
    ensures Thinned(nodes, Follow(s, nodes, i, cs, parent).nodes)
    decreases |cs|
  {
    if |cs| > 0 && NodeOf(nodes, i).kind == T_DIR {
      var next := Lookup(NodeOf(nodes, i).es, cs[0]);
      Thins(s, nodes, next, cs[1..], parent);
      Thins(s, Left(s, nodes, i), next, cs[1..], parent);
      ThinnedTrans(nodes, Left(s, nodes, i), Follow(s, Left(s, nodes, i), next, cs[1..], parent).nodes);
    }
  }

  lemma ThinnedTrans(a: seq<Node>, b: seq<Node>, c: seq<Node>)
    requires Thinned(a, b) && Thinned(b, c)
    ensures Thinned(a, c)
  {
    forall j | 0 <= j < |a| ensures c[j] == a[j] || (a[j].nlink == 0 && c[j] == Node(0, 0, [])) {
      assert b[j] == a[j] || (a[j].nlink == 0 && b[j] == Node(0, 0, []));
    }
  }

  lemma SameKey(es: seq<Dirent>, a: seq<Byte>, b: seq<Byte>)
    requires Key(a) == Key(b)
    ensures Lookup(es, a) == Lookup(es, b)
  {
  }

  /** cs are the last components of all. */
  ghost predicate Tail(cs: seq<seq<Byte>>, all: seq<seq<Byte>>) {
    |cs| <= |all| && cs == all[|all| - |cs|..]
  }

  lemma TailStep(cs: seq<seq<Byte>>, rest: seq<seq<Byte>>, all: seq<seq<Byte>>)
    requires Tail(cs, all) && |cs| > 0 && cs == [cs[0]] + rest
    ensures Tail(rest, all) && cs[0] == all[|all| - |cs|] && |all| > 0 && (rest == [] ==> cs[0] == all[|all| - 1])
  {
  }

  lemma Relock(s: seq<Islot>, a: seq<Islot>, b: seq<Islot>, i: nat)
    requires OneMore(s, a, i) && SameRefs(a, b)
    ensures OneMore(s, b, i)
  {
    forall j ensures Refs(b, j) == Refs(s, j) + if j == i then 1 else 0 {
      assert Refs(a, j) == Refs(s, j) + if j == i then 1 else 0;
    }
  }
}
