/** Which slots the first blocks of a file fill, and how many they are. */
module Sizes {
  import opened Blocks
  import opened Volume
  import opened Demand
  import opened FileSystem

  /** Slot s is on the way to one of the first b blocks of its file. */
  predicate Before(s: Slot, b: nat) {
    match s
    case Addr(_, k) => if k < NDIRECT then k < b else if k == NDIRECT then NDIRECT < b else NDIRECT + NINDIRECT < b
    case Ind(_, k) => NDIRECT + k < b
    case L1(_, k) => NDIRECT + NINDIRECT + NINDIRECT * k < b
    case L2(_, k, j) => NDIRECT + NINDIRECT + NINDIRECT * k + j < b
  }

  /** The route of block b is what comes before b + 1, of its own kind, and nothing else new. */
  lemma BeforeStep(i: nat, b: nat, s: Slot)
    requires b < MAXFILE && s.i == i && Shaped(s)
    ensures Before(s, b + 1) <==> Before(s, b) || s in Route(i, b)
  {
    if b >= NDIRECT + NINDIRECT {
      var d := b - NDIRECT - NINDIRECT;
      assert d == NINDIRECT * (d / NINDIRECT) + d % NINDIRECT;
    }
  }

  lemma {:induction false} RoutesAre(i: nat, b: nat, s: Slot)
    requires b <= MAXFILE && s.i == i && Shaped(s)
    ensures s in Routes(Way(i), 0, b) <==> Before(s, b)
    decreases b
  {
    if b > 0 {
      RoutesAre(i, b - 1, s);
      BeforeStep(i, b - 1, s);
    }
  }

  lemma {:induction false} RoutesFrom(i: nat, a: nat, b: nat)
    ensures Routes(Way(i), a, b) <= Routes(Way(i), 0, b)
    decreases b
  {
    if a < b { RoutesFrom(i, a, b - 1); }
  }

  /** How many blocks a file of b blocks takes, its index blocks included. */
  function Cost(b: nat): (n: nat) {
    b + (if b > NDIRECT then 1 else 0)
    + (if b > NDIRECT + NINDIRECT then 2 + (b - NDIRECT - NINDIRECT - 1) / NINDIRECT else 0)
  }

  /** What block b adds to the blocks before it. */
  function Added(i: nat, b: nat): (t: set<Slot>) {
    var s := DataSlot(i, b);
    if b == NDIRECT then {s, Up(s)}
    else if b == NDIRECT + NINDIRECT then {s, Up(s), Up(Up(s))}
    else if s.L2? && s.j == 0 then {s, Up(s)}
    else {s}
  }

  lemma AddedIs(i: nat, b: nat, s: Slot)
    requires b < MAXFILE && s.i == i && Shaped(s)
    ensures s in Added(i, b) <==> s in Route(i, b) && !Before(s, b)
  {
    if b >= NDIRECT + NINDIRECT {
      var d := b - NDIRECT - NINDIRECT;
      assert d == NINDIRECT * (d / NINDIRECT) + d % NINDIRECT;
    }
  }

  lemma AddedCost(i: nat, b: nat)
    requires b < MAXFILE
    ensures |Added(i, b)| == Cost(b + 1) - Cost(b)
  {
    if b > NDIRECT + NINDIRECT {
      var d := b - NDIRECT - NINDIRECT;
      assert d / NINDIRECT == (d - 1) / NINDIRECT + (if d % NINDIRECT == 0 then 1 else 0);
    }
  }

  lemma RoutesGrow(i: nat, b: nat)
    requires b < MAXFILE
    ensures Routes(Way(i), 0, b + 1) == Routes(Way(i), 0, b) + Added(i, b) && Routes(Way(i), 0, b) !! Added(i, b)
  {
    RouteShaped(i, b);
    forall s | s in Added(i, b) ensures s in Way(i)(b) && s !in Routes(Way(i), 0, b) {
      AddedIs(i, b, s);
      RoutesAre(i, b, s);
    }
    forall s | s in Way(i)(b) ensures s in Routes(Way(i), 0, b) + Added(i, b) {
      assert s in Slots(i);
      AddedIs(i, b, s);
      RoutesAre(i, b, s);
    }
  }

  lemma CostStep(i: nat, b: nat, next: nat)
    requires next == b + 1 <= MAXFILE && |Routes(Way(i), 0, b)| == Cost(b)
    ensures |Routes(Way(i), 0, next)| == Cost(next)
  {
    AddedCost(i, b);
    RoutesGrow(i, b);
  }

  lemma {:induction false} CostIs(i: nat, b: nat)
    requires b <= MAXFILE
    ensures |Routes(Way(i), 0, b)| == Cost(b)
    decreases b
  {
    if b > 0 {
      CostIs(i, b - 1);
      CostStep(i, b - 1, b);
    }
  }
}
