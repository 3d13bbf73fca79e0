/** The buffer cache as a state machine: any number of threads, interleaved between lock operations. */
module BufferCache {
  import opened Blocks
  import opened Counting

  /** A buffer: which block it stands for, whether its data was read, and how many threads use it. */
  datatype Buf = Buf(dev: nat, blockno: nat, valid: bool, refcnt: nat, data: Block)

  type Addr = (nat, nat)

  function Home(b: Buf): (a: Addr) { (b.dev, b.blockno) }

  /** What bcache.lock protects: the buffers, their order from most to least recently released, and,
      for the record, when each count last fell to 0. */
  datatype Table = Table(bufs: seq<Buf>, order: seq<nat>, freed: seq<nat>, clock: nat)

  ghost predicate Permutation(order: seq<nat>, n: nat) {
    && |order| == n && (forall i | 0 <= i < n :: order[i] < n) && (forall b: nat | b < n :: b in order)
    && forall i, j | 0 <= i < j < n :: order[i] != order[j]
  }

  /** The order is that of the last releases; buffers never released come last. */
  ghost predicate Recent(t: Table) {
    && Permutation(t.order, |t.bufs|) && |t.freed| == |t.bufs|
    && (forall b | 0 <= b < |t.freed| :: t.freed[b] <= t.clock)
    && forall i, j {:trigger t.order[i], t.order[j]} | 0 <= i < j < |t.order| ::
         t.freed[t.order[i]] > t.freed[t.order[j]] || t.freed[t.order[i]] == t.freed[t.order[j]] == 0
  }

  predicate Cached(bufs: seq<Buf>, a: Addr) {
    exists b | 0 <= b < |bufs| :: Home(bufs[b]) == a
  }

  /** Every buffer from place i on is in use. */
  predicate BusyFrom(t: Table, i: nat) {
    forall q | i <= q < |t.order| :: t.order[q] < |t.bufs| && t.bufs[t.order[q]].refcnt != 0
  }

  /** What bget does under bcache.lock: buffer b now stands for block a and has one more user. */
  ghost predicate Gets(t: Table, a: Addr, b: nat, r: Table) {
    && b < |t.bufs| && r == t.(bufs := r.bufs)
    && if Cached(t.bufs, a)
       then Home(t.bufs[b]) == a && r.bufs == t.bufs[b := t.bufs[b].(refcnt := t.bufs[b].refcnt + 1)]
       else (t.bufs[b].refcnt == 0 && (exists p: nat :: p < |t.order| && t.order[p] == b && BusyFrom(t, p + 1))
             && r.bufs == t.bufs[b := Buf(a.0, a.1, false, 1, t.bufs[b].data)])
  }

  function Without(order: seq<nat>, b: nat): (r: seq<nat>) {
    if |order| == 0 then []
    else if order[0] == b then order[1..]
    else [order[0]] + Without(order[1..], b)
  }

  /** What brelse does under bcache.lock. */
  ghost predicate Puts(t: Table, b: nat, r: Table) {
    && b < |t.bufs| && t.bufs[b].refcnt > 0 && |t.freed| == |t.bufs|
    && r.bufs == t.bufs[b := t.bufs[b].(refcnt := t.bufs[b].refcnt - 1)]
    && if t.bufs[b].refcnt == 1
       then r == t.(bufs := r.bufs, order := [b] + Without(t.order, b), freed := t.freed[b := t.clock + 1], clock := t.clock + 1)
       else r == t.(bufs := r.bufs)
  }

  lemma {:induction false} WithoutIs(order: seq<nat>, b: nat, p: nat)
    requires p < |order| && order[p] == b && forall q | 0 <= q < p :: order[q] != b
    ensures Without(order, b) == order[..p] + order[p + 1..]
  {
    if p > 0 {
      WithoutIs(order[1..], b, p - 1);
      assert order[1..][..p - 1] == order[1..p];
      assert order[..p] == [order[0]] + order[1..p];
    }
  }

  /** Where the buffer at place i of the new order stood before b moved from p to the front. */
  function Before(i: nat, p: nat): (j: nat)
    ensures j <= if i < p then p else i
  {
    if i == 0 then p else if i <= p then i - 1 else i
  }

  lemma Place(order: seq<nat>, c: nat) returns (q: nat)
    requires Permutation(order, |order|) && c < |order|
    ensures q < |order| && order[q] == c
  {
    assert c in order;
    q :| q < |order| && order[q] == c;
  }

  lemma FrontAt(order: seq<nat>, b: nat, p: nat, i: nat)
    requires p < |order| && order[p] == b && i < |order| && forall q | 0 <= q < p :: order[q] != b
    ensures var r := [b] + Without(order, b); |r| == |order| && r[i] == order[Before(i, p)]
  {
    WithoutIs(order, b, p);
  }

  lemma MovedFront(order: seq<nat>, b: nat, p: nat, r: seq<nat>)
    requires Permutation(order, |order|) && p < |order| && order[p] == b && r == [b] + Without(order, b)
    ensures |r| == |order| && (forall i: nat {:trigger r[i]} | i < |r| :: r[i] == order[Before(i, p)]) && Permutation(r, |order|)
  {
    FrontAt(order, b, p, p);
    forall i: nat | i < |order| ensures r[i] == order[Before(i, p)] {
      FrontAt(order, b, p, i);
    }
    forall i: nat, j: nat | i < j < |r| ensures r[i] != r[j] {
      Apart(order, Before(i, p), Before(j, p));
    }
    forall c: nat | c < |order| ensures c in r {
      var q := Place(order, c);
      assert r[if q == p then 0 else if q < p then q + 1 else q] == c;
    }
  }

  lemma Apart(order: seq<nat>, i: nat, j: nat)
    requires Permutation(order, |order|) && i < |order| && j < |order| && i != j
    ensures order[i] != order[j]
  {
  }

  /** A release keeps the order that of the last releases. */
  lemma PutsRecent(t: Table, b: nat, r: Table)
    requires Recent(t) && Puts(t, b, r)
    ensures Recent(r)
  {
    if t.bufs[b].refcnt == 1 {
      var p := Place(t.order, b);
      MovedFront(t.order, b, p, r.order);
      forall i, j | 0 <= i < j < |r.order|
        ensures r.freed[r.order[i]] > r.freed[r.order[j]] || r.freed[r.order[i]] == r.freed[r.order[j]] == 0
      {
        Later(t, b, p, r, i, j);
      }
    }
  }

  lemma Later(t: Table, b: nat, p: nat, r: Table, i: nat, j: nat)
    requires Recent(t) && Puts(t, b, r) && p < |t.order| && t.order[p] == b && t.bufs[b].refcnt == 1
    requires i < j < |r.order| == |t.order| && r.order[i] == t.order[Before(i, p)] && r.order[j] == t.order[Before(j, p)]
    ensures r.freed[r.order[i]] > r.freed[r.order[j]] || r.freed[r.order[i]] == r.freed[r.order[j]] == 0
  {
    var y := t.order[Before(j, p)];
    assert y != b && r.freed[y] == t.freed[y] <= t.clock;
    if i > 0 {
      var x := t.order[Before(i, p)];
      assert x != b && r.freed[x] == t.freed[x];
    }
  }

  /** The buffer bget recycles is, of those not in use, the one whose count fell to 0 longest ago. */
  lemma LeastRecent(t: Table, a: Addr, b: nat, r: Table, c: nat)
    requires Recent(t) && Gets(t, a, b, r) && !Cached(t.bufs, a)
    requires c < |t.bufs| && t.bufs[c].refcnt == 0
    ensures t.freed[b] <= t.freed[c] && (b != c && t.freed[c] > 0 ==> t.freed[b] < t.freed[c])
  {
    var p: nat :| p < |t.order| && t.order[p] == b && BusyFrom(t, p + 1);
    var q := Place(t.order, c);
    assert q <= p;
  }

  /** Where a thread stands with the one buffer it uses: between bget and brelse it waits for the
      buffer's lock, holds it (dirty until the data is written back), or has just let go of it. */
  datatype Pc = Idle | Waiting(b: nat) | Holding(b: nat, dirty: bool) | Releasing(b: nat)

  predicate On(pc: Pc, b: nat) {
    !pc.Idle? && pc.b == b
  }

  datatype Owner = Free | By(t: nat)

  type Disk = map<Addr, Block>

  function Read(disk: Disk, a: Addr): (d: Block) {
    if a in disk then disk[a] else Zeroes()
  }

  /** The whole system; log is the record of completed writes. */
  datatype State = State(tab: Table, pcs: seq<Pc>, lock: seq<Owner>, disk: Disk, log: seq<(Addr, Block)>)

  datatype Event =
    | Bget(t: nat, a: Addr, b: nat)
    | Acquire(t: nat)
    | Fill(t: nat)
    | Modify(t: nat, d: Block)
    | Bwrite(t: nat)
    | Unlock(t: nat)
    | Brelse(t: nat)

  /** What the last completed write stored in block a of a disk that began as disk0. */
  function LastWrite(disk0: Disk, log: seq<(Addr, Block)>, a: Addr): (d: Block) {
    if |log| == 0 then Read(disk0, a)
    else if log[|log| - 1].0 == a then log[|log| - 1].1
    else LastWrite(disk0, log[..|log| - 1], a)
  }

  /** The threads on buffer b. */
  function Users(b: nat): (on: Pc -> bool) {
    pc => On(pc, b)
  }

  function SetBuf(tab: Table, b: nat, buf: Buf): (r: Table)
    requires b < |tab.bufs|
  {
    tab.(bufs := tab.bufs[b := buf])
  }

  /** One step of one thread. */
  ghost predicate Next(s: State, e: Event, r: State) {
    && e.t < |s.pcs| && |s.lock| == |s.tab.bufs|
    && var pc := s.pcs[e.t];
       match e
       case Bget(t, a, b) =>
         pc.Idle? && a.0 >= 1 && Gets(s.tab, a, b, r.tab) && r == s.(tab := r.tab, pcs := s.pcs[t := Waiting(b)])
       case Acquire(t) =>
         && pc.Waiting? && pc.b < |s.lock| && s.lock[pc.b].Free?
         && r == s.(lock := s.lock[pc.b := By(t)], pcs := s.pcs[t := Holding(pc.b, false)])
       case Fill(t) =>
         && pc.Holding? && !pc.dirty && pc.b < |s.lock| && !s.tab.bufs[pc.b].valid
         && var buf := s.tab.bufs[pc.b];
            r == s.(tab := SetBuf(s.tab, pc.b, buf.(data := Read(s.disk, Home(buf)), valid := true)))
       case Modify(t, d) =>
         && pc.Holding? && pc.b < |s.lock|
         && r == s.(tab := SetBuf(s.tab, pc.b, s.tab.bufs[pc.b].(data := d)), pcs := s.pcs[t := Holding(pc.b, true)])
       case Bwrite(t) =>
         && pc.Holding? && pc.b < |s.lock|
         && var buf := s.tab.bufs[pc.b];
            r == s.(disk := s.disk[Home(buf) := buf.data], log := s.log + [(Home(buf), buf.data)],
                    pcs := s.pcs[t := Holding(pc.b, false)])
       case Unlock(t) =>
         && pc.Holding? && !pc.dirty && pc.b < |s.lock|
         && r == s.(lock := s.lock[pc.b := Free], pcs := s.pcs[t := Releasing(pc.b)])
       case Brelse(t) =>
         pc.Releasing? && Puts(s.tab, pc.b, r.tab) && r == s.(tab := r.tab, pcs := s.pcs[t := Idle])
  }

  /** As binit leaves it, with idle threads: every buffer stands for block 0 of device 0. */
  ghost predicate Init(s: State) {
    && Permutation(s.tab.order, |s.tab.bufs|) && |s.tab.freed| == |s.lock| == |s.tab.bufs| && s.log == []
    && (forall b | 0 <= b < |s.tab.bufs| :: s.tab.freed[b] == 0 && s.lock[b] == Free)
    && (forall b | 0 <= b < |s.tab.bufs| ::
          Home(s.tab.bufs[b]) == (0, 0) && !s.tab.bufs[b].valid && s.tab.bufs[b].refcnt == 0)
    && forall t | 0 <= t < |s.pcs| :: s.pcs[t].Idle?
  }

  /** refcnt is the number of threads between their bget and their brelse. */
  ghost predicate Counted(s: State) {
    && (forall t | 0 <= t < |s.pcs| && !s.pcs[t].Idle? :: s.pcs[t].b < |s.tab.bufs|)
    && forall b: nat {:trigger s.tab.bufs[b]} | b < |s.tab.bufs| :: s.tab.bufs[b].refcnt == Count(s.pcs, Users(b))
  }

  /** A buffer's lock is held by the thread that holds the buffer, and by no other. */
  ghost predicate Locked(s: State) {
    && |s.lock| == |s.tab.bufs|
    && (forall t: nat {:trigger s.pcs[t]} | t < |s.pcs| && s.pcs[t].Holding? ::
          s.pcs[t].b < |s.lock| && s.lock[s.pcs[t].b] == By(t))
    && forall b: nat {:trigger s.lock[b]} | b < |s.lock| && s.lock[b].By? ::
         s.lock[b].t < |s.pcs| && s.pcs[s.lock[b].t].Holding? && s.pcs[s.lock[b].t].b == b
  }

  /** No two buffers stand for the same block of a real device; device 0 marks buffers never used. */
  ghost predicate SoleHome(bufs: seq<Buf>) {
    && (forall b, c | 0 <= b < c < |bufs| && Home(bufs[b]) == Home(bufs[c]) :: bufs[b].dev == 0)
    && forall b | 0 <= b < |bufs| && bufs[b].dev == 0 :: bufs[b].refcnt == 0 && !bufs[b].valid
  }

  predicate Dirty(s: State, b: nat) {
    b < |s.lock| && s.lock[b].By? && s.lock[b].t < |s.pcs| && s.pcs[s.lock[b].t].Holding? && s.pcs[s.lock[b].t].dirty
  }

  /** A valid buffer that is not being changed equals the disk block it names. */
  ghost predicate Coherent(s: State) {
    forall b: nat {:trigger s.tab.bufs[b]} | b < |s.tab.bufs| && s.tab.bufs[b].valid && !Dirty(s, b) ::
      s.tab.bufs[b].data == Read(s.disk, Home(s.tab.bufs[b]))
  }

  ghost predicate Logged(s: State, disk0: Disk) {
    forall a {:trigger Read(s.disk, a)} :: Read(s.disk, a) == LastWrite(disk0, s.log, a)
  }

  ghost predicate Inv(s: State, disk0: Disk) {
    Recent(s.tab) && Counted(s) && Locked(s) && SoleHome(s.tab.bufs) && Coherent(s) && Logged(s, disk0)
  }

  lemma InitInv(s: State)
    requires Init(s)
    ensures Inv(s, s.disk)
  {
    forall b: nat | b < |s.tab.bufs| ensures s.tab.bufs[b].refcnt == Count(s.pcs, Users(b)) {
      CountNone(s.pcs, Users(b));
    }
  }

  lemma NextCounted(s: State, e: Event, r: State)
    requires Counted(s) && Locked(s) && Next(s, e, r)
    ensures Counted(r)
  {
    forall b: nat | b < |r.tab.bufs| ensures r.tab.bufs[b].refcnt == Count(r.pcs, Users(b)) {
      CountUpdate(s.pcs, e.t, r.pcs[e.t], Users(b));
      assert s.tab.bufs[b].refcnt == Count(s.pcs, Users(b));
    }
  }

  lemma NextLocked(s: State, e: Event, r: State)
    requires Locked(s) && Next(s, e, r)
    ensures Locked(r)
  {
    assert r.pcs == s.pcs[e.t := r.pcs[e.t]];
  }

  lemma NextApart(s: State, e: Event, r: State)
    requires Counted(s) && SoleHome(s.tab.bufs) && Next(s, e, r)
    ensures SoleHome(r.tab.bufs)
  {
    if !e.Bget? && !s.pcs[e.t].Idle? {
      CountOn(s.pcs, e.t, Users(s.pcs[e.t].b));
    }
  }

  lemma NextRecent(s: State, e: Event, r: State)
    requires Recent(s.tab) && Next(s, e, r)
    ensures Recent(r.tab)
  {
    if e.Brelse? {
      PutsRecent(s.tab, s.pcs[e.t].b, r.tab);
    }
  }

  lemma NextLogged(s: State, e: Event, r: State, disk0: Disk)
    requires Logged(s, disk0) && Next(s, e, r)
    ensures Logged(r, disk0)
  {
    forall a ensures Read(r.disk, a) == LastWrite(disk0, r.log, a) {
      assert Read(s.disk, a) == LastWrite(disk0, s.log, a);
      if e.Bwrite? {
        assert r.log[..|r.log| - 1] == s.log;
      }
    }
  }

  lemma NextCoherent(s: State, e: Event, r: State)
    requires Coherent(s) && Counted(s) && Locked(s) && SoleHome(s.tab.bufs) && Next(s, e, r)
    ensures Coherent(r)
  {
    forall b: nat | b < |r.tab.bufs| && r.tab.bufs[b].valid && !Dirty(r, b)
      ensures r.tab.bufs[b].data == Read(r.disk, Home(r.tab.bufs[b]))
    {
      StillCoherent(s, e, r, b);
    }
  }

  lemma StillCoherent(s: State, e: Event, r: State, b: nat)
    requires Coherent(s) && Counted(s) && Locked(s) && SoleHome(s.tab.bufs) && Next(s, e, r)
    requires b < |r.tab.bufs| && r.tab.bufs[b].valid && !Dirty(r, b)
    ensures r.tab.bufs[b].data == Read(r.disk, Home(r.tab.bufs[b]))
  {
    var pc := s.pcs[e.t];
    if e.Bwrite? {
      CountOn(s.pcs, e.t, Users(pc.b));
      assert s.tab.bufs[pc.b].dev != 0;
    }
    if !(pc.Holding? && pc.b == b) {
      assert s.tab.bufs[b].valid && !Dirty(s, b);
    }
  }

  lemma NextInv(s: State, e: Event, r: State, disk0: Disk)
    requires Inv(s, disk0) && Next(s, e, r)
    ensures Inv(r, disk0)
  {
    NextRecent(s, e, r);
    NextCounted(s, e, r);
    NextLocked(s, e, r);
    NextApart(s, e, r);
    NextCoherent(s, e, r);
    NextLogged(s, e, r, disk0);
  }

  /** A run: states ss, and the steps es between them. */
  ghost predicate Run(ss: seq<State>, es: seq<Event>) {
    |ss| == |es| + 1 && Init(ss[0]) && forall k {:trigger es[k]} | 0 <= k < |es| :: Next(ss[k], es[k], ss[k + 1])
  }

  /** Every state of every interleaving keeps the invariant. */
  lemma {:induction false} RunInv(ss: seq<State>, es: seq<Event>, k: nat)
    requires Run(ss, es) && k < |ss|
    ensures Inv(ss[k], ss[0].disk)
  {
    if k == 0 {
      InitInv(ss[0]);
    } else {
      RunInv(ss, es, k - 1);
      assert Next(ss[k - 1], es[k - 1], ss[k]);
      NextInv(ss[k - 1], es[k - 1], ss[k], ss[0].disk);
    }
  }

  /** The threads that use buffer b are counted by refcnt, and at most one of them holds it. */
  lemma OneHolder(ss: seq<State>, es: seq<Event>, k: nat, b: nat, t: nat, u: nat)
    requires Run(ss, es) && k < |ss| && b < |ss[k].tab.bufs| && t < |ss[k].pcs| && u < |ss[k].pcs|
    requires ss[k].pcs[t].Holding? && ss[k].pcs[t].b == b && ss[k].pcs[u].Holding? && ss[k].pcs[u].b == b
    ensures t == u && ss[k].tab.bufs[b].refcnt == Count(ss[k].pcs, Users(b)) > 0
  {
    RunInv(ss, es, k);
    CountOn(ss[k].pcs, t, Users(b));
  }

  /** While a thread waits for, holds or releases a buffer, the buffer stands for the same block. */
  lemma {:induction false} SameHome(ss: seq<State>, es: seq<Event>, t: nat, b: nat, j: nat, k: nat)
    requires Run(ss, es) && j <= k < |ss| && b < |ss[j].tab.bufs|
    requires forall i | j <= i <= k :: t < |ss[i].pcs| && On(ss[i].pcs[t], b)
    ensures b < |ss[k].tab.bufs| && Home(ss[k].tab.bufs[b]) == Home(ss[j].tab.bufs[b])
  {
    if j < k {
      SameHome(ss, es, t, b, j, k - 1);
      RunInv(ss, es, k - 1);
      var s := ss[k - 1];
      assert Next(s, es[k - 1], ss[k]) && On(s.pcs[t], b);
      CountOn(s.pcs, t, Users(b));
      assert s.tab.bufs[b].refcnt > 0;
    }
  }

  /** In every interleaving, whoever got a buffer for block a and finds it valid reads what the last
      completed write to a stored. */
  lemma ReadsLastWrite(ss: seq<State>, es: seq<Event>, t: nat, a: Addr, b: nat, j: nat, k: nat)
    requires Run(ss, es) && j < k < |ss| && es[j] == Bget(t, a, b)
    requires forall i | j < i <= k :: t < |ss[i].pcs| && On(ss[i].pcs[t], b)
    requires ss[k].pcs[t] == Holding(b, false) && b < |ss[k].tab.bufs| && ss[k].tab.bufs[b].valid
    ensures ss[k].tab.bufs[b].data == LastWrite(ss[0].disk, ss[k].log, a)
  {
    assert Next(ss[j], es[j], ss[j + 1]);
    SameHome(ss, es, t, b, j + 1, k);
    RunInv(ss, es, k);
    var s := ss[k];
    assert s.lock[s.pcs[t].b] == By(t);
    assert s.tab.bufs[b].data == Read(s.disk, Home(s.tab.bufs[b]));
  }
}
