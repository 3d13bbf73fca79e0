/** Clients of malloc and free: any run of requests, what the client has at every moment, and exactly when
    the pool is used up. */
module HeapClients {
  import opened Counting
  import opened Heap

  /** What a client of the heap does: ask for n bytes, or return the i-th region it has. */
  datatype Request = Ask(n: nat) | Return(i: nat)

  /** A region a client has: its address and the size it asked for. */
  datatype Region = Region(p: nat, n: nat)

  /** What a client has after a request and its reply. */
  function After(live: seq<Region>, q: Request, r: Reply): (live': seq<Region>) {
    match q
    case Ask(n) => if r.Block? then live + [Region(r.p, n)] else live
    case Return(i) => if i < |live| then live[..i] + live[i + 1..] else live
  }

  /** Replies fit requests: malloc gives null exactly above the largest size. */
  predicate Answers(q: Request, r: Reply) {
    match q
    case Ask(n) => if n > MAX_ALLOC_SIZE then r.Null? else r.Block?
    case Return(i) => r.Done?
  }

  /** hist are the regions the client has before each request and at the end. */
  ghost predicate Traces(hist: seq<seq<Region>>, reqs: seq<Request>, rs: seq<Reply>) {
    && |rs| <= |reqs| && |hist| == |rs| + 1 && hist[0] == []
    && forall k {:trigger rs[k]} | 0 <= k < |rs| :: Answers(reqs[k], rs[k]) && hist[k + 1] == After(hist[k], reqs[k], rs[k])
  }

  /** The regions are aligned, lie in the pool and have no byte in common. */
  ghost predicate Clear(live: seq<Region>, base: nat, limit: nat) {
    && (forall i {:trigger live[i]} | 0 <= i < |live| ::
          live[i].p % BLOCK_ALIGN == 0 && base <= live[i].p && live[i].p + live[i].n <= limit)
    && forall i, j {:trigger live[i], live[j]} | 0 <= i < j < |live| :: Disjoint(live[i].p, live[i].n, live[j].p, live[j].n)
  }

  /** One of the regions lies in block a. */
  ghost predicate Has(live: seq<Region>, a: nat) {
    exists i {:trigger live[i]} :: 0 <= i < |live| && live[i].p == a + HEADER
  }

  /** live are regions of outstanding blocks, one each, and not of the others. */
  ghost predicate Holds(hdr: Headers, out: set<nat>, live: seq<Region>, others: set<nat>) {
    && (forall i {:trigger live[i]} | 0 <= i < |live| :: Owned(hdr, out, live[i].p, live[i].n) && live[i].p - HEADER !in others)
    && forall i, j {:trigger live[i], live[j]} | 0 <= i < j < |live| :: live[i].p != live[j].p
  }

  /** What is outstanding is the others' and the client's, no more. */
  ghost predicate Covers(out: set<nat>, live: seq<Region>, others: set<nat>) {
    (forall a | a in others :: a in out) && forall a {:trigger Has(live, a)} | a in out :: a in others || Has(live, a)
  }

  ghost predicate Owns(hdr: Headers, out: set<nat>, live: seq<Region>, others: set<nat>) {
    Holds(hdr, out, live, others) && Covers(out, live, others)
  }

  lemma HoldsMore(hdr: Headers, out: set<nat>, live: seq<Region>, others: set<nat>, n: nat, p: nat, hdr': Headers, out': set<nat>)
    requires Holds(hdr, out, live, others) && others <= out && p >= HEADER && n <= MAX_ALLOC_SIZE && Serves(hdr, out, Best(n), p - HEADER, hdr', out')
    ensures Holds(hdr', out', live + [Region(p, n)], others)
  {
    forall i | 0 <= i < |live| ensures Owned(hdr', out', live[i].p, live[i].n) && live[i].p != p {
      assert Owned(hdr, out, live[i].p, live[i].n);
    }
  }

  lemma CoversMore(out: set<nat>, live: seq<Region>, others: set<nat>, n: nat, a: nat)
    requires Covers(out, live, others)
    ensures Covers(out + {a}, live + [Region(a + HEADER, n)], others)
  {
    var more := live + [Region(a + HEADER, n)];
    assert more[|live|].p == a + HEADER;
    forall b | b in out + {a} ensures b in others || Has(more, b) {
      if b != a && b !in others {
        assert Has(live, b);
        var i :| 0 <= i < |live| && live[i].p == b + HEADER;
        assert more[i] == live[i];
      }
    }
  }

  lemma OwnsMore(hdr: Headers, out: set<nat>, live: seq<Region>, others: set<nat>, n: nat, p: nat, hdr': Headers, out': set<nat>)
    requires Owns(hdr, out, live, others) && p >= HEADER && n <= MAX_ALLOC_SIZE && Serves(hdr, out, Best(n), p - HEADER, hdr', out')
    ensures Owns(hdr', out', live + [Region(p, n)], others)
  {
    HoldsMore(hdr, out, live, others, n, p, hdr', out');
    CoversMore(out, live, others, n, p - HEADER);
  }

  lemma HoldsLess(hdr: Headers, out: set<nat>, live: seq<Region>, others: set<nat>, i: nat, hdr': Headers, l: seq<Region>)
    requires Holds(hdr, out, live, others) && i < |live| && l == live[..i] + live[i + 1..] && live[i].p >= HEADER
    requires hdr'.Keys == hdr.Keys && forall b | b in hdr :: hdr'[b].size == hdr[b].size
    ensures Holds(hdr', out - {live[i].p - HEADER}, l, others)
  {
    forall k: nat | k < |l| ensures l[k] == live[if k < i then k else k + 1] {
    }
    forall k: nat | k < |l| ensures Owned(hdr', out - {live[i].p - HEADER}, l[k].p, l[k].n) && l[k].p - HEADER !in others {
      var m := if k < i then k else k + 1;
      assert live[m].p != live[i].p && Owned(hdr, out, live[m].p, live[m].n);
    }
  }

  lemma CoversLess(out: set<nat>, live: seq<Region>, others: set<nat>, i: nat, a: nat, l: seq<Region>)
    requires Covers(out, live, others) && i < |live| && l == live[..i] + live[i + 1..] && live[i].p == a + HEADER && a !in others
    ensures Covers(out - {a}, l, others)
  {
    forall b | b in out - {a} ensures b in others || Has(l, b) {
      if b !in others {
        assert Has(live, b);
        var m :| 0 <= m < |live| && live[m].p == b + HEADER;
        assert l[if m < i then m else m - 1] == live[m];
      }
    }
  }

  lemma OwnsLess(hdr: Headers, out: set<nat>, live: seq<Region>, others: set<nat>, i: nat, hdr': Headers)
    requires Owns(hdr, out, live, others) && i < |live|
    requires hdr'.Keys == hdr.Keys && forall b | b in hdr :: hdr'[b].size == hdr[b].size
    ensures live[i].p >= HEADER && Owns(hdr', out - {live[i].p - HEADER}, live[..i] + live[i + 1..], others)
  {
    assert Owned(hdr, out, live[i].p, live[i].n);
    HoldsLess(hdr, out, live, others, i, hdr', live[..i] + live[i + 1..]);
    CoversLess(out, live, others, i, live[i].p - HEADER, live[..i] + live[i + 1..]);
  }

  /** The sizes a client has outstanding after a request, if it is served. */
  function Then(ns: seq<nat>, q: Request): (r: seq<nat>) {
    match q
    case Ask(n) => if n > MAX_ALLOC_SIZE then ns else ns + [n]
    case Return(i) => if i < |ns| then ns[..i] + ns[i + 1..] else ns
  }

  /** And after all requests, if all are served. */
  function Wants(reqs: seq<Request>): (ns: seq<nat>) {
    if |reqs| == 0 then [] else Then(Wants(reqs[..|reqs| - 1]), reqs[|reqs| - 1])
  }

  function InBucket(j: nat): (on: nat -> bool) {
    (n: nat) => Best(n) == j
  }

  /** The most blocks of size j that the requests have outstanding at a time. */
  function Peak(reqs: seq<Request>, j: nat): (n: nat) {
    if |reqs| == 0 then 0
    else
      var p, now := Peak(reqs[..|reqs| - 1], j), Count(Wants(reqs), InBucket(j));
      if now > p then now else p
  }

  /** The most blocks of each size there are at a time, when there were count at first and peak before. */
  function Peaks(peak: seq<nat>, count: seq<nat>, reqs: seq<Request>): (m: seq<nat>)
    requires |peak| == |count| == BUCKETS
    ensures |m| == BUCKETS
  {
    seq(BUCKETS, j requires 0 <= j < BUCKETS => if count[j] + Peak(reqs, j) > peak[j] then count[j] + Peak(reqs, j) else peak[j])
  }

  lemma PeakOver(reqs: seq<Request>, j: nat)
    ensures Count(Wants(reqs), InBucket(j)) <= Peak(reqs, j)
  {
  }

  /** What one more request does to the count of a size. */
  lemma ThenCounts(ns: seq<nat>, q: Request, j: nat)
    ensures q.Ask? && q.n <= MAX_ALLOC_SIZE ==>
      Count(Then(ns, q), InBucket(j)) == Count(ns, InBucket(j)) + if Best(q.n) == j then 1 else 0
    ensures q.Ask? && q.n > MAX_ALLOC_SIZE ==> Then(ns, q) == ns
    ensures q.Return? && q.i < |ns| ==> Count(Then(ns, q), InBucket(j)) + (if Best(ns[q.i]) == j then 1 else 0) == Count(ns, InBucket(j))
    ensures q.Return? && q.i >= |ns| ==> Then(ns, q) == ns
  {
    if q.Ask? {
      CountJoin(ns, [q.n], InBucket(j));
      assert Count([q.n], InBucket(j)) == if Best(q.n) == j then 1 else 0;
    } else if q.i < |ns| {
      CountWithout(ns, q.i, InBucket(j));
    }
  }

  /** What one more request does to the peak of a size. */
  lemma PeakStep(reqs: seq<Request>, q: Request, next: seq<Request>, j: nat)
    requires next == reqs + [q]
    ensures var now := Count(Wants(reqs), InBucket(j));
      Peak(next, j) == if q.Ask? && q.n <= MAX_ALLOC_SIZE && j == Best(q.n) && now + 1 > Peak(reqs, j) then now + 1 else Peak(reqs, j)
  {
    assert next[..|reqs|] == reqs;
    PeakOver(reqs, j);
    ThenCounts(Wants(reqs), q, j);
  }

  lemma PeaksAt(peak: seq<nat>, count: seq<nat>, reqs: seq<Request>, q: Request, next: seq<Request>, j: nat)
    requires |peak| == |count| == BUCKETS && next == reqs + [q] && j < BUCKETS
    ensures Peaks(peak, count, next)[j] ==
      if q.Ask? && q.n <= MAX_ALLOC_SIZE && j == Best(q.n)
         && count[j] + Count(Wants(reqs), InBucket(j)) + 1 > Peaks(peak, count, reqs)[j]
      then count[j] + Count(Wants(reqs), InBucket(j)) + 1 else Peaks(peak, count, reqs)[j]
  {
    PeakStep(reqs, q, next, j);
  }

  /** And to the peaks of all. */
  lemma PeaksStep(peak: seq<nat>, count: seq<nat>, reqs: seq<Request>, q: Request, next: seq<Request>)
    requires |peak| == |count| == BUCKETS && next == reqs + [q]
    ensures q.Ask? && q.n <= MAX_ALLOC_SIZE ==>
      Peaks(peak, count, next) ==
      Bumped(Peaks(peak, count, reqs), Best(q.n), count[Best(q.n)] + Count(Wants(reqs), InBucket(Best(q.n))) + 1)
    ensures !(q.Ask? && q.n <= MAX_ALLOC_SIZE) ==> Peaks(peak, count, next) == Peaks(peak, count, reqs)
  {
    forall j: nat | j < BUCKETS
      ensures Peaks(peak, count, next)[j] ==
        if q.Ask? && q.n <= MAX_ALLOC_SIZE && j == Best(q.n)
           && count[j] + Count(Wants(reqs), InBucket(j)) + 1 > Peaks(peak, count, reqs)[j]
        then count[j] + Count(Wants(reqs), InBucket(j)) + 1 else Peaks(peak, count, reqs)[j]
    {
      PeaksAt(peak, count, reqs, q, next, j);
    }
  }

  lemma {:induction false} PeakMore(reqs: seq<Request>, k: nat, j: nat)
    requires k <= |reqs|
    ensures Peak(reqs[..k], j) <= Peak(reqs, j)
    decreases |reqs|
  {
    if k < |reqs| {
      var shorter := reqs[..|reqs| - 1];
      PeakMore(shorter, k, j);
      assert shorter[..k] == reqs[..k];
    } else {
      assert reqs[..k] == reqs;
    }
  }

  /** Bytes that serving the requests takes from a pool with the given peaks and counts. */
  function Demand(peak: seq<nat>, count: seq<nat>, reqs: seq<Request>): (n: nat)
    requires |peak| == |count| == BUCKETS
  {
    Used(Peaks(peak, count, reqs), BUCKETS)
  }

  lemma DemandMore(peak: seq<nat>, count: seq<nat>, reqs: seq<Request>, k: nat)
    requires |peak| == |count| == BUCKETS && k <= |reqs|
    ensures Demand(peak, count, reqs[..k]) <= Demand(peak, count, reqs)
  {
    forall j: nat | j < BUCKETS ensures Peak(reqs[..k], j) <= Peak(reqs, j) { PeakMore(reqs, k, j); }
    UsedMore(Peaks(peak, count, reqs[..k]), Peaks(peak, count, reqs), BUCKETS);
  }

  /** The counters of a pool after requests, from what they were before. */
  ghost predicate Tallied(pool: Pool, reqs: seq<Request>, peak: seq<nat>, count: seq<nat>)
    reads pool
    requires |peak| == |count| == BUCKETS
  {
    && pool.maxCount == Peaks(peak, count, reqs) && |pool.count| == BUCKETS
    && forall j: nat {:trigger pool.count[j]} | j < BUCKETS :: pool.count[j] == count[j] + Count(Wants(reqs), InBucket(j))
  }

  /** The sizes of the regions a client has. */
  function SizesOf(live: seq<Region>): (ns: seq<nat>) {
    seq(|live|, i requires 0 <= i < |live| => live[i].n)
  }

  /** The pool before its last step, in which malloc ran past its end. */
  ghost predicate Overrun(pool: Pool, n: nat)
    reads pool
  {
    var span := Span(Size(Best(n)));
    && span <= pool.nextBlock <= pool.limit + span && pool.limit < pool.nextBlock
    && Sound(pool.hdr, pool.heads, pool.lists, pool.out, pool.count, pool.carved, pool.base, pool.nextBlock - span)
    && pool.heads[Best(n)] == 0
  }

  /** Serve requests one after another until malloc stops in BUG. Every reply is the one the request
      asks for; at every moment the client's regions lie apart; at the end they are the blocks
      outstanding beside those of others. The run stops if and only if the most blocks of each size there
      would be at a time do not fit the pool, and then at the first request with which they do not. */
  method Run(pool: Pool, reqs: seq<Request>) returns (rs: seq<Reply>, stopped: bool, ghost hist: seq<seq<Region>>)
    requires pool.Valid()
    modifies pool
    ensures Traces(hist, reqs, rs)
    ensures AllClear(hist, pool.base, pool.limit) && Owns(pool.hdr, pool.out, hist[|rs|], old(pool.out))
    ensures stopped <==> Demand(old(pool.maxCount), old(pool.count), reqs) > pool.limit - pool.base
    ensures Demand(old(pool.maxCount), old(pool.count), reqs[..|rs|]) <= pool.limit - pool.base
    ensures !stopped ==> |rs| == |reqs| && pool.Valid() && Tallied(pool, reqs, old(pool.maxCount), old(pool.count))
    ensures stopped ==> |rs| < |reqs| && reqs[|rs|].Ask? && reqs[|rs|].n <= MAX_ALLOC_SIZE && Overrun(pool, reqs[|rs|].n)
    ensures stopped ==> Demand(old(pool.maxCount), old(pool.count), reqs[..|rs| + 1]) > pool.limit - pool.base
  {
    ghost var others, peak, count := pool.out, pool.maxCount, pool.count;
    var live: seq<Region>, k := [], 0;
    rs, stopped, hist := [], false, [live];
    TalliedStart(pool);
    while k < |reqs| && !stopped
      invariant Replied(hist, reqs, rs, k, live, pool.base, pool.limit)
      invariant Stands(pool, live, others, reqs, k, stopped, peak, count)
      decreases |reqs| - k, !stopped
    {
      TakeOne(reqs, k);
      var r := Serve(pool, reqs[k], live, others, reqs[..k], reqs[..k + 1], peak, count);
      stopped := r.Bug?;
      if !stopped {
        RepliedMore(hist, reqs, rs, k, r, live, After(live, reqs[k], r), pool.base, pool.limit);
        live := After(live, reqs[k], r);
        rs, hist, k := rs + [r], hist + [live], k + 1;
      }
    }
    RunEnds(pool, live, others, reqs, k, stopped, peak, count);
  }

  /** The run after k requests; the next one stopped it, or it can go on. */
  ghost predicate Stands(pool: Pool, live: seq<Region>, others: set<nat>, reqs: seq<Request>, k: nat, stopped: bool,
                         peak: seq<nat>, count: seq<nat>)
    reads pool
    requires k <= |reqs| && |peak| == |count| == BUCKETS
  {
    if stopped then
      && k < |reqs| && reqs[k].Ask? && reqs[k].n <= MAX_ALLOC_SIZE && Overrun(pool, reqs[k].n)
      && Owns(pool.hdr, pool.out, live, others)
      && Demand(peak, count, reqs[..k]) <= pool.limit - pool.base < Demand(peak, count, reqs[..k + 1])
    else Client(pool, live, others, reqs[..k], peak, count)
  }

  lemma RunEnds(pool: Pool, live: seq<Region>, others: set<nat>, reqs: seq<Request>, k: nat, stopped: bool, peak: seq<nat>, count: seq<nat>)
    requires k <= |reqs| && |peak| == |count| == BUCKETS && Stands(pool, live, others, reqs, k, stopped, peak, count)
    requires stopped || k == |reqs|
    ensures stopped <==> Demand(peak, count, reqs) > pool.limit - pool.base
    ensures Demand(peak, count, reqs[..k]) <= pool.limit - pool.base
    ensures !stopped ==> pool.Valid() && Tallied(pool, reqs, peak, count)
  {
    if stopped { DemandMore(peak, count, reqs, k + 1); } else { assert reqs[..k] == reqs; }
  }

  /** Where a run of requests stands: what the client has is outstanding, and the counters tell the requests. */
  ghost predicate Client(pool: Pool, live: seq<Region>, others: set<nat>, done: seq<Request>, peak: seq<nat>, count: seq<nat>)
    reads pool
  {
    && pool.Valid() && Owns(pool.hdr, pool.out, live, others) && SizesOf(live) == Wants(done)
    && |peak| == |count| == BUCKETS && Tallied(pool, done, peak, count)
  }

  lemma TakeOne(reqs: seq<Request>, k: nat)
    requires k < |reqs|
    ensures reqs[..k + 1] == reqs[..k] + [reqs[k]]
  {
  }

  lemma TracesMore(hist: seq<seq<Region>>, reqs: seq<Request>, rs: seq<Reply>, r: Reply, live: seq<Region>)
    requires Traces(hist, reqs, rs) && |rs| < |reqs| && Answers(reqs[|rs|], r) && live == After(hist[|rs|], reqs[|rs|], r)
    ensures Traces(hist + [live], reqs, rs + [r])
  {
    var h, q := hist + [live], rs + [r];
    forall k | 0 <= k < |q| ensures Answers(reqs[k], q[k]) && h[k + 1] == After(h[k], reqs[k], q[k]) {
      if k < |rs| { assert Answers(reqs[k], rs[k]) && hist[k + 1] == After(hist[k], reqs[k], rs[k]); }
    }
  }

  /** k requests were answered, the last leaving the client with live, its regions clear all the time. */
  ghost predicate Replied(hist: seq<seq<Region>>, reqs: seq<Request>, rs: seq<Reply>, k: nat, live: seq<Region>, base: nat, limit: nat) {
    k == |rs| <= |reqs| && Traces(hist, reqs, rs) && hist[k] == live && AllClear(hist, base, limit)
  }

  lemma RepliedMore(hist: seq<seq<Region>>, reqs: seq<Request>, rs: seq<Reply>, k: nat, r: Reply,
                    live: seq<Region>, next: seq<Region>, base: nat, limit: nat)
    requires Replied(hist, reqs, rs, k, live, base, limit) && k < |reqs| && Answers(reqs[k], r)
    requires next == After(live, reqs[k], r) && Clear(next, base, limit)
    ensures Replied(hist + [next], reqs, rs + [r], k + 1, next, base, limit)
  {
    TracesMore(hist, reqs, rs, r, next);
  }

  ghost predicate AllClear(hist: seq<seq<Region>>, base: nat, limit: nat) {
    forall k {:trigger hist[k]} | 0 <= k < |hist| :: Clear(hist[k], base, limit)
  }

  lemma TalliedStart(pool: Pool)
    requires pool.Valid()
    ensures Tallied(pool, [], pool.maxCount, pool.count)
  {
    forall j: nat | j < BUCKETS ensures pool.count[j] <= pool.maxCount[j] && Count(Wants([]), InBucket(j)) == 0 {
      assert pool.maxCount[j] == pool.count[j] + |pool.lists[j]|;
    }
  }

  /** One request, after the requests done. */
  method Serve(pool: Pool, q: Request, live: seq<Region>, ghost others: set<nat>,
               ghost done: seq<Request>, ghost next: seq<Request>, ghost peak: seq<nat>, ghost count: seq<nat>)
    returns (r: Reply)
    requires Client(pool, live, others, done, peak, count) && next == done + [q]
    modifies pool
    ensures !r.Bug? ==> Answers(q, r) && Client(pool, After(live, q, r), others, next, peak, count)
    ensures !r.Bug? ==> Clear(After(live, q, r), pool.base, pool.limit)
    ensures r.Bug? ==> q.Ask? && q.n <= MAX_ALLOC_SIZE && Owns(pool.hdr, pool.out, live, others) && Overrun(pool, q.n)
    ensures r.Bug? ==> Demand(peak, count, done) <= pool.limit - pool.base < Demand(peak, count, next)
  {
    match q {
      case Ask(n) => r := ServeAsk(pool, n, live, others, done, next, peak, count);
      case Return(i) => ServeReturn(pool, i, live, others, done, next, peak, count); r := Done;
    }
    if !r.Bug? { ClientClear(pool, After(live, q, r), others); }
  }

  /** malloc for a client: what it then has, and what the counters do. */
  method AskOwned(pool: Pool, n: nat, live: seq<Region>, ghost others: set<nat>) returns (r: Reply)
    requires pool.Valid() && Owns(pool.hdr, pool.out, live, others)
    modifies pool
    ensures !r.Done? && (r.Null? <==> n > MAX_ALLOC_SIZE)
    ensures !r.Bug? ==> pool.Valid() && Owns(pool.hdr, pool.out, After(live, Ask(n), r), others)
    ensures r.Null? ==> pool.count == old(pool.count) && pool.maxCount == old(pool.maxCount)
    ensures r.Block? ==> pool.count == old(pool.count)[Best(n) := old(pool.count)[Best(n)] + 1]
    ensures r.Block? ==> pool.maxCount == Bumped(old(pool.maxCount), Best(n), pool.count[Best(n)])
    ensures r.Bug? ==> Owns(pool.hdr, pool.out, live, others) && Overrun(pool, n) && old(pool.lists)[Best(n)] == []
    ensures r.Bug? ==> pool.maxCount == old(pool.maxCount) && pool.nextBlock == old(pool.nextBlock) + Span(Size(Best(n)))
  {
    ghost var hdr, out := pool.hdr, pool.out;
    NoList(pool.hdr, pool.heads, pool.lists, pool.out, if n <= MAX_ALLOC_SIZE then Best(n) else 0);
    r := pool.Malloc(n);
    if r.Block? {
      OwnsMore(hdr, out, live, others, n, r.p, pool.hdr, pool.out);
    }
  }

  method ServeAsk(pool: Pool, n: nat, live: seq<Region>, ghost others: set<nat>,
                  ghost done: seq<Request>, ghost next: seq<Request>, ghost peak: seq<nat>, ghost count: seq<nat>)
    returns (r: Reply)
    requires Client(pool, live, others, done, peak, count) && next == done + [Ask(n)]
    modifies pool
    ensures !r.Done? && (!r.Bug? ==> Answers(Ask(n), r) && Client(pool, After(live, Ask(n), r), others, next, peak, count))
    ensures r.Bug? ==> n <= MAX_ALLOC_SIZE && Owns(pool.hdr, pool.out, live, others) && Overrun(pool, n)
    ensures r.Bug? ==> Demand(peak, count, done) <= pool.limit - pool.base < Demand(peak, count, next)
  {
    ghost var lists, tally, m := pool.lists, pool.count, pool.maxCount;
    r := AskOwned(pool, n, live, others);
    AskWants(live, done, n, next, r);
    if r.Null? {
      NullTallied(pool, done, n, next, peak, count);
    } else if r.Block? {
      AskTallied(pool, tally, done, n, next, peak, count);
    } else {
      BugDemand(tally, lists, m, done, n, next, peak, count);
    }
  }

  lemma AskWants(live: seq<Region>, done: seq<Request>, n: nat, next: seq<Request>, r: Reply)
    requires SizesOf(live) == Wants(done) && next == done + [Ask(n)] && (r.Null? <==> n > MAX_ALLOC_SIZE) && !r.Done?
    ensures !r.Bug? ==> SizesOf(After(live, Ask(n), r)) == Wants(next)
  {
    assert next[..|done|] == done;
    if r.Block? { assert SizesOf(live + [Region(r.p, n)]) == SizesOf(live) + [n]; }
  }

  lemma NullTallied(pool: Pool, done: seq<Request>, n: nat, next: seq<Request>, peak: seq<nat>, count: seq<nat>)
    requires |peak| == |count| == BUCKETS && n > MAX_ALLOC_SIZE && Tallied(pool, done, peak, count) && next == done + [Ask(n)]
    ensures Tallied(pool, next, peak, count)
  {
    assert next[..|done|] == done;
    PeaksStep(peak, count, done, Ask(n), next);
  }

  /** Where malloc stops, the blocks of that size are all outstanding, and one more would not fit. */
  lemma BugDemand(tally: seq<nat>, lists: seq<seq<nat>>, maxCount: seq<nat>, done: seq<Request>, n: nat, next: seq<Request>,
                  peak: seq<nat>, count: seq<nat>)
    requires |peak| == |count| == BUCKETS && n <= MAX_ALLOC_SIZE && next == done + [Ask(n)] && Peaked(tally, lists, maxCount)
    requires lists[Best(n)] == [] && maxCount == Peaks(peak, count, done)
    requires tally[Best(n)] == count[Best(n)] + Count(Wants(done), InBucket(Best(n)))
    ensures Demand(peak, count, done) == Used(maxCount, BUCKETS)
    ensures Demand(peak, count, next) == Used(maxCount, BUCKETS) + Span(Size(Best(n)))
  {
    var j := Best(n);
    PeaksStep(peak, count, done, Ask(n), next);
    assert maxCount[j] == tally[j] + |lists[j]|;
    UsedOne(maxCount, j, BUCKETS);
  }

  method ServeReturn(pool: Pool, i: nat, live: seq<Region>, ghost others: set<nat>,
                     ghost done: seq<Request>, ghost next: seq<Request>, ghost peak: seq<nat>, ghost count: seq<nat>)
    requires Client(pool, live, others, done, peak, count) && next == done + [Return(i)]
    modifies pool
    ensures Client(pool, After(live, Return(i), Done), others, next, peak, count)
  {
    ghost var hdr, out, tally := pool.hdr, pool.out, pool.count;
    ReturnWants(live, done, i, next);
    if i < |live| {
      assert Owned(hdr, out, live[i].p, live[i].n);
      pool.Free(live[i].p);
      OwnsLess(hdr, out, live, others, i, pool.hdr);
      ReturnTallied(pool, tally, done, i, Best(live[i].n), next, peak, count);
    } else {
      PeaksStep(peak, count, done, Return(i), next);
    }
  }

  lemma ReturnWants(live: seq<Region>, done: seq<Request>, i: nat, next: seq<Request>)
    requires SizesOf(live) == Wants(done) && next == done + [Return(i)]
    ensures SizesOf(After(live, Return(i), Done)) == Wants(next) && |live| == |Wants(done)|
    ensures i < |live| ==> Wants(done)[i] == live[i].n
    ensures i >= |live| ==> Wants(next) == Wants(done)
  {
    assert next[..|done|] == done;
    if i < |live| {
      assert SizesOf(live)[i] == live[i].n;
      assert SizesOf(live[..i] + live[i + 1..]) == SizesOf(live)[..i] + SizesOf(live)[i + 1..];
    }
  }

  lemma AskTallied(pool: Pool, tally: seq<nat>, done: seq<Request>, n: nat, next: seq<Request>, peak: seq<nat>, count: seq<nat>)
    requires |peak| == |count| == |tally| == BUCKETS && n <= MAX_ALLOC_SIZE && pool.count == tally[Best(n) := tally[Best(n)] + 1]
    requires forall j: nat {:trigger tally[j]} | j < BUCKETS :: tally[j] == count[j] + Count(Wants(done), InBucket(j))
    requires pool.maxCount == Bumped(Peaks(peak, count, done), Best(n), pool.count[Best(n)]) && next == done + [Ask(n)]
    ensures Tallied(pool, next, peak, count)
  {
    assert next[..|done|] == done;
    PeaksStep(peak, count, done, Ask(n), next);
    forall j: nat | j < BUCKETS ensures pool.count[j] == count[j] + Count(Wants(next), InBucket(j)) {
      assert tally[j] == count[j] + Count(Wants(done), InBucket(j));
      ThenCounts(Wants(done), Ask(n), j);
    }
  }

  lemma ReturnTallied(pool: Pool, tally: seq<nat>, done: seq<Request>, i: nat, k: nat, next: seq<Request>, peak: seq<nat>, count: seq<nat>)
    requires |peak| == |count| == |tally| == BUCKETS && i < |Wants(done)| && k == Best(Wants(done)[i]) < BUCKETS
    requires tally[k] > 0 && pool.count == tally[k := tally[k] - 1] && pool.maxCount == Peaks(peak, count, done) && next == done + [Return(i)]
    requires forall j: nat {:trigger tally[j]} | j < BUCKETS :: tally[j] == count[j] + Count(Wants(done), InBucket(j))
    ensures Tallied(pool, next, peak, count)
  {
    assert next[..|done|] == done;
    PeaksStep(peak, count, done, Return(i), next);
    forall j: nat | j < BUCKETS ensures pool.count[j] == count[j] + Count(Wants(next), InBucket(j)) {
      assert tally[j] == count[j] + Count(Wants(done), InBucket(j));
      ThenCounts(Wants(done), Return(i), j);
    }
  }

  /** On a new pool the demand is what the peaks of the requests alone take. */
  lemma FreshDemand(pool: Pool, reqs: seq<Request>)
    requires pool.maxCount == pool.count == seq(BUCKETS, _ => 0)
    ensures Demand(pool.maxCount, pool.count, reqs) == Used(seq(BUCKETS, j requires 0 <= j < BUCKETS => Peak(reqs, j)), BUCKETS)
  {
    assert Peaks(pool.maxCount, pool.count, reqs) == seq(BUCKETS, j requires 0 <= j < BUCKETS => Peak(reqs, j));
  }

  lemma ClientClear(pool: Pool, live: seq<Region>, others: set<nat>)
    requires pool.Valid() && Owns(pool.hdr, pool.out, live, others)
    ensures Clear(live, pool.base, pool.limit)
  {
    forall i | 0 <= i < |live|
      ensures live[i].p % BLOCK_ALIGN == 0 && pool.base <= live[i].p && live[i].p + live[i].n <= pool.limit
    {
      pool.Separate(live[i].p, live[i].n, live[i].p, live[i].n);
    }
    forall i, j | 0 <= i < j < |live| ensures Disjoint(live[i].p, live[i].n, live[j].p, live[j].n) {
      pool.Separate(live[i].p, live[i].n, live[j].p, live[j].n);
    }
  }
}
