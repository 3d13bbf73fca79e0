/** Pipes: a ring of bytes behind two wrapping 32-bit counters, and the threads that sleep on it. */
module Pipe {
  import opened Blocks
  import opened Rings

  const PIPESIZE := 512
  const UINT := 0x1_0000_0000

  /** What a pipe holds, without the ring: all bytes ever put in, and how many of them were taken out. */
  datatype Queue = Queue(put: seq<Byte>, got: nat, readopen: bool, writeopen: bool)

  /** At most PIPESIZE bytes are under way. */
  predicate Bounded(q: Queue) {
    q.got <= |q.put| <= q.got + PIPESIZE
  }

  predicate Empty(q: Queue) { |q.put| == q.got }

  predicate Full(q: Queue) { |q.put| == q.got + PIPESIZE }

  /** How a stretch of pipewrite or piperead under the lock ends: with -1, asleep, or with a count. */
  datatype End = Failed | Slept | Returned(n: int)

  /** pipewrite from byte i of src on, until it lets go of the lock at byte j: the bytes between are
      appended. It fails when the read end is closed, or when it finds its thread killed; it sleeps when
      the pipe is full; it returns at the end of src, or where a byte cannot be copied in. */
  ghost predicate Writes(q: Queue, src: seq<Byte>, i: nat, e: End, j: nat, r: Queue) {
    && i <= j <= |src| && r == q.(put := q.put + src[i..j]) && Bounded(r)
    && match e
       case Failed => j < |src| && (q.readopen || j == i)
       case Slept => j < |src| && q.readopen && Full(r)
       case Returned(n) => n == j && (j < |src| ==> q.readopen && !Full(r)) && (i < j ==> q.readopen)
  }

  /** piperead of up to n bytes, until it lets go of the lock: k bytes are taken out, the oldest, and
      all of them delivered as out, but for a last one that cannot be copied out and is lost. It sleeps,
      or fails if its thread is killed, while the pipe is empty and the write end open. */
  ghost predicate Reads(q: Queue, n: int, e: End, k: nat, out: seq<Byte>, r: Queue) {
    && r == q.(got := q.got + k) && Bounded(r) && (|out| == k || |out| == k - 1)
    && q.got + |out| <= |q.put| && out == q.put[q.got..q.got + |out|]
    && if Empty(q) && q.writeopen then k == 0 && !e.Returned?
       else e.Returned? && k <= (if n > 0 then n else 0) && e.n == |out|
            && (|out| == k ==> k == (if n > 0 then n else 0) || Empty(r))
  }

  /** ok holds of all numbers from a to b, without b. */
  ghost predicate All(ok: nat -> bool, a: nat, b: nat) {
    forall j: nat {:trigger ok(j)} | a <= j < b :: ok(j)
  }

  lemma Tick(n: nat)
    ensures (n % UINT + 1) % UINT == (n + 1) % UINT
  {
  }

  /** The counters tell full and empty from each other even after they wrap, and give the place in
      the ring, because PIPESIZE divides 2^32. */
  lemma Counters(got: nat, put: nat)
    requires got <= put <= got + PIPESIZE
    ensures put % UINT == (got % UINT + PIPESIZE) % UINT <==> put == got + PIPESIZE
    ensures got % UINT == put % UINT <==> put == got
    ensures put % UINT % PIPESIZE == put % PIPESIZE && got % UINT % PIPESIZE == got % PIPESIZE
  {
    Apart(got, put);
    Place(got);
    Place(put);
  }

  lemma Apart(got: nat, put: nat)
    requires got <= put <= got + PIPESIZE
    ensures put % UINT == (got % UINT + PIPESIZE) % UINT <==> put == got + PIPESIZE
    ensures got % UINT == put % UINT <==> put == got
  {
  }

  lemma Place(n: nat)
    ensures n % UINT % PIPESIZE == n % PIPESIZE
  {
  }

  lemma Further(put: seq<Byte>, from: nat, at: nat, out: seq<Byte>)
    requires from <= at < |put| && out == put[from..at]
    ensures out + [put[at]] == put[from..at + 1]
  {
  }

  /** The ring of a pipe and its counters. */
  class Ring {
    var data: array<Byte>
    var nread: nat
    var nwrite: nat
    var readopen: bool
    var writeopen: bool
    ghost var q: Queue

    /** The counters are those of the queue, modulo 2^32, and the bytes under way stand in the ring. */
    ghost predicate Valid()
      reads this, data
    {
      && Bounded(q) && Carries(data[..], PIPESIZE, q.put, q.got)
      && q.readopen == readopen && q.writeopen == writeopen
      && nread == q.got % UINT && nwrite == |q.put| % UINT
    }

    /** pipealloc. */
    constructor ()
      ensures Valid() && fresh(data) && q == Queue([], 0, true, true)
    {
      data := new Byte[PIPESIZE];
      nread, nwrite, readopen, writeopen := 0, 0, true, true;
      q := Queue([], 0, true, true);
    }

    method Put(ch: Byte)
      requires Valid() && !Full(q)
      modifies this`nwrite, this`q, data
      ensures Valid() && q == old(q).(put := old(q).put + [ch])
    {
      Counters(q.got, |q.put|);
      Appends(data[..], PIPESIZE, q.put, q.got, ch);
      Tick(|q.put|);
      data[nwrite % PIPESIZE] := ch;
      nwrite := (nwrite + 1) % UINT;
      q := q.(put := q.put + [ch]);
    }

    method Get() returns (ch: Byte)
      requires Valid() && !Empty(q)
      modifies this`nread, this`q
      ensures Valid() && q == old(q).(got := old(q).got + 1) && ch == q.put[old(q).got]
    {
      Counters(q.got, |q.put|);
      Tick(q.got);
      assert data[..][q.got % PIPESIZE] == q.put[q.got];
      ch := data[nread % PIPESIZE];
      nread := (nread + 1) % UINT;
      q := q.(got := q.got + 1);
    }

    /** A stretch of pipewrite under the lock, from byte i on. killed(j) tells whether the thread finds
        itself killed before byte j, ok(j) whether byte j can be copied in. */
    method Write(src: seq<Byte>, i: nat, killed: nat -> bool, ok: nat -> bool) returns (e: End, j: nat)
      requires Valid() && i <= |src|
      modifies this`nwrite, this`q, data
      ensures Valid() && Writes(old(q), src, i, e, j, q)
      ensures e.Failed? <==> j < |src| && (!readopen || killed(j))
      ensures (e.Returned? && j < |src| ==> !ok(j)) && All(ok, i, j) && All((m: nat) => !killed(m), i, j)
    {
      j := i;
      assert src[i..i] == [] && q.put + [] == q.put;
      while j < |src|
        invariant Valid() && i <= j <= |src| && q == old(q).(put := old(q).put + src[i..j]) && (i < j ==> readopen)
        invariant All(ok, i, j) && All((m: nat) => !killed(m), i, j)
      {
        if !readopen || killed(j) {
          return Failed, j;
        }
        Counters(q.got, |q.put|);
        if nwrite == (nread + PIPESIZE) % UINT {
          return Slept, j;
        }
        if !ok(j) {
          break;
        }
        Put(src[j]);
        assert src[i..j] + [src[j]] == src[i..j + 1];
        assert old(q).put + src[i..j] + [src[j]] == old(q).put + src[i..j + 1];
        j := j + 1;
      }
      e := Returned(j);
    }

    /** One turn of piperead's copy loop: the oldest byte is taken out, and delivered behind out if it can be. */
    method CopyNext(out: seq<Byte>, ok: bool, ghost from: nat) returns (more: seq<Byte>)
      requires Valid() && !Empty(q) && from <= q.got && out == q.put[from..q.got]
      modifies this`nread, this`q
      ensures Valid() && q == old(q).(got := old(q).got + 1)
      ensures more == if ok then q.put[from..q.got] else out
    {
      ghost var at := q.got;
      var ch := Get();
      Further(q.put, from, at, out);
      more := if ok then out + [ch] else out;
    }

    /** piperead's copy loop. */
    method Copy(n: int, ok: nat -> bool) returns (out: seq<Byte>, ghost k: nat)
      requires Valid()
      modifies this`nread, this`q
      ensures Valid() && q == old(q).(got := old(q).got + k) && k <= (if n > 0 then n else 0)
      ensures |out| == k || (|out| == k - 1 && !ok(|out|))
      ensures |out| == k ==> k == (if n > 0 then n else 0) || Empty(q)
      ensures out == q.put[old(q).got..old(q).got + |out|] && All(ok, 0, |out|)
    {
      ghost var from := q.got;
      out, k := [], 0;
      while |out| < n
        invariant Valid() && k == |out| && q == old(q).(got := from + k) && k <= (if n > 0 then n else 0)
        invariant out == q.put[from..q.got] && All(ok, 0, |out|)
        decreases n - |out|
      {
        Counters(q.got, |q.put|);
        if nread == nwrite {
          return;
        }
        k := k + 1;
        var good := ok(|out|);
        out := CopyNext(out, good, from);
        if !good {
          return;
        }
      }
    }

    /** A stretch of piperead under the lock. out are the bytes delivered; when one cannot be copied
        out, it is lost. */
    method Read(n: int, killed: bool, ok: nat -> bool) returns (e: End, out: seq<Byte>, ghost k: nat)
      requires Valid()
      modifies this`nread, this`q
      ensures Valid() && Reads(old(q), n, e, k, out, q)
      ensures !e.Returned? ==> (e.Failed? <==> killed)
      ensures All(ok, 0, |out|) && (|out| != k ==> !ok(|out|))
    {
      Counters(q.got, |q.put|);
      if nread == nwrite && writeopen {
        return if killed then Failed else Slept, [], 0;
      }
      out, k := Copy(n, ok);
      e := Returned(|out|);
    }

    /** pipeclose. */
    method Close(writable: bool)
      requires Valid()
      modifies this`readopen, this`writeopen, this`q
      ensures Valid() && q == if writable then old(q).(writeopen := false) else old(q).(readopen := false)
    {
      if writable {
        writeopen, q := false, q.(writeopen := false);
      } else {
        readopen, q := false, q.(readopen := false);
      }
    }
  }

  /** A thread at a pipe: ready to run a stretch of pipewrite or piperead, or asleep in one. */
  datatype Pc = Idle | Writer(src: seq<Byte>, i: nat) | Reader(n: int) | AsleepW(src: seq<Byte>, i: nat) | AsleepR(n: int)

  /** log are the bytes readers received, in order; lost the positions in the stream of those that could
      not be copied out. */
  datatype State = State(q: Queue, pcs: seq<Pc>, log: seq<Byte>, lost: set<nat>)

  datatype Event =
    | Begin(t: nat, pc: Pc)
    | Write(t: nat, e: End, j: nat)
    | Read(t: nat, e: End, k: nat, out: seq<Byte>)
    | Close(writable: bool)
    | Kill(t: nat)

  function WakeR(pc: Pc): (r: Pc) { if pc.AsleepR? then Reader(pc.n) else pc }

  function WakeW(pc: Pc): (r: Pc) { if pc.AsleepW? then Writer(pc.src, pc.i) else pc }

  /** wakeup of all sleeping readers, or of all sleeping writers. */
  ghost function WakeReaders(pcs: seq<Pc>): (r: seq<Pc>)
    ensures |r| == |pcs| && forall t | 0 <= t < |pcs| :: r[t] == WakeR(pcs[t])
  {
    seq(|pcs|, t requires 0 <= t < |pcs| => WakeR(pcs[t]))
  }

  ghost function WakeWriters(pcs: seq<Pc>): (r: seq<Pc>)
    ensures |r| == |pcs| && forall t | 0 <= t < |pcs| :: r[t] == WakeW(pcs[t])
  {
    seq(|pcs|, t requires 0 <= t < |pcs| => WakeW(pcs[t]))
  }

  /** Each step is one stretch under the lock, or a kill, which wakes its thread. */
  ghost predicate Next(s: State, v: Event, r: State) {
    match v
    case Begin(t, pc) =>
      t < |s.pcs| && s.pcs[t].Idle? && ((pc.Writer? && pc.i == 0) || pc.Reader?) && r == s.(pcs := s.pcs[t := pc])
    case Write(t, e, j) =>
      && t < |s.pcs| && s.pcs[t].Writer? && Writes(s.q, s.pcs[t].src, s.pcs[t].i, e, j, r.q)
      && r == s.(q := r.q, pcs :=
           (if e.Failed? then s.pcs else WakeReaders(s.pcs))[t := if e.Slept? then AsleepW(s.pcs[t].src, j) else Idle])
    case Read(t, e, k, out) =>
      && t < |s.pcs| && s.pcs[t].Reader? && Reads(s.q, s.pcs[t].n, e, k, out, r.q)
      && r == s.(q := r.q, log := s.log + out, lost := s.lost + (if |out| < k then {s.q.got + |out|} else {}), pcs :=
           (if e.Returned? then WakeWriters(s.pcs) else s.pcs)[t := if e.Slept? then AsleepR(s.pcs[t].n) else Idle])
    case Close(writable) =>
      r == s.(q := if writable then s.q.(writeopen := false) else s.q.(readopen := false),
              pcs := if writable then WakeReaders(s.pcs) else WakeWriters(s.pcs))
    case Kill(t) =>
      t < |s.pcs| && r == s.(pcs := s.pcs[t := WakeR(WakeW(s.pcs[t]))])
  }

  /** No sleeper is stranded: readers sleep only at an empty pipe that can still be written, writers
      only at a full one that can still be read. */
  ghost predicate ReadersOk(s: State) {
    forall t {:trigger s.pcs[t]} | 0 <= t < |s.pcs| && s.pcs[t].AsleepR? :: Empty(s.q) && s.q.writeopen
  }

  ghost predicate WritersOk(s: State) {
    forall t {:trigger s.pcs[t]} | 0 <= t < |s.pcs| && s.pcs[t].AsleepW? :: Full(s.q) && s.q.readopen
  }

  /** What readers received is what was put in, in order, without the lost bytes. */
  ghost predicate Delivered(s: State) {
    && s.q.got <= |s.q.put| && (forall p | p in s.lost :: p < s.q.got)
    && s.log == Keep(s.q.put[..s.q.got], s.lost)
  }

  ghost predicate Inv(s: State) {
    Bounded(s.q) && WritersOk(s) && Delivered(s)
  }

  /** A write that put bytes in, found its thread killed and left without waking the readers. */
  ghost predicate PartWay(s: State, v: Event) {
    v.Write? && v.e.Failed? && v.t < |s.pcs| && s.pcs[v.t].Writer? && s.pcs[v.t].i < v.j
  }

  ghost predicate SomeReaderAsleep(s: State) {
    exists t :: 0 <= t < |s.pcs| && s.pcs[t].AsleepR?
  }

  lemma NextWriters(s: State, v: Event, r: State)
    requires Bounded(s.q) && WritersOk(s) && Next(s, v, r)
    ensures Bounded(r.q) && WritersOk(r)
  {
  }

  lemma NextDelivered(s: State, v: Event, r: State)
    requires Delivered(s) && Next(s, v, r)
    ensures Delivered(r)
  {
    if v.Read? {
      var q, a, b := s.q, s.q.got, s.q.got + |v.out|;
      var rest := q.put[b..r.q.got];
      assert q.put[..a] + v.out + rest == r.q.put[..r.q.got];
      KeepStretch(q.put[..a], v.out, rest, s.lost, r.lost);
    } else {
      assert r.q.put[..r.q.got] == s.q.put[..s.q.got];
    }
  }

  lemma NextInv(s: State, v: Event, r: State)
    requires Inv(s) && Next(s, v, r)
    ensures Inv(r)
  {
    NextWriters(s, v, r);
    NextDelivered(s, v, r);
  }

  /** A step strands the readers exactly when it is a write killed part way while one of them sleeps. */
  lemma StrandedIff(s: State, v: Event, r: State)
    requires Inv(s) && ReadersOk(s) && Next(s, v, r)
    ensures !ReadersOk(r) <==> PartWay(s, v) && SomeReaderAsleep(s)
  {
    if PartWay(s, v) && SomeReaderAsleep(s) {
      var t :| 0 <= t < |s.pcs| && s.pcs[t].AsleepR?;
      assert r.pcs[t].AsleepR?;
    }
  }

  /** A run from an empty pipe with both ends open: states ss, and the steps vs between them. */
  ghost predicate Run(ss: seq<State>, vs: seq<Event>) {
    && |ss| == |vs| + 1 && ss[0].q == Queue([], 0, true, true) && ss[0].log == [] && ss[0].lost == {}
    && (forall t | 0 <= t < |ss[0].pcs| :: ss[0].pcs[t].Idle?)
    && forall n {:trigger vs[n]} | 0 <= n < |vs| :: Next(ss[n], vs[n], ss[n + 1])
  }

  /** In every run readers receive the bytes put in, in order, each once, without the ones lost to failed
      copies; at most PIPESIZE are under way; and writers are never stranded. */
  lemma {:induction false} RunInv(ss: seq<State>, vs: seq<Event>, n: nat)
    requires Run(ss, vs) && n < |ss|
    ensures Inv(ss[n])
  {
    if n > 0 {
      RunInv(ss, vs, n - 1);
      assert Next(ss[n - 1], vs[n - 1], ss[n]);
      NextInv(ss[n - 1], vs[n - 1], ss[n]);
    }
  }

  /** When no copy has failed, what readers received is exactly the stream up to here. */
  lemma NothingLost(ss: seq<State>, vs: seq<Event>, n: nat)
    requires Run(ss, vs) && n < |ss| && ss[n].lost == {}
    ensures ss[n].q.got <= |ss[n].q.put| && ss[n].log == ss[n].q.put[..ss[n].q.got]
  {
    RunInv(ss, vs, n);
    KeepMore([], ss[n].q.put[..ss[n].q.got], {});
    assert [] + ss[n].q.put[..ss[n].q.got] == ss[n].q.put[..ss[n].q.got];
  }

  /** Bytes once put in or taken out stay so: the stream only grows. */
  lemma {:induction false} RunGrows(ss: seq<State>, vs: seq<Event>, m: nat, n: nat)
    requires Run(ss, vs) && m <= n < |ss|
    ensures ss[m].q.put <= ss[n].q.put && ss[m].q.got <= ss[n].q.got
  {
    if m < n {
      RunGrows(ss, vs, m, n - 1);
      assert Next(ss[n - 1], vs[n - 1], ss[n]);
    }
  }

  /** Step n is a write killed part way while a reader sleeps. */
  ghost predicate Strands(ss: seq<State>, vs: seq<Event>, n: nat) {
    n < |vs| && n < |ss| && PartWay(ss[n], vs[n]) && SomeReaderAsleep(ss[n])
  }

  /** In every run no reader is ever stranded, up to the first write killed part way while a reader
      sleeps; and that write strands it. */
  lemma {:induction false} RunReaders(ss: seq<State>, vs: seq<Event>, n: nat)
    requires Run(ss, vs) && n < |ss| && forall m: nat {:trigger Strands(ss, vs, m)} | m + 1 < n :: !Strands(ss, vs, m)
    ensures n == 0 ==> ReadersOk(ss[n])
    ensures n > 0 ==> (ReadersOk(ss[n]) <==> !Strands(ss, vs, n - 1))
  {
    if n > 0 {
      RunReaders(ss, vs, n - 1);
      RunInv(ss, vs, n - 1);
      assert Next(ss[n - 1], vs[n - 1], ss[n]);
      assert n > 1 ==> !Strands(ss, vs, n - 2);
      StrandedIff(ss[n - 1], vs[n - 1], ss[n]);
    }
  }

  /** While nobody is stranded, a reader and a writer never sleep at the same time. */
  lemma NeverBoth(s: State, t: nat, u: nat)
    requires Inv(s) && ReadersOk(s) && t < |s.pcs| && u < |s.pcs|
    ensures !(s.pcs[t].AsleepR? && s.pcs[u].AsleepW?)
  {
  }

  /** Readers do get stranded: one sleeps at the empty pipe, a writer puts a byte in and is killed, and
      the reader sleeps on with a byte to read. */
  lemma StrandedRun() returns (ss: seq<State>, vs: seq<Event>)
    ensures Run(ss, vs) && var s := ss[|vs|]; |s.pcs| == 2 && s.pcs[0].AsleepR? && s.pcs[1].Idle? && !Empty(s.q)
  {
    var q0, q1 := Queue([], 0, true, true), Queue([7], 0, true, true);
    var w := Writer([7, 8], 0);
    var s0 := State(q0, [Idle, Idle], [], {});
    var s1, s2 := s0.(pcs := [Reader(1), Idle]), s0.(pcs := [AsleepR(1), Idle]);
    var s3, s4 := s0.(pcs := [AsleepR(1), w]), State(q1, [AsleepR(1), Idle], [], {});
    vs := [Begin(0, Reader(1)), Read(0, Slept, 0, []), Begin(1, w), Write(1, Failed, 1)];
    ss := [s0, s1, s2, s3, s4];
    assert [] + [7, 8][0..1] == [7];
    assert Next(s0, vs[0], s1) && Next(s1, vs[1], s2) && Next(s2, vs[2], s3) && Next(s3, vs[3], s4);
  }
}
