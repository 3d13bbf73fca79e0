/** Console input: a ring with three indices that behaves as a queue of committed bytes and a line
    still being edited. */
module Console {
  import opened Blocks
  import opened Rings

  const INPUT_BUF_SIZE := 128
  const UINT := 0x1_0000_0000

  const CTRL_D: Byte := 4
  const CTRL_H: Byte := 8
  const NEWLINE: Byte := 10
  const RETURN: Byte := 13
  const CTRL_P: Byte := 16
  const CTRL_U: Byte := 21
  const DELETE: Byte := 127

  /** All bytes ever committed, how many of them were consumed, and the line being edited. */
  datatype Tty = Tty(sent: seq<Byte>, taken: nat, line: seq<Byte>)

  predicate EndsLine(c: Byte) { c == NEWLINE || c == CTRL_D }

  function Used(s: Tty): (n: int) { |s.sent| - s.taken + |s.line| }

  /** Committed bytes are taken in order; the line holds no newline and no ^D; it all fits the ring, and
      a full ring has been committed. */
  predicate Inv(s: Tty) {
    && s.taken <= |s.sent| && Used(s) <= INPUT_BUF_SIZE
    && (Used(s) == INPUT_BUF_SIZE ==> s.line == [])
    && forall c | c in s.line :: !EndsLine(c)
  }

  /** What typing c does. */
  function Typed(s: Tty, c: Byte): (r: Tty) {
    if c == CTRL_P then s
    else if c == CTRL_U then s.(line := [])
    else if c == CTRL_H || c == DELETE then s.(line := if |s.line| > 0 then s.line[..|s.line| - 1] else [])
    else if c == 0 || Used(s) >= INPUT_BUF_SIZE then s
    else
      var d := if c == RETURN then NEWLINE else c;
      if EndsLine(d) || Used(s) + 1 == INPUT_BUF_SIZE
      then s.(sent := s.sent + s.line + [d], line := [])
      else s.(line := s.line + [d])
  }

  /** Typing keeps the invariant, never changes a committed byte and never takes one. */
  lemma TypedInv(s: Tty, c: Byte)
    requires Inv(s)
    ensures Inv(Typed(s, c)) && s.sent <= Typed(s, c).sent && Typed(s, c).taken == s.taken
  {
  }

  /** A full ring can be read. */
  lemma FullReadable(s: Tty)
    requires Inv(s) && Used(s) == INPUT_BUF_SIZE
    ensures s.taken < |s.sent|
  {
  }

  /** A byte that is neither a command nor the end of a line. */
  predicate Plain(c: Byte) {
    c != 0 && c != CTRL_P && c != CTRL_U && c != CTRL_H && c != DELETE && c != RETURN && !EndsLine(c)
  }

  function TypedAll(s: Tty, cs: seq<Byte>): (r: Tty)
    decreases |cs|
  {
    if |cs| == 0 then s else TypedAll(Typed(s, cs[0]), cs[1..])
  }

  /** Plain bytes collect in the line as long as there is room. */
  lemma {:induction false} Collects(s: Tty, cs: seq<Byte>)
    requires Inv(s) && Used(s) + |cs| < INPUT_BUF_SIZE && forall c | c in cs :: Plain(c)
    ensures TypedAll(s, cs) == s.(line := s.line + cs)
    decreases |cs|
  {
    if |cs| > 0 {
      TypedInv(s, cs[0]);
      assert Plain(cs[0]) && Typed(s, cs[0]) == s.(line := s.line + [cs[0]]);
      Collects(Typed(s, cs[0]), cs[1..]);
      assert s.line + [cs[0]] + cs[1..] == s.line + cs;
    } else {
      assert s.line + [] == s.line;
    }
  }

  /** A key that edits the line, or does nothing: no key that ends it. */
  predicate Edits(c: Byte) {
    c != 10 && c != 13 && c != 4
  }

  /** What keys leave in an empty line, read from the last one back, when the last n bytes before them are to be erased:
      8 and 127 erase one byte, 21 all, 16 and 0 are nothing, and every other key is itself. */
  function Remains(keys: seq<Byte>, n: nat): (line: seq<Byte>)
    decreases |keys|
  {
    if |keys| == 0 then []
    else
      var c, rest := keys[|keys| - 1], keys[..|keys| - 1];
      if c == 21 then []
      else if c == 8 || c == 127 then Remains(rest, n + 1)
      else if c == 16 || c == 0 then Remains(rest, n)
      else if n > 0 then Remains(rest, n - 1)
      else Remains(rest, 0) + [c]
  }

  /** line without its last n bytes. */
  function Without(line: seq<Byte>, n: nat): (r: seq<Byte>) {
    if n < |line| then line[..|line| - n] else []
  }

  lemma {:induction false} RemainsLess(keys: seq<Byte>, n: nat)
    ensures Remains(keys, n) == Without(Remains(keys, 0), n) && |Remains(keys, n)| <= |keys|
    decreases |keys|
  {
    if |keys| > 0 {
      var c, rest := keys[|keys| - 1], keys[..|keys| - 1];
      RemainsLess(rest, n);
      RemainsLess(rest, n + 1);
      RemainsLess(rest, 1);
      RemainsLess(rest, 0);
      if n > 0 { RemainsLess(rest, n - 1); }
    }
  }

  lemma {:induction false} TypedLast(s: Tty, keys: seq<Byte>, c: Byte)
    ensures TypedAll(s, keys + [c]) == Typed(TypedAll(s, keys), c)
    decreases |keys|
  {
    if |keys| == 0 {
      assert (keys + [c])[1..] == [];
    } else {
      assert (keys + [c])[1..] == keys[1..] + [c];
      TypedLast(Typed(s, keys[0]), keys[1..], c);
    }
  }

  /** Typing any keys that end no line, with room for them all, leaves in the line what Remains says. */
  lemma {:induction false} LineEdited(s: Tty, keys: seq<Byte>)
    requires Inv(s) && s.line == [] && Used(s) + |keys| < 128 && forall c | c in keys :: Edits(c)
    ensures TypedAll(s, keys) == s.(line := Remains(keys, 0))
    decreases |keys|
  {
    if |keys| > 0 {
      var c, rest := keys[|keys| - 1], keys[..|keys| - 1];
      assert c in keys && forall d | d in rest :: d in keys;
      LineEdited(s, rest);
      TypedLast(s, rest, c);
      assert rest + [c] == keys;
      RemainsLess(rest, 0);
      RemainsLess(rest, 1);
    }
  }

  /** And a newline, a return or ^D then commits it, with a newline or ^D behind it. */
  lemma LineCommitted(s: Tty, keys: seq<Byte>, c: Byte)
    requires Inv(s) && s.line == [] && Used(s) + |keys| < 128 && (forall c | c in keys :: Edits(c)) && !Edits(c)
    ensures TypedAll(s, keys + [c]) == s.(sent := s.sent + Remains(keys, 0) + [if c == 4 then 4 else 10], line := [])
  {
    LineEdited(s, keys);
    RemainsLess(keys, 0);
    TypedLast(s, keys, c);
  }

  /** A full ring takes no key. */
  lemma FullIgnores(s: Tty, c: Byte)
    requires Inv(s) && Used(s) == 128
    ensures Typed(s, c) == s
  {
    assert s.line == [];
  }

  /** Kill line gives back the state that plain bytes were typed in. */
  lemma LineKilled(s: Tty, keys: seq<Byte>)
    requires Inv(s) && s.line == [] && Used(s) + |keys| + 1 < 128 && forall c | c in keys :: Edits(c)
    ensures TypedAll(s, keys + [21]) == s
  {
    LineEdited(s, keys + [21]);
  }

  /** Backspace undoes a plain byte exactly unless that byte filled the ring and so was committed. */
  lemma Rubout(s: Tty, c: Byte)
    requires Inv(s) && Plain(c)
    ensures Typed(Typed(s, c), CTRL_H) == s <==> Used(s) + 1 != INPUT_BUF_SIZE
  {
    if Used(s) + 1 < INPUT_BUF_SIZE {
      assert (s.line + [c])[..|s.line|] == s.line;
    } else if Used(s) + 1 == INPUT_BUF_SIZE {
      assert |Typed(Typed(s, c), CTRL_H).sent| > |s.sent|;
    }
  }

  /** It does happen: after 127 plain bytes one more fills the ring, and backspace takes nothing back. */
  lemma RuboutFails(c: Byte) returns (s: Tty)
    requires Plain(c)
    ensures s == TypedAll(Tty([], 0, []), seq(127, _ => c)) && Inv(s) && Typed(Typed(s, c), CTRL_H) != s
  {
    var start, keys := Tty([], 0, []), seq(127, _ => c);
    Collects(start, keys);
    s := TypedAll(start, keys);
    assert start.line + keys == keys;
    Rubout(s, c);
  }

  /** How a stretch of consoleread ends. */
  datatype End = Waits | Returns

  datatype Served = Served(out: seq<Byte>, used: nat, end: End)

  /** What a read with n of target bytes to go gets from queue q: the bytes delivered and how many of
      the queue are used up. ok(n) tells whether the copy to the reader works with n bytes to go. */
  function Serve(q: seq<Byte>, n: int, target: int, ok: int -> bool): (r: Served)
    ensures r.used <= |q|
    decreases |q|
  {
    if n <= 0 then Served([], 0, Returns)
    else if |q| == 0 then Served([], 0, Waits)
    else if q[0] == CTRL_D then Served([], if n < target then 0 else 1, Returns)
    else if !ok(n) then Served([], 1, Returns)
    else if q[0] == NEWLINE then Served([q[0]], 1, Returns)
    else
      var r := Serve(q[1..], n - 1, target, ok);
      Served([q[0]] + r.out, 1 + r.used, r.end)
  }

  /** A read delivers the committed bytes in order, at most n, and at most one line; the one byte it may
      use up beside them is a ^D or a byte that could not be copied. */
  lemma {:induction false} Delivers(q: seq<Byte>, n: int, target: int, ok: int -> bool)
    requires n <= target
    ensures var r := Serve(q, n, target, ok);
      && |r.out| <= r.used <= |r.out| + 1 && r.out == q[..|r.out|] && |r.out| <= (if n > 0 then n else 0)
      && (forall i | 0 <= i < |r.out| :: r.out[i] != CTRL_D && (r.out[i] == NEWLINE ==> i == |r.out| - 1))
      && (r.used > |r.out| ==> (q[|r.out|] == CTRL_D && |r.out| == 0 && n == target) || !ok(n - |r.out|))
      && (r.end.Waits? <==> r.used == |q| == |r.out| < n && NEWLINE !in q)
    decreases |q|
  {
    if n > 0 && |q| > 0 && q[0] != CTRL_D && ok(n) && q[0] != NEWLINE {
      Delivers(q[1..], n - 1, target, ok);
    }
  }

  /** A ^D met after data is kept: the read returns the data, and the next read of any size returns 0
      bytes and uses the ^D up. */
  lemma EofNext(q: seq<Byte>, n: int, target: int, m: int, ok: int -> bool)
    requires 0 < n <= target && m > 0
    requires var r := Serve(q, n, target, ok); r.end.Returns? && |r.out| == r.used < |q| && |r.out| < n && NEWLINE !in r.out
    ensures var rest := q[Serve(q, n, target, ok).used..]; Serve(rest, m, m, ok) == Served([], 1, Returns)
  {
    StoppedAt(q, n, target, ok);
  }

  /** A read that stops short of n bytes, of the queue and of a newline has met a ^D. */
  lemma {:induction false} StoppedAt(q: seq<Byte>, n: int, target: int, ok: int -> bool)
    requires 0 < n <= target
    requires var r := Serve(q, n, target, ok); r.end.Returns? && |r.out| == r.used < |q| && |r.out| < n && NEWLINE !in r.out
    ensures q[Serve(q, n, target, ok).used] == CTRL_D
    decreases |q|
  {
    if q[0] != CTRL_D {
      var r := Serve(q[1..], n - 1, target, ok);
      assert Serve(q, n, target, ok).out == [q[0]] + r.out;
      StoppedAt(q[1..], n - 1, target, ok);
    }
  }

  /** Differences of the wrapping 32-bit indices are those of the counts they stand for, and their
      places in the ring too. */
  lemma Wraps(a: nat, b: nat)
    requires a <= b <= a + INPUT_BUF_SIZE
    ensures a % UINT == b % UINT <==> a == b
    ensures (b % UINT - a % UINT) % UINT == b - a
    ensures b % UINT % INPUT_BUF_SIZE == b % INPUT_BUF_SIZE && (b % UINT + 1) % UINT == (b + 1) % UINT
    ensures b > 0 ==> (b % UINT - 1) % UINT == (b - 1) % UINT
  {
    WrapsApart(a, b);
    WrapsPlace(b);
    WrapsStep(b);
  }

  lemma WrapsApart(a: nat, b: nat)
    requires a <= b <= a + INPUT_BUF_SIZE
    ensures a % UINT == b % UINT <==> a == b
    ensures (b % UINT - a % UINT) % UINT == b - a
  {
  }

  lemma WrapsPlace(b: nat)
    ensures b % UINT % INPUT_BUF_SIZE == b % INPUT_BUF_SIZE
  {
  }

  lemma WrapsStep(b: nat)
    ensures (b % UINT + 1) % UINT == (b + 1) % UINT
    ensures b > 0 ==> (b % UINT - 1) % UINT == (b - 1) % UINT
  {
  }

  class Cons {
    var buf: array<Byte>
    var r: nat
    var w: nat
    var e: nat
    ghost var tty: Tty

    ghost predicate Valid()
      reads this, buf
    {
      && Inv(tty) && Carries(buf[..], INPUT_BUF_SIZE, tty.sent + tty.line, tty.taken)
      && r == tty.taken % UINT && w == |tty.sent| % UINT && e == (|tty.sent| + |tty.line|) % UINT
    }

    constructor ()
      ensures Valid() && fresh(buf) && tty == Tty([], 0, [])
    {
      buf := new Byte[INPUT_BUF_SIZE];
      r, w, e, tty := 0, 0, 0, Tty([], 0, []);
    }

    /** Step the edit index back over the last byte of the line. */
    method Erase()
      requires Valid() && tty.line != []
      modifies this`e, this`tty
      ensures Valid() && tty == old(tty).(line := old(tty).line[..|old(tty).line| - 1])
    {
      ghost var stream, line := tty.sent + tty.line, tty.line[..|tty.line| - 1];
      Shortens(buf[..], INPUT_BUF_SIZE, stream, tty.taken);
      assert stream[..|stream| - 1] == tty.sent + line;
      Wraps(tty.taken, |stream|);
      e := (e - 1) % UINT;
      tty := tty.(line := line);
    }

    /** Kill line: back to the last committed byte, or to a newline, of which the line has none. */
    method KillLine()
      requires Valid()
      modifies this`e, this`tty
      ensures Valid() && tty == old(tty).(line := [])
    {
      while true
        invariant Valid() && tty == old(tty).(line := tty.line)
        decreases |tty.line|
      {
        ghost var stream := tty.sent + tty.line;
        Wraps(|tty.sent|, |stream|);
        if e == w {
          return;
        }
        assert tty.line[|tty.line| - 1] in tty.line;
        Shortens(buf[..], INPUT_BUF_SIZE, stream, tty.taken);
        Wraps(tty.taken, |stream| - 1);
        if buf[(e - 1) % UINT % INPUT_BUF_SIZE] == NEWLINE {
          return;
        }
        Erase();
      }
    }

    /** The input interrupt handler. */
    method Intr(c: Byte)
      requires Valid()
      modifies this`w, this`e, this`tty, buf
      ensures Valid() && buf == old(buf) && tty == Typed(old(tty), c)
    {
      if c == CTRL_P {
      } else if c == CTRL_U {
        KillLine();
      } else if c == CTRL_H || c == DELETE {
        Wraps(|tty.sent|, |tty.sent| + |tty.line|);
        if e != w {
          Erase();
        }
      } else {
        Wraps(tty.taken, |tty.sent| + |tty.line|);
        if c != 0 && (e - r) % UINT < INPUT_BUF_SIZE {
          Store(if c == RETURN then NEWLINE else c);
        }
      }
    }

    /** Store a byte, and commit the line if it ends it or fills the ring. */
    method Store(d: Byte)
      requires Valid() && Used(tty) < INPUT_BUF_SIZE && d != 0
      modifies this`w, this`e, this`tty, buf
      ensures Valid() && buf == old(buf)
      ensures var s := old(tty);
        tty == if EndsLine(d) || Used(s) + 1 == INPUT_BUF_SIZE
               then s.(sent := s.sent + s.line + [d], line := []) else s.(line := s.line + [d])
    {
      ghost var stream := tty.sent + tty.line;
      Appends(buf[..], INPUT_BUF_SIZE, stream, tty.taken, d);
      Wraps(tty.taken, |stream|);
      buf[e % INPUT_BUF_SIZE] := d;
      e := (e + 1) % UINT;
      Wraps(tty.taken, |stream| + 1);
      if EndsLine(d) || (e - r) % UINT == INPUT_BUF_SIZE {
        w := e;
        tty := tty.(sent := stream + [d], line := []);
        assert tty.sent + tty.line == stream + [d];
      } else {
        tty := tty.(line := tty.line + [d]);
        assert tty.sent + tty.line == stream + [d];
      }
    }

    /** One turn of consoleread's loop, with m of target bytes to go: the byte delivered, if any. */
    method Turn(m: int, target: int, ok: int -> bool) returns (done: bool, end: End, got: seq<Byte>)
      requires Valid() && 0 < m <= target
      modifies this`r, this`tty
      ensures Valid() && tty == old(tty).(taken := tty.taken) && tty.taken >= old(tty).taken
      ensures Continues(Serve(Queue(old(tty)), m, target, ok), got, tty.taken - old(tty).taken,
                if done then Served([], 0, end) else Serve(Queue(tty), m - 1, target, ok))
    {
      done, end, got := true, Returns, [];
      Wraps(tty.taken, |tty.sent|);
      if r == w {
        return true, Waits, [];
      }
      Head(buf[..], tty);
      Wraps(tty.taken, tty.taken);
      var c := buf[r % INPUT_BUF_SIZE];
      Consume();
      if c == CTRL_D {
        if m < target {
          Unread();
        }
      } else if ok(m) {
        got, done := [c], c == NEWLINE;
      }
    }

    /** The same turn, seen from the start of the stretch: out was delivered before it, out' after. */
    method Advance(m: int, target: int, ok: int -> bool, out: seq<Byte>, ghost s: Served, ghost tty0: Tty)
      returns (done: bool, end: End, out': seq<Byte>)
      requires Valid() && 0 < m <= target && Along(s, tty0, out, tty, m, target, ok)
      modifies this`r, this`tty
      ensures Valid()
      ensures done ==> end == s.end && out' == s.out && tty == tty0.(taken := tty0.taken + s.used)
      ensures !done ==> Along(s, tty0, out', tty, m - 1, target, ok)
    {
      ghost var mid, t := Serve(Queue(tty), m, target, ok), tty.taken;
      var got;
      done, end, got := Turn(m, target, ok);
      ContinuesOn(s, out, t - tty0.taken, mid, got, tty.taken - t,
        if done then Served([], 0, end) else Serve(Queue(tty), m - 1, target, ok));
      out' := out + got;
      assert out' + [] == out';
    }

    /** A stretch of consoleread under the lock, with n of target bytes to go, until it has to wait for
        input or returns. */
    method Read(n: int, target: int, ok: int -> bool) returns (end: End, out: seq<Byte>)
      requires Valid() && n <= target
      modifies this`r, this`tty
      ensures Valid()
      ensures var s := Serve(Queue(old(tty)), n, target, ok);
        end == s.end && out == s.out && tty == old(tty).(taken := old(tty).taken + s.used)
    {
      ghost var s, tty0 := Serve(Queue(tty), n, target, ok), tty;
      out := [];
      var m := n;
      AlongStart(tty, n, target, ok);
      while m > 0
        invariant Valid() && m <= target && Along(s, tty0, out, tty, m, target, ok)
        decreases m
      {
        var done;
        done, end, out := Advance(m, target, ok, out, s, tty0);
        if done {
          return;
        }
        m := m - 1;
      }
      AlongEnd(s, tty0, out, tty, m, target, ok);
      end := Returns;
    }

    method Consume()
      requires Valid() && tty.taken < |tty.sent|
      modifies this`r, this`tty
      ensures Valid() && tty == old(tty).(taken := old(tty).taken + 1)
    {
      Wraps(tty.taken, tty.taken);
      r, tty := (r + 1) % UINT, tty.(taken := tty.taken + 1);
    }

    /** Give the byte just consumed back, before anything else happens. */
    method Unread()
      requires Valid() && 0 < tty.taken && Used(tty) < INPUT_BUF_SIZE
      requires buf[(tty.taken - 1) % INPUT_BUF_SIZE] == tty.sent[tty.taken - 1]
      requires Used(tty) + 1 == INPUT_BUF_SIZE ==> tty.line == []
      modifies this`r, this`tty
      ensures Valid() && tty == old(tty).(taken := old(tty).taken - 1)
    {
      Wraps(tty.taken, tty.taken);
      ghost var stream := tty.sent + tty.line;
      assert stream[tty.taken - 1] == tty.sent[tty.taken - 1];
      r, tty := (r - 1) % UINT, tty.(taken := tty.taken - 1);
    }
  }

  /** The committed bytes not yet consumed. */
  function Queue(s: Tty): (q: seq<Byte>)
    requires s.taken <= |s.sent|
  {
    s.sent[s.taken..]
  }

  /** s is what was delivered and used so far, followed by what rest brings. */
  ghost predicate Continues(s: Served, out: seq<Byte>, used: int, rest: Served) {
    s.out == out + rest.out && s.used == used + rest.used && s.end == rest.end
  }

  /** A stretch that began at tty0 and is to bring s stands at tty, with m bytes to go. */
  ghost predicate Along(s: Served, tty0: Tty, out: seq<Byte>, tty: Tty, m: int, target: int, ok: int -> bool) {
    && tty == tty0.(taken := tty.taken) && tty0.taken <= tty.taken <= |tty.sent|
    && Continues(s, out, tty.taken - tty0.taken, Serve(Queue(tty), m, target, ok))
  }

  lemma AlongStart(tty: Tty, n: int, target: int, ok: int -> bool)
    requires tty.taken <= |tty.sent|
    ensures Along(Serve(Queue(tty), n, target, ok), tty, [], tty, n, target, ok)
  {
    var s := Serve(Queue(tty), n, target, ok);
    assert [] + s.out == s.out;
  }

  lemma AlongEnd(s: Served, tty0: Tty, out: seq<Byte>, tty: Tty, m: int, target: int, ok: int -> bool)
    requires Along(s, tty0, out, tty, m, target, ok) && m <= 0
    ensures s.end == Returns && s.out == out && tty == tty0.(taken := tty0.taken + s.used)
  {
    assert out + [] == out;
  }

  lemma ContinuesOn(s: Served, out: seq<Byte>, used: int, mid: Served, got: seq<Byte>, more: int, rest: Served)
    requires Continues(s, out, used, mid) && Continues(mid, got, more, rest)
    ensures Continues(s, out + got, used + more, rest)
  {
    assert out + (got + rest.out) == out + got + rest.out;
  }

  lemma Head(buf: seq<Byte>, s: Tty)
    requires Inv(s) && Carries(buf, INPUT_BUF_SIZE, s.sent + s.line, s.taken) && s.taken < |s.sent|
    ensures |Queue(s)| > 0 && Queue(s)[0] == s.sent[s.taken] == buf[s.taken % INPUT_BUF_SIZE]
    ensures Queue(s)[1..] == Queue(s.(taken := s.taken + 1))
  {
    assert (s.sent + s.line)[s.taken] == s.sent[s.taken];
  }

  /** What happens at the console: a key, or a stretch of a read. */
  datatype Event = Key(c: Byte) | Stretch(n: int, target: int, ok: int -> bool)

  /** The console with a record: the bytes readers received, in order, and the positions in the committed
      stream of those that could not be copied out. */
  datatype Seen = Seen(tty: Tty, log: seq<Byte>, failed: set<nat>)

  /** The position of a byte other than ^D that a stretch used up and did not deliver. */
  function Failure(s: Tty, r: Served): (p: set<nat>)
    requires s.taken <= |s.sent|
  {
    if |r.out| < r.used && |r.out| < |Queue(s)| && Queue(s)[|r.out|] != CTRL_D then {s.taken + |r.out|} else {}
  }

  ghost predicate Next(s: Seen, v: Event, r: Seen) {
    && s.tty.taken <= |s.tty.sent|
    && match v
       case Key(c) => r == s.(tty := Typed(s.tty, c))
       case Stretch(n, target, ok) =>
         n <= target && var g := Serve(Queue(s.tty), n, target, ok);
         r == Seen(s.tty.(taken := s.tty.taken + g.used), s.log + g.out, s.failed + Failure(s.tty, g))
  }

  /** The committed bytes that were used up and never delivered: ^D, and those whose copy failed. */
  function Gone(s: Seen): (g: set<nat>) {
    s.failed + set p | 0 <= p < s.tty.taken && p < |s.tty.sent| && s.tty.sent[p] == CTRL_D
  }

  /** What readers received is what was committed and used up, in order, without the ^Ds and the bytes
      whose copy failed. */
  ghost predicate Delivered(s: Seen) {
    && s.tty.taken <= |s.tty.sent| && (forall p | p in s.failed :: p < s.tty.taken)
    && s.log == Keep(s.tty.sent[..s.tty.taken], Gone(s))
  }

  lemma TypedDelivered(s: Seen, c: Byte)
    requires Inv(s.tty) && Delivered(s)
    ensures Delivered(s.(tty := Typed(s.tty, c)))
  {
    TypedInv(s.tty, c);
    var r := s.(tty := Typed(s.tty, c));
    assert r.tty.sent[..r.tty.taken] == s.tty.sent[..s.tty.taken];
    KeepSame(s.tty.sent[..s.tty.taken], Gone(s), Gone(r));
  }

  /** Taking bytes a.. of the committed stream: those delivered, and perhaps one that is gone. */
  lemma Takes(s: Seen, r: Seen, out: seq<Byte>)
    requires Delivered(s) && r.tty == s.tty.(taken := r.tty.taken) && r.log == s.log + out
    requires var a, b := s.tty.taken, s.tty.taken + |out|;
      && b <= r.tty.taken <= b + 1 && r.tty.taken <= |s.tty.sent| && out == s.tty.sent[a..b] && CTRL_D !in out
      && r.failed == s.failed + (if b < r.tty.taken && s.tty.sent[b] != CTRL_D then {b} else {})
    ensures Delivered(r)
  {
    var sent, a, b := s.tty.sent, s.tty.taken, s.tty.taken + |out|;
    var rest := sent[b..r.tty.taken];
    assert sent[..a] + out + rest == sent[..r.tty.taken];
    forall p: nat | a <= p < b ensures p !in Gone(r) {
      assert sent[p] == out[p - a];
    }
    KeepStretch(sent[..a], out, rest, Gone(s), Gone(r));
  }

  lemma GotDelivered(s: Seen, g: Served, r: Seen)
    requires Delivered(s) && r == Seen(s.tty.(taken := s.tty.taken + g.used), s.log + g.out, s.failed + Failure(s.tty, g))
    requires var q := Queue(s.tty); |g.out| <= g.used <= |q| && g.used <= |g.out| + 1 && g.out == q[..|g.out|] && CTRL_D !in g.out
    ensures Delivered(r)
  {
    assert g.out == s.tty.sent[s.tty.taken..s.tty.taken + |g.out|];
    Takes(s, r, g.out);
  }

  lemma StretchDelivered(s: Seen, v: Event, r: Seen)
    requires Delivered(s) && Next(s, v, r) && v.Stretch?
    ensures Delivered(r) && r.tty.taken >= s.tty.taken
  {
    var q := Queue(s.tty);
    Delivers(q, v.n, v.target, v.ok);
    GotDelivered(s, Serve(q, v.n, v.target, v.ok), r);
  }

  /** The states of a run, from an idle console on. */
  ghost predicate Run(ss: seq<Seen>, vs: seq<Event>) {
    && |ss| == |vs| + 1 && ss[0] == Seen(Tty([], 0, []), [], {})
    && forall k {:trigger vs[k]} | 0 <= k < |vs| :: Next(ss[k], vs[k], ss[k + 1])
  }

  /** In every run of keys and reads the ring keeps its bounds; committed bytes are only ever added at the
      end; and readers receive them in order, each once, without the ^Ds and the failed copies. */
  lemma {:induction false} RunInv(ss: seq<Seen>, vs: seq<Event>, j: nat, k: nat)
    requires Run(ss, vs) && j <= k < |ss|
    ensures Inv(ss[k].tty) && Delivered(ss[k])
    ensures ss[j].tty.sent <= ss[k].tty.sent && ss[j].log <= ss[k].log
    decreases k
  {
    if k > 0 {
      RunInv(ss, vs, if j < k then j else k - 1, k - 1);
      var s, v := ss[k - 1], vs[k - 1];
      assert Next(s, v, ss[k]);
      if v.Key? {
        TypedInv(s.tty, v.c);
        TypedDelivered(s, v.c);
      } else {
        StretchDelivered(s, v, ss[k]);
      }
    }
  }
}
