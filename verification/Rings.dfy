/** A stream of bytes kept in a ring of n places: byte k stands at place k % n. */
module Rings {
  import opened Blocks
  import WideArith

  /** The bytes of stream from got on stand in the ring. */
  ghost predicate Carries(ring: seq<Byte>, n: nat, stream: seq<Byte>, got: nat) {
    0 < n == |ring| && forall k: nat {:trigger stream[k]} | got <= k < |stream| :: ring[k % n] == stream[k]
  }

  /** Bytes fewer than n apart have different places. */
  lemma Places(k: nat, m: nat, n: nat)
    requires k < m < k + n
    ensures k % n != m % n
  {
    var a, b := k / n, m / n;
    assert k == n * a + k % n && m == n * b + m % n;
    WideArith.Gap(n, a, b);
    WideArith.Gap(n, b, a);
  }

  /** A byte more goes to a place that no byte carried has. */
  lemma Appends(ring: seq<Byte>, n: nat, stream: seq<Byte>, got: nat, c: Byte)
    requires Carries(ring, n, stream, got) && got <= |stream| < got + n
    ensures Carries(ring[|stream| % n := c], n, stream + [c], got)
  {
    var m, longer := |stream|, stream + [c];
    forall k: nat | got <= k < |longer| ensures ring[m % n := c][k % n] == longer[k] {
      if k < m {
        Places(k, m, n);
        assert longer[k] == stream[k];
      }
    }
  }

  /** Taking the last byte back. */
  lemma Shortens(ring: seq<Byte>, n: nat, stream: seq<Byte>, got: nat)
    requires Carries(ring, n, stream, got) && got < |stream|
    ensures Carries(ring, n, stream[..|stream| - 1], got)
    ensures ring[(|stream| - 1) % n] == stream[|stream| - 1]
  {
    var last, shorter := stream[|stream| - 1], stream[..|stream| - 1];
    assert forall k: nat {:trigger shorter[k]} | k < |shorter| :: shorter[k] == stream[k];
  }

  /** s without the bytes whose positions are in gone. */
  function Keep(s: seq<Byte>, gone: set<nat>): (r: seq<Byte>) {
    if |s| == 0 then []
    else Keep(s[..|s| - 1], gone) + (if |s| - 1 in gone then [] else [s[|s| - 1]])
  }

  /** Only positions inside s matter. */
  lemma {:induction false} KeepSame(s: seq<Byte>, gone: set<nat>, gone': set<nat>)
    requires forall p: nat | p < |s| :: p in gone <==> p in gone'
    ensures Keep(s, gone) == Keep(s, gone')
  {
    if |s| > 0 { KeepSame(s[..|s| - 1], gone, gone'); }
  }

  /** Bytes that are not gone follow in order. */
  lemma {:induction false} KeepMore(s: seq<Byte>, out: seq<Byte>, gone: set<nat>)
    requires forall p: nat | |s| <= p < |s| + |out| :: p !in gone
    ensures Keep(s + out, gone) == Keep(s, gone) + out
  {
    if |out| == 0 {
      assert s + out == s;
    } else {
      var t := s + out;
      assert t[..|t| - 1] == s + out[..|out| - 1];
      KeepMore(s, out[..|out| - 1], gone);
      assert out == out[..|out| - 1] + [out[|out| - 1]];
    }
  }

  /** Bytes delivered, and perhaps one more that is gone. */
  lemma KeepStretch(s: seq<Byte>, out: seq<Byte>, rest: seq<Byte>, gone: set<nat>, gone': set<nat>)
    requires |rest| <= 1 && (|rest| == 1 ==> |s| + |out| in gone')
    requires forall p: nat | p < |s| :: p in gone <==> p in gone'
    requires forall p: nat | |s| <= p < |s| + |out| :: p !in gone'
    ensures Keep(s + out + rest, gone') == Keep(s, gone) + out
  {
    KeepSame(s, gone, gone');
    KeepMore(s, out, gone');
    var t := s + out + rest;
    if |rest| == 1 {
      assert t[..|t| - 1] == s + out;
    } else {
      assert t == s + out;
    }
  }
}
