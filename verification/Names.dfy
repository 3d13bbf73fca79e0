/** Bounded C strings and path components. */
module Names {
  import opened Blocks

  const SLASH: Byte := 47

  /** Byte k of the C string s; past the end of s stands its terminator. */
  function At(s: seq<Byte>, k: nat): (c: Byte) {
    if k < |s| then s[k] else 0
  }

  /** The string that starts at s, read up to its terminator and to n bytes at most. */
  function Cut(s: seq<Byte>, n: nat): (r: seq<Byte>)
    ensures |r| <= n && |r| <= |s| && r == s[..|r|]
    ensures 0 !in r && (|r| < n ==> At(s, |r|) == 0)
  {
    if n == 0 || At(s, 0) == 0 then []
    else
      var t := Cut(s[1..], n - 1);
      assert At(s[1..], |t|) == At(s, |t| + 1);
      assert [s[0]] + s[1..][..|t|] == s[..|t| + 1];
      [s[0]] + t
  }

  /** A cut is known by its length. */
  lemma CutIs(s: seq<Byte>, n: nat, k: nat)
    requires k <= n && k <= |s| && 0 !in s[..k] && (k < n ==> At(s, k) == 0)
    ensures Cut(s, n) == s[..k]
  {
    var r := Cut(s, n);
    Longer(s, n, k);
    assert forall j | 0 <= j < |r| :: r[j] == s[j] != 0;
  }

  /** 0 exactly when the two strings agree up to their terminators or n bytes. */
  method Strncmp(p: seq<Byte>, q: seq<Byte>, n: nat) returns (r: int)
    ensures r == 0 <==> Cut(p, n) == Cut(q, n)
  {
    var k := 0;
    while k < n && At(p, k) != 0 && At(p, k) == At(q, k)
      invariant k <= n && k <= |p| && k <= |q| && p[..k] == q[..k] && 0 !in p[..k]
    {
      k := k + 1;
    }
    if k == n {
      CutIs(p, n, k);
      CutIs(q, n, k);
      return 0;
    }
    r := At(p, k) - At(q, k);
    Differ(p, q, n, k);
  }

  /** What strncmp's last byte decides. */
  lemma Differ(p: seq<Byte>, q: seq<Byte>, n: nat, k: nat)
    requires k < n && k <= |p| && k <= |q| && p[..k] == q[..k] && 0 !in p[..k]
    requires At(p, k) == 0 || At(p, k) != At(q, k)
    ensures At(p, k) == At(q, k) <==> Cut(p, n) == Cut(q, n)
  {
    var a, b := Cut(p, n), Cut(q, n);
    if At(p, k) == At(q, k) {
      CutIs(p, n, k);
      CutIs(q, n, k);
    } else {
      Longer(p, n, k);
      Longer(q, n, k);
      assert forall j | 0 <= j < |a| :: a[j] == p[j];
      assert forall j | 0 <= j < |b| :: b[j] == q[j];
    }
  }

  /** A cut holds every byte before the first terminator. */
  lemma Longer(s: seq<Byte>, n: nat, k: nat)
    requires k <= n && k <= |s| && 0 !in s[..k]
    ensures |Cut(s, n)| >= k
  {
    var r := Cut(s, n);
    assert forall j | 0 <= j < k :: s[..k][j] == s[j] != 0;
  }

  /** Copy t into a field of n bytes, filled up with zeros. */
  method Strncpy(t: seq<Byte>, n: nat) returns (s: seq<Byte>)
    ensures |s| == n && Cut(s, n) == Cut(t, n)
    ensures forall k | |Cut(t, n)| <= k < n :: s[k] == 0
  {
    s := [];
    var c: Byte := 1;
    while |s| < n && c != 0
      invariant |s| <= n
      invariant c != 0 ==> |s| <= |t| && s == t[..|s|] && 0 !in s
      invariant c == 0 ==> 0 < |s| && |s| - 1 <= |t| && s == t[..|s| - 1] + [0] && 0 !in t[..|s| - 1] && At(t, |s| - 1) == 0
    {
      c := At(t, |s|);
      s := s + [c];
    }
    ghost var k := if c == 0 then |s| - 1 else |s|;
    CutIs(t, n, k);
    while |s| < n
      invariant k <= |s| <= n && k <= |t| && s[..k] == t[..k] && forall j | k <= j < |s| :: s[j] == 0
    {
      s := s + [0];
    }
    CutIs(s, n, k);
  }
}
