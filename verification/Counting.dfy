/** How many members of a sequence have a property. */
module Counting {

  function Count<T>(s: seq<T>, on: T -> bool): (n: nat) {
    if |s| == 0 then 0 else (if on(s[0]) then 1 else 0) + Count(s[1..], on)
  }

  lemma {:induction false} CountUpdate<T>(s: seq<T>, t: nat, x: T, on: T -> bool)
    requires t < |s|
    ensures Count(s[t := x], on) + (if on(s[t]) then 1 else 0) == Count(s, on) + if on(x) then 1 else 0
  {
    if t == 0 {
      assert s[t := x][1..] == s[1..];
    } else {
      assert s[t := x][1..] == s[1..][t - 1 := x];
      CountUpdate(s[1..], t - 1, x, on);
    }
  }

  lemma {:induction false} CountOn<T>(s: seq<T>, t: nat, on: T -> bool)
    requires t < |s| && on(s[t])
    ensures Count(s, on) > 0
  {
    if t > 0 { CountOn(s[1..], t - 1, on); }
  }

  lemma {:induction false} CountTwo<T>(s: seq<T>, t: nat, u: nat, on: T -> bool)
    requires t < u < |s| && on(s[t]) && on(s[u])
    ensures Count(s, on) >= 2
  {
    if t == 0 { CountOn(s[1..], u - 1, on); } else { CountTwo(s[1..], t - 1, u - 1, on); }
  }

  lemma {:induction false} CountNone<T>(s: seq<T>, on: T -> bool)
    requires forall t | 0 <= t < |s| :: !on(s[t])
    ensures Count(s, on) == 0
  {
    if |s| > 0 { CountNone(s[1..], on); }
  }

  lemma {:induction false} CountJoin<T>(a: seq<T>, b: seq<T>, on: T -> bool)
    ensures Count(a + b, on) == Count(a, on) + Count(b, on)
  {
    if |a| == 0 {
      assert a + b == b;
    } else {
      assert (a + b)[1..] == a[1..] + b;
      CountJoin(a[1..], b, on);
    }
  }

  /** One member taken out. */
  lemma {:induction false} CountWithout<T>(s: seq<T>, i: nat, on: T -> bool)
    requires i < |s|
    ensures Count(s[..i] + s[i + 1..], on) + (if on(s[i]) then 1 else 0) == Count(s, on)
  {
    if i == 0 {
      assert s[..i] + s[i + 1..] == s[1..];
    } else {
      assert (s[..i] + s[i + 1..])[1..] == s[1..][..i - 1] + s[1..][i..];
      CountWithout(s[1..], i - 1, on);
    }
  }
}
