/** Shared types and small functions. */
module Base {

  /** A value that may be absent. */
  datatype Option<+T> = None | Some(value: T)

  function Min(a: nat, b: nat): nat {
    if a <= b then a else b
  }

  lemma MinusTwice<T>(m: map<nat, T>, a: set<nat>, b: set<nat>)
    ensures m - a - b == m - (a + b)
  {
  }

  lemma Smaller<T>(x: set<T>, y: set<T>)
    requires x < y
    ensures |x| < |y|
  {
    var e :| e in y && e !in x;
    assert x <= y - {e};
    NoLarger(x, y - {e});
  }

  lemma {:induction false} NoLarger<T>(x: set<T>, y: set<T>)
    requires x <= y
    ensures |x| <= |y|
    decreases x
  {
    if x != {} {
      var e :| e in x;
      NoLarger(x - {e}, y - {e});
    }
  }

  /** Some number is not in any given finite set. */
  lemma FreshExists(s: set<nat>)
    ensures exists n: nat :: n !in s
  {
    var n := UpperBound(s);
    assert n !in s;
  }

  ghost function UpperBound(s: set<nat>): (n: nat)
    ensures forall m :: m in s ==> m < n
  {
    if s == {} then 0
    else
      var m :| m in s;
      var n := UpperBound(s - {m});
      assert forall k :: k in s ==> k == m || k in s - {m};
      if n > m then n else m + 1
  }
}
