/** Sequences, and the option of having none of something. */
module Sequences {

  datatype Option<T> = None | Some(value: T)

  lemma Grouped<T>(a: seq<T>, b: seq<T>, c: seq<T>)
    ensures a + b + c == a + (b + c)
  {
  }

  /** A sequence in front of one of its elements, that element, what is between it and the last one, and that one. */
  lemma FromTo<T>(s: seq<T>, k: nat)
    requires k < |s|
    ensures var n := |s| - 1;
      s == s[..k] + s[k..] &&
      if k == n then s[k..] == [s[n]] && s[..n] == s[..k]
      else s[k..] == [s[k]] + s[k + 1..n] + [s[n]] && s[..n] == s[..k] + ([s[k]] + s[k + 1..n])
  {
  }

  /** Where an element is. */
  ghost function Position<T>(s: seq<T>, x: T): (i: nat)
    requires x in s
    ensures i < |s| && s[i] == x
  {
    if s[0] == x then 0 else 1 + Position(s[1..], x)
  }

  ghost predicate Distinct<T>(s: seq<T>) {
    forall i, j :: 0 <= i < j < |s| ==> s[i] != s[j]
  }

  ghost function Elements<T>(s: seq<T>): set<T> {
    set x | x in s
  }

  lemma ElementsConcat<T>(a: seq<T>, b: seq<T>)
    ensures Elements(a + b) == Elements(a) + Elements(b)
  {
  }

  lemma {:induction false} DistinctCount<T>(s: seq<T>)
    requires Distinct(s)
    ensures |Elements(s)| == |s|
  {
    if s != [] {
      var t := s[..|s| - 1];
      DistinctCount(t);
      var x := s[|s| - 1];
      assert x !in t && s == t + [x];
      assert Elements(s) == Elements(t) + {x};
    }
  }

  lemma Fits<T>(a: set<T>, b: set<T>)
    requires a <= b
    ensures |a| <= |b| && (|a| == |b| ==> a == b)
  {
    assert b == a + (b - a);
  }

  ghost function Numbers(n: nat): (s: set<nat>)
    ensures |s| == n && forall x: nat :: x in s <==> x < n
  {
    if n == 0 then {} else Numbers(n - 1) + {n - 1}
  }

  /** Of different numbers below `n` there are at most `n`. */
  lemma AtMost(s: seq<nat>, n: nat)
    requires Distinct(s) && forall x :: x in s ==> x < n
    ensures |s| <= n
  {
    DistinctCount(s);
    Fits(Elements(s), Numbers(n));
  }
}
