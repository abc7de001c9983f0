/** Small facts about sequences shared by both scripts. */
module Seqs {

  /** The set of elements of a sequence (Python's `set(xs)`). */
  function Elems<T>(xs: seq<T>): set<T> {
    set x | x in xs
  }

  /** No element occurs twice. */
  predicate NoDup<T(==)>(xs: seq<T>) {
    forall i, j :: 0 <= i < j < |xs| ==> xs[i] != xs[j]
  }

  /** Two duplicate-free sequences with no element in common join without duplicates. */
  lemma NoDupAppend<T>(x: seq<T>, y: seq<T>)
    requires NoDup(x) && NoDup(y)
    requires forall z :: z in x ==> z !in y
    ensures NoDup(x + y)
  {
    forall i, j | 0 <= i < j < |x + y| ensures (x + y)[i] != (x + y)[j] {
      if i < |x| && |x| <= j {
        assert (x + y)[i] == x[i] && x[i] in x;
        assert (x + y)[j] == y[j - |x|] && y[j - |x|] in y;
      }
    }
  }

  /** Cutting the element at `k` out of `s` removes one copy of it from the multiset. */
  lemma MultisetCut<T>(s: seq<T>, k: nat)
    requires k < |s|
    ensures s == s[..k] + ([s[k]] + s[k + 1..])
    ensures multiset(s[..k] + s[k + 1..]) == multiset(s) - multiset{s[k]}
  {
    assert s == s[..k] + ([s[k]] + s[k + 1..]);
  }

  /** Concatenation of a sequence of sequences, front to back. */
  function Concat<T>(xss: seq<seq<T>>): seq<T> {
    if xss == [] then [] else xss[0] + Concat(xss[1..])
  }

  lemma {:induction false} ConcatSnoc<T>(xss: seq<seq<T>>, ys: seq<T>)
    ensures Concat(xss + [ys]) == Concat(xss) + ys
  {
    if xss == [] {
      assert [] + [ys] == [ys];
    } else {
      assert (xss + [ys])[1..] == xss[1..] + [ys];
      ConcatSnoc(xss[1..], ys);
    }
  }

  /** An element of the concatenation comes from one of the parts, and back. */
  lemma {:induction false} ConcatMembers<T>(xss: seq<seq<T>>, y: T)
    ensures y in Concat(xss) <==> exists i :: 0 <= i < |xss| && y in xss[i]
  {
    if xss != [] {
      ConcatMembers(xss[1..], y);
      if y in Concat(xss[1..]) {
        var i :| 0 <= i < |xss[1..]| && y in xss[1..][i];
        assert y in xss[i + 1];
      }
      if exists i :: 0 <= i < |xss| && y in xss[i] {
        var i :| 0 <= i < |xss| && y in xss[i];
        if i > 0 {
          assert y in xss[1..][i - 1];
        }
      }
    }
  }

  /** The concatenation is as long as its parts together: a bound on any subset of it. */
  function TotalLength<T>(xss: seq<seq<T>>): nat {
    if xss == [] then 0 else |xss[0]| + TotalLength(xss[1..])
  }

  lemma {:induction false} ConcatLength<T>(xss: seq<seq<T>>)
    ensures |Concat(xss)| == TotalLength(xss)
  {
    if xss != [] {
      ConcatLength(xss[1..]);
    }
  }

  /** Taking one more element of `b` after `a`. */
  lemma AppendPrefixStep<T>(a: seq<T>, b: seq<T>, j: nat)
    requires j < |b|
    ensures a + b[..j + 1] == (a + b[..j]) + [b[j]]
  {
    assert b[..j + 1] == b[..j] + [b[j]];
  }
}
