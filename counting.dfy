/** Counting and filtering over sequences: `len(...where(...))` and list comprehensions with a condition. */
module Counting {

  /** A non-empty sequence is its front followed by its last element. */
  lemma LastSplit<T>(xs: seq<T>)
    requires xs != []
    ensures xs == xs[..|xs| - 1] + [xs[|xs| - 1]]
  {
  }

  /** How many elements satisfy `p`. */
  function Count<T>(xs: seq<T>, p: T -> bool): nat
  {
    if xs == [] then 0 else (if p(xs[0]) then 1 else 0) + Count(xs[1..], p)
  }

  /** The elements that satisfy `p`, in their order. */
  function Filter<T>(xs: seq<T>, p: T -> bool): (r: seq<T>)
    ensures |r| <= |xs|
    ensures |r| == Count(xs, p)
    ensures forall i :: 0 <= i < |r| ==> r[i] in xs && p(r[i])
    ensures forall i :: 0 <= i < |xs| && p(xs[i]) ==> xs[i] in r
  {
    if xs == [] then [] else (if p(xs[0]) then [xs[0]] else []) + Filter(xs[1..], p)
  }

  lemma {:induction false} CountAppend<T>(a: seq<T>, b: seq<T>, p: T -> bool)
    ensures Count(a + b, p) == Count(a, p) + Count(b, p)
  {
    if a == [] {
      assert a + b == b;
    } else {
      assert (a + b)[1..] == a[1..] + b;
      CountAppend(a[1..], b, p);
    }
  }

  lemma {:induction false} FilterAppend<T>(a: seq<T>, b: seq<T>, p: T -> bool)
    ensures Filter(a + b, p) == Filter(a, p) + Filter(b, p)
  {
    if a == [] {
      assert a + b == b;
    } else {
      assert (a + b)[1..] == a[1..] + b;
      FilterAppend(a[1..], b, p);
    }
  }

  /** The count is zero exactly when no element satisfies `p`. */
  lemma {:induction false} CountZero<T>(xs: seq<T>, p: T -> bool)
    ensures Count(xs, p) == 0 <==> forall i :: 0 <= i < |xs| ==> !p(xs[i])
  {
    if xs != [] {
      CountZero(xs[1..], p);
      if Count(xs, p) == 0 {
        forall i | 0 <= i < |xs| ensures !p(xs[i]) {
          if i > 0 { assert xs[i] == xs[1..][i - 1]; }
        }
      } else if !p(xs[0]) {
        var i :| 0 <= i < |xs[1..]| && p(xs[1..][i]);
        assert p(xs[i + 1]);
      }
    }
  }

  /** If exactly the element at `k` satisfies `p`, the count is one. */
  lemma CountOnly<T>(xs: seq<T>, k: nat, p: T -> bool)
    requires k < |xs|
    requires forall i :: 0 <= i < |xs| ==> (p(xs[i]) <==> i == k)
    ensures Count(xs, p) == 1
  {
    assert xs == xs[..k] + [xs[k]] + xs[k + 1..];
    CountAppend(xs[..k] + [xs[k]], xs[k + 1..], p);
    CountAppend(xs[..k], [xs[k]], p);
    CountZero(xs[..k], p);
    CountZero(xs[k + 1..], p);
  }

  /** A count of one has a witness, and it is the only element satisfying `p`. */
  lemma {:induction false} CountOneWitness<T>(xs: seq<T>, p: T -> bool) returns (k: nat)
    requires Count(xs, p) == 1
    ensures k < |xs| && forall i :: 0 <= i < |xs| ==> (p(xs[i]) <==> i == k)
  {
    if p(xs[0]) {
      k := 0;
      CountZero(xs[1..], p);
      forall i | 0 < i < |xs| ensures !p(xs[i]) { assert xs[i] == xs[1..][i - 1]; }
    } else {
      var k' := CountOneWitness(xs[1..], p);
      k := k' + 1;
      forall i | 0 < i < |xs| ensures p(xs[i]) <==> i == k { assert xs[i] == xs[1..][i - 1]; }
    }
  }

  /** Two elements satisfying `p` make the count at least two. */
  lemma CountTwo<T>(xs: seq<T>, i: nat, j: nat, p: T -> bool)
    requires i < j < |xs| && p(xs[i]) && p(xs[j])
    ensures Count(xs, p) >= 2
  {
    assert xs == xs[..j] + xs[j..];
    CountAppend(xs[..j], xs[j..], p);
    CountZero(xs[..j], p);
    CountZero(xs[j..], p);
    assert xs[..j][i] == xs[i];
    assert xs[j..][0] == xs[j];
    if Count(xs[..j], p) == 1 && Count(xs[j..], p) == 0 {
      assert false;
    }
  }

  /** Predicates that agree element by element give the same count. */
  lemma {:induction false} CountSame<T>(xs: seq<T>, ys: seq<T>, p: T -> bool, q: T -> bool)
    requires |xs| == |ys|
    requires forall i :: 0 <= i < |xs| ==> (p(xs[i]) <==> q(ys[i]))
    ensures Count(xs, p) == Count(ys, q)
  {
    if xs != [] {
      forall i | 0 <= i < |xs| - 1 ensures p(xs[1..][i]) <==> q(ys[1..][i]) {
        assert xs[1..][i] == xs[i + 1] && ys[1..][i] == ys[i + 1];
      }
      CountSame(xs[1..], ys[1..], p, q);
    }
  }

  /** Filtering never adds elements that satisfy another predicate. */
  lemma {:induction false} CountFilter<T>(xs: seq<T>, keep: T -> bool, p: T -> bool)
    ensures Count(Filter(xs, keep), p) <= Count(xs, p)
  {
    if xs != [] {
      CountFilter(xs[1..], keep, p);
      FilterHead(xs, keep);
      if keep(xs[0]) {
        CountAppend([xs[0]], Filter(xs[1..], keep), p);
      }
    }
  }

  lemma FilterHead<T>(xs: seq<T>, keep: T -> bool)
    requires xs != []
    ensures Filter(xs, keep) == if keep(xs[0]) then [xs[0]] + Filter(xs[1..], keep) else Filter(xs[1..], keep)
  {
  }

  /** No two elements share a key. */
  predicate DistinctBy<T, K(==)>(xs: seq<T>, key: T -> K)
  {
    forall i, j :: 0 <= i < j < |xs| ==> key(xs[i]) != key(xs[j])
  }

  /** Filtering keeps keys distinct: it only drops elements. */
  lemma {:induction false} FilterKeepsDistinct<T, K>(xs: seq<T>, key: T -> K, keep: T -> bool)
    requires DistinctBy(xs, key)
    ensures DistinctBy(Filter(xs, keep), key)
  {
    if xs != [] {
      FilterKeepsDistinct(xs[1..], key, keep);
      FilterHead(xs, keep);
      if keep(xs[0]) {
        var t := Filter(xs[1..], keep);
        forall j | 0 <= j < |t| ensures key(xs[0]) != key(t[j]) {
          var m :| 0 <= m < |xs[1..]| && xs[1..][m] == t[j];
          assert xs[m + 1] == t[j];
        }
        var r := [xs[0]] + t;
        forall i, j | 0 <= i < j < |r| ensures key(r[i]) != key(r[j]) {
          assert r[j] == t[j - 1];
          if i > 0 { assert r[i] == t[i - 1]; }
        }
      }
    }
  }

  /** Sequences that agree on every element `q` keeps, and keep the same positions, filter alike. */
  lemma {:induction false} FilterAgree<T>(xs: seq<T>, ys: seq<T>, q: T -> bool)
    requires |xs| == |ys|
    requires forall i :: 0 <= i < |xs| ==> (q(xs[i]) <==> q(ys[i])) && (q(xs[i]) ==> xs[i] == ys[i])
    ensures Filter(xs, q) == Filter(ys, q)
  {
    if xs != [] {
      forall i | 0 <= i < |xs| - 1
        ensures (q(xs[1..][i]) <==> q(ys[1..][i])) && (q(xs[1..][i]) ==> xs[1..][i] == ys[1..][i])
      {
        assert xs[1..][i] == xs[i + 1] && ys[1..][i] == ys[i + 1];
      }
      FilterAgree(xs[1..], ys[1..], q);
    }
  }

  /** Filtering by `p` first changes nothing when `q` implies `p`. */
  lemma {:induction false} FilterFilter<T>(xs: seq<T>, p: T -> bool, q: T -> bool)
    requires forall i :: 0 <= i < |xs| && q(xs[i]) ==> p(xs[i])
    ensures Filter(Filter(xs, p), q) == Filter(xs, q)
  {
    if xs != [] {
      forall i | 0 <= i < |xs| - 1 && q(xs[1..][i]) ensures p(xs[1..][i]) {
        assert xs[1..][i] == xs[i + 1];
      }
      FilterFilter(xs[1..], p, q);
      FilterHead(xs, p);
      if p(xs[0]) {
        FilterHead([xs[0]] + Filter(xs[1..], p), q);
        assert ([xs[0]] + Filter(xs[1..], p))[1..] == Filter(xs[1..], p);
      }
    }
  }

  /** Filtering a sequence with one more element at the end. */
  lemma FilterSnoc<T>(xs: seq<T>, x: T, q: T -> bool)
    ensures Filter(xs + [x], q) == Filter(xs, q) + (if q(x) then [x] else [])
  {
    FilterAppend(xs, [x], q);
    assert Filter([x], q) == (if q(x) then [x] else []) + Filter([x][1..], q);
    assert [x][1..] == [];
  }

  /** Filtering keeps everything when every element satisfies `p`. */
  lemma {:induction false} FilterAll<T>(xs: seq<T>, p: T -> bool)
    requires forall i :: 0 <= i < |xs| ==> p(xs[i])
    ensures Filter(xs, p) == xs
  {
    if xs != [] {
      assert p(xs[0]);
      forall i | 0 <= i < |xs| - 1 ensures p(xs[1..][i]) {
        assert xs[1..][i] == xs[i + 1];
      }
      FilterAll(xs[1..], p);
    }
  }
}
