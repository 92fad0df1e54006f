/** Generic facts about sequences used by several parts of the model:
    duplicate-freedom, counting the elements that satisfy a predicate, and
    order-preserving filtering.
 */
module Seqs {
  import opened Wrappers

  predicate NoDup<T(==)>(s: seq<T>) {
    forall i, j :: 0 <= i < j < |s| ==> s[i] != s[j]
  }

  /** Number of elements of `s` (with repetition) satisfying `p`. */
  function CountIf<T>(s: seq<T>, p: T -> bool): nat
    decreases |s|
  {
    if |s| == 0 then 0 else (if p(s[0]) then 1 else 0) + CountIf(s[1..], p)
  }

  lemma {:induction false} CountIfAppend<T>(a: seq<T>, b: seq<T>, p: T -> bool)
    ensures CountIf(a + b, p) == CountIf(a, p) + CountIf(b, p)
    decreases |a|
  {
    if |a| == 0 {
      assert a + b == b;
    } else {
      assert (a + b)[1..] == a[1..] + b;
      CountIfAppend(a[1..], b, p);
    }
  }

  lemma CountIfBounded<T>(s: seq<T>, p: T -> bool)
    ensures CountIf(s, p) <= |s|
  {
  }

  lemma {:induction false} CountIfRemove<T>(t: seq<T>, i: nat, p: T -> bool)
    requires i < |t|
    ensures CountIf(t, p) == (if p(t[i]) then 1 else 0) + CountIf(t[..i] + t[i + 1..], p)
  {
    var a, b := t[..i], t[i + 1..];
    var c := [t[i]] + b;
    assert t == a + c;
    CountIfAppend(a, c, p);
    assert c[1..] == b;
    assert CountIf(c, p) == (if p(t[i]) then 1 else 0) + CountIf(b, p);
    CountIfAppend(a, b, p);
  }

  lemma MultisetRemove<T>(s: seq<T>, t: seq<T>, i: nat)
    requires |s| > 0 && i < |t| && t[i] == s[0]
    requires multiset(s) == multiset(t)
    ensures multiset(s[1..]) == multiset(t[..i] + t[i + 1..])
  {
    assert s == [s[0]] + s[1..];
    assert t == t[..i] + [t[i]] + t[i + 1..];
    assert multiset(s[1..]) == multiset(s) - multiset{s[0]};
    assert multiset(t[..i] + t[i + 1..]) == multiset(t) - multiset{t[i]};
  }

  /** Counting is blind to order: permutations have equal counts. */
  lemma {:induction false} CountIfPermutation<T>(s: seq<T>, t: seq<T>, p: T -> bool)
    requires multiset(s) == multiset(t)
    ensures CountIf(s, p) == CountIf(t, p)
    decreases |s|
  {
    if |s| == 0 {
      assert |t| == |multiset(t)| == 0;
    } else {
      assert s[0] in multiset(t);
      var i :| 0 <= i < |t| && t[i] == s[0];
      MultisetRemove(s, t, i);
      CountIfPermutation(s[1..], t[..i] + t[i + 1..], p);
      CountIfRemove(t, i, p);
    }
  }

  lemma {:induction false} NoDupMultiset<T>(s: seq<T>, x: T)
    requires NoDup(s)
    ensures multiset(s)[x] == if x in s then 1 else 0
    decreases |s|
  {
    if |s| > 0 {
      assert s == [s[0]] + s[1..];
      assert NoDup(s[1..]) by {
        forall i, j | 0 <= i < j < |s[1..]| ensures s[1..][i] != s[1..][j] {
          assert s[1..][i] == s[i + 1] && s[1..][j] == s[j + 1];
        }
      }
      NoDupMultiset(s[1..], x);
      if x == s[0] {
        assert x !in s[1..];
      }
    }
  }

  /** Two duplicate-free sequences with the same elements are permutations
      of each other. */
  lemma SameElementsPermutation<T(!new)>(s: seq<T>, t: seq<T>)
    requires NoDup(s) && NoDup(t)
    requires forall x :: x in s <==> x in t
    ensures multiset(s) == multiset(t)
  {
    forall x ensures multiset(s)[x] == multiset(t)[x] {
      NoDupMultiset(s, x);
      NoDupMultiset(t, x);
    }
  }

  /** Elements of `s` satisfying `p`, in their original order. */
  function Filter<T(==,!new)>(s: seq<T>, p: T -> bool): (r: seq<T>)
    ensures |r| == CountIf(s, p)
    ensures forall x :: x in r <==> x in s && p(x)
    ensures multiset(r) <= multiset(s)
    decreases |s|
  {
    if |s| == 0 then []
    else
      var rest := Filter(s[1..], p);
      assert s == [s[0]] + s[1..];
      if p(s[0]) then [s[0]] + rest else rest
  }

  /** `a` is obtained from `b` by deleting elements (order preserved). */
  predicate IsSubseq<T(==)>(a: seq<T>, b: seq<T>)
    decreases |b|
  {
    if |a| == 0 then true
    else if |b| == 0 then false
    else if a[0] == b[0] then IsSubseq(a[1..], b[1..])
    else IsSubseq(a, b[1..])
  }

  lemma {:induction false} FilterIsSubseq<T(!new)>(s: seq<T>, p: T -> bool)
    ensures IsSubseq(Filter(s, p), s)
    decreases |s|
  {
    if |s| > 0 {
      FilterIsSubseq(s[1..], p);
      var rest := Filter(s[1..], p);
      assert s == [s[0]] + s[1..];
      if p(s[0]) {
        assert ([s[0]] + rest)[1..] == rest;
      } else {
        SubseqSkip(rest, s[1..], s[0]);
      }
    }
  }

  /** Prepending an element to the longer sequence keeps a subsequence. */
  lemma {:induction false} SubseqSkip<T>(a: seq<T>, b: seq<T>, x: T)
    requires IsSubseq(a, b)
    ensures IsSubseq(a, [x] + b)
    decreases |b|, 1
  {
    assert ([x] + b)[1..] == b;
    if |a| > 0 && a[0] == x {
      SubseqTail(a, b);
    }
  }

  lemma {:induction false} SubseqTail<T>(a: seq<T>, b: seq<T>)
    requires |a| > 0 && IsSubseq(a, b)
    ensures IsSubseq(a[1..], b)
    decreases |b|, 0
  {
    assert |b| > 0;
    assert b == [b[0]] + b[1..];
    if a[0] == b[0] {
      SubseqSkip(a[1..], b[1..], b[0]);
    } else {
      SubseqTail(a, b[1..]);
      SubseqSkip(a[1..], b[1..], b[0]);
    }
  }

  /** Concatenating two duplicate-free, disjoint sequences keeps them so. */
  lemma NoDupAppend<T>(a: seq<T>, b: seq<T>)
    requires NoDup(a) && NoDup(b)
    requires forall x :: x in a ==> x !in b
    ensures NoDup(a + b)
  {
    forall i, j | 0 <= i < j < |a + b| ensures (a + b)[i] != (a + b)[j] {
      if j < |a| {
      } else if i >= |a| {
        assert (a + b)[i] == b[i - |a|] && (a + b)[j] == b[j - |a|];
      } else {
        assert (a + b)[i] in a && (a + b)[j] == b[j - |a|];
      }
    }
  }

  /** A permutation of a duplicate-free sequence is duplicate-free. */
  lemma NoDupPermutation<T>(s: seq<T>, t: seq<T>)
    requires NoDup(s) && multiset(s) == multiset(t)
    ensures NoDup(t)
  {
    forall i, j | 0 <= i < j < |t| ensures t[i] != t[j] {
      if t[i] == t[j] {
        var v := t[i];
        assert t == t[..i] + [v] + t[i + 1..j] + [v] + t[j + 1..];
        assert multiset(t)[v] >= 2;
        NoDupMultiset(s, v);
        assert false;
      }
    }
  }

  /** In a duplicate-free sequence an element cannot be on both sides of a
      split. */
  lemma NoDupSplit<T>(s: seq<T>, k: nat, x: T)
    requires NoDup(s) && k <= |s|
    ensures x in s[..k] ==> x !in s[k..]
  {
  }

  /** Counting depends only on the predicate's values on the elements. */
  lemma {:induction false} CountIfCongruent<T>(s: seq<T>, p: T -> bool, q: T -> bool)
    requires forall x :: x in s ==> p(x) == q(x)
    ensures CountIf(s, p) == CountIf(s, q)
    decreases |s|
  {
    if |s| > 0 {
      assert forall x :: x in s[1..] ==> x in s;
      CountIfCongruent(s[1..], p, q);
    }
  }

  /** A weaker predicate counts at least as many elements. */
  lemma {:induction false} CountIfMonotone<T>(s: seq<T>, p: T -> bool, q: T -> bool)
    requires forall x :: x in s && p(x) ==> q(x)
    ensures CountIf(s, p) <= CountIf(s, q)
    decreases |s|
  {
    if |s| > 0 {
      assert forall x :: x in s[1..] ==> x in s;
      CountIfMonotone(s[1..], p, q);
    }
  }

  /** The count is positive exactly when some element satisfies `p`. */
  lemma {:induction false} CountIfPositive<T>(s: seq<T>, p: T -> bool)
    ensures CountIf(s, p) > 0 <==> exists x :: x in s && p(x)
    decreases |s|
  {
    if |s| > 0 {
      CountIfPositive(s[1..], p);
      assert forall x :: x in s <==> x == s[0] || x in s[1..];
    }
  }

  lemma {:induction false} FilterNoDup<T(!new)>(s: seq<T>, p: T -> bool)
    requires NoDup(s)
    ensures NoDup(Filter(s, p))
    decreases |s|
  {
    if |s| > 0 {
      assert NoDup(s[1..]) by {
        forall i, j | 0 <= i < j < |s[1..]| ensures s[1..][i] != s[1..][j] {
          assert s[1..][i] == s[i + 1] && s[1..][j] == s[j + 1];
        }
      }
      FilterNoDup(s[1..], p);
      var rest := Filter(s[1..], p);
      assert s[0] !in s[1..];
      if p(s[0]) {
        NoDupAppend([s[0]], rest);
      }
    }
  }

  /** Filtering one more element keeps it exactly when it satisfies `p`. */
  lemma {:induction false} FilterSnoc<T(!new)>(s: seq<T>, x: T, p: T -> bool)
    ensures Filter(s + [x], p) == Filter(s, p) + (if p(x) then [x] else [])
    decreases |s|
  {
    if |s| == 0 {
      assert [x][1..] == [];
    } else {
      assert (s + [x])[1..] == s[1..] + [x];
      FilterSnoc(s[1..], x, p);
    }
  }

  /** Applying a fallible step to every element in order: the first
      failure ends the whole, otherwise every result is kept. */
  function MapResult<T, U>(xs: seq<T>, f: T -> Result<U>): (r: Result<seq<U>>)
    ensures r.Failure? <==> exists i :: 0 <= i < |xs| && f(xs[i]).Failure?
    ensures r.Success? ==> |r.value| == |xs|
    ensures r.Success? ==> forall i :: 0 <= i < |xs| ==> f(xs[i]) == Success(r.value[i])
    decreases |xs|
  {
    if |xs| == 0 then Success([])
    else
      assert forall i :: 1 <= i < |xs| ==> xs[i] == xs[1..][i - 1];
      var first :- f(xs[0]);
      var rest :- MapResult(xs[1..], f);
      Success([first] + rest)
  }
}
