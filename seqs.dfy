/** Filtering of sequences (`Array.prototype.filter`) and order-preserving subsequences. */
module Seqs {

  /** The elements of `s` that satisfy `p`, in their original order. */
  function Filter<T(!new)>(s: seq<T>, p: T -> bool): (r: seq<T>)
    ensures |r| <= |s|
    ensures forall x :: x in r <==> x in s && p(x)
  {
    if s == [] then []
    else Filter(s[..|s| - 1], p) + (if p(s[|s| - 1]) then [s[|s| - 1]] else [])
  }

  /** The elements of `s` at the positions where `keep` is true, in their original order. */
  function Select<T>(s: seq<T>, keep: seq<bool>): seq<T>
    requires |keep| == |s|
  {
    if s == [] then []
    else Select(s[..|s| - 1], keep[..|keep| - 1]) + (if keep[|keep| - 1] then [s[|s| - 1]] else [])
  }

  /** `a` is obtained from `b` by deleting some elements and keeping the order of the rest. */
  ghost predicate IsSubsequence<T>(a: seq<T>, b: seq<T>)
  {
    exists keep: seq<bool> :: |keep| == |b| && a == Select(b, keep)
  }

  /** The mask that `Filter(s, p)` applies to `s`. */
  function MaskOf<T>(s: seq<T>, p: T -> bool): (keep: seq<bool>)
    ensures |keep| == |s|
  {
    seq(|s|, i requires 0 <= i < |s| => p(s[i]))
  }

  lemma {:induction false} FilterIsSelect<T(!new)>(s: seq<T>, p: T -> bool)
    ensures Filter(s, p) == Select(s, MaskOf(s, p))
  {
    if s != [] {
      var n := |s| - 1;
      assert MaskOf(s, p)[..n] == MaskOf(s[..n], p);
      FilterIsSelect(s[..n], p);
    }
  }

  /** A filter keeps the order of what it keeps. */
  lemma FilterIsSubsequence<T(!new)>(s: seq<T>, p: T -> bool)
    ensures IsSubsequence(Filter(s, p), s)
  {
    FilterIsSelect(s, p);
  }

  /** Filtering twice is filtering once by the conjunction. */
  lemma {:induction false} FilterFilter<T(!new)>(s: seq<T>, p: T -> bool, q: T -> bool, both: T -> bool)
    requires forall x :: both(x) == (p(x) && q(x))
    ensures Filter(Filter(s, p), q) == Filter(s, both)
  {
    if s != [] {
      var n := |s| - 1;
      FilterFilter(s[..n], p, q, both);
      var head := Filter(s[..n], p);
      if p(s[n]) {
        assert (head + [s[n]])[..|head + [s[n]]| - 1] == head;
      } else {
        assert Filter(s, p) == head;
      }
    }
  }

  /** A filter whose predicate holds everywhere keeps everything. */
  lemma {:induction false} FilterAll<T(!new)>(s: seq<T>, p: T -> bool)
    requires forall x :: x in s ==> p(x)
    ensures Filter(s, p) == s
  {
    if s != [] {
      var init := s[..|s| - 1];
      FilterAll(init, p);
      assert s == init + [s[|s| - 1]];
    }
  }

  /** A filter whose predicate holds nowhere keeps nothing. */
  lemma {:induction false} FilterNone<T(!new)>(s: seq<T>, p: T -> bool)
    requires forall i :: 0 <= i < |s| ==> !p(s[i])
    ensures Filter(s, p) == []
  {
    if s != [] {
      FilterNone(s[..|s| - 1], p);
    }
  }

  /** Filtering distributes over concatenation. */
  lemma {:induction false} FilterConcat<T(!new)>(a: seq<T>, b: seq<T>, p: T -> bool)
    ensures Filter(a + b, p) == Filter(a, p) + Filter(b, p)
  {
    if b != [] {
      var n := |b| - 1;
      assert (a + b)[..|a + b| - 1] == a + b[..n];
      FilterConcat(a, b[..n], p);
    } else {
      assert a + b == a;
    }
  }

  /** Filters with pointwise equal predicates agree. */
  lemma {:induction false} FilterExt<T(!new)>(s: seq<T>, p: T -> bool, q: T -> bool)
    requires forall x :: p(x) == q(x)
    ensures Filter(s, p) == Filter(s, q)
  {
    if s != [] {
      FilterExt(s[..|s| - 1], p, q);
    }
  }

  /** `f` tells apart every two positions of `s`. */
  ghost predicate Injective<T, K>(s: seq<T>, f: T -> K)
  {
    forall i, j :: 0 <= i < j < |s| ==> f(s[i]) != f(s[j])
  }

  /** The set of values `f` takes on `s`. */
  function Image<T, K>(s: seq<T>, f: T -> K): set<K>
  {
    set i | 0 <= i < |s| :: f(s[i])
  }

  /** A filter keeps injectivity. */
  lemma {:induction false} FilterInjective<T(!new), K>(s: seq<T>, p: T -> bool, f: T -> K)
    requires Injective(s, f)
    ensures Injective(Filter(s, p), f)
  {
    if s != [] {
      var n := |s| - 1;
      var head := Filter(s[..n], p);
      FilterInjective(s[..n], p, f);
      if p(s[n]) {
        forall k | 0 <= k < |head|
          ensures f(head[k]) != f(s[n])
        {
          assert head[k] in s[..n];
          var i :| 0 <= i < n && s[..n][i] == head[k];
          assert s[i] == head[k];
        }
        var r := head + [s[n]];
        forall i, j | 0 <= i < j < |r|
          ensures f(r[i]) != f(r[j])
        {
          if j < |head| {
            assert r[i] == head[i] && r[j] == head[j];
          } else {
            assert r[i] == head[i] && r[j] == s[n];
          }
        }
      }
    }
  }

  /** An injective `f` takes as many values on `s` as `s` has elements. */
  lemma {:induction false} InjectiveImageCard<T, K>(s: seq<T>, f: T -> K)
    requires Injective(s, f)
    ensures |Image(s, f)| == |s|
  {
    if s != [] {
      var n := |s| - 1;
      InjectiveImageCard(s[..n], f);
      assert Image(s, f) == Image(s[..n], f) + {f(s[n])};
      assert f(s[n]) !in Image(s[..n], f);
    } else {
      assert Image(s, f) == {};
    }
  }

  /** `f` takes at most as many values on `s` as `s` has elements. */
  lemma {:induction false} ImageCardAtMost<T, K>(s: seq<T>, f: T -> K)
    ensures |Image(s, f)| <= |s|
  {
    if s != [] {
      var n := |s| - 1;
      ImageCardAtMost(s[..n], f);
      assert Image(s, f) == Image(s[..n], f) + {f(s[n])};
    } else {
      assert Image(s, f) == {};
    }
  }

  /** A value is in the image exactly when some element of `s` maps to it. */
  lemma ImageMember<T, K>(s: seq<T>, f: T -> K, y: K)
    ensures y in Image(s, f) <==> exists x :: x in s && f(x) == y
  {
    if exists x :: x in s && f(x) == y {
      var x :| x in s && f(x) == y;
      var i :| 0 <= i < |s| && s[i] == x;
      assert f(s[i]) in Image(s, f);
    }
  }
}
