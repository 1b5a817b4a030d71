/**
 Generic list operations used by the item store: the array methods
 `filter`, `map` and `every` of JavaScript, lifted to Dafny sequences,
 together with the notion of a subsequence that states "in the original
 relative order".
 */
module Seqs {

  /** `a` can be obtained from `s` by deleting elements: either the head of
      `s` is kept as the head of `a`, or it is dropped. */
  predicate IsSubsequence<T(==)>(a: seq<T>, s: seq<T>)
    decreases |s|
  {
    if a == [] then true
    else if s == [] then false
    else (a[0] == s[0] && IsSubsequence(a[1..], s[1..])) || IsSubsequence(a, s[1..])
  }

  /** `a` holds every element of `s` that satisfies `p`, as often as `s`
      holds it, and nothing else. */
  ghost predicate KeepsExactly<T(!new)>(a: seq<T>, s: seq<T>, p: T -> bool)
  {
    forall x :: multiset(a)[x] == if p(x) then multiset(s)[x] else 0
  }

  /** `Array.prototype.filter`: the elements of `s` satisfying `p`, in order.
      `FilterExact` states which elements those are. */
  function Filter<T(==,!new)>(s: seq<T>, p: T -> bool): (r: seq<T>)
    ensures |r| <= |s|
    ensures forall i :: 0 <= i < |r| ==> p(r[i])
  {
    if s == [] then []
    else if p(s[0]) then [s[0]] + Filter(s[1..], p)
    else Filter(s[1..], p)
  }

  /** The filter keeps the order of `s`, and keeps every element satisfying
      `p` as often as `s` holds it. */
  lemma {:induction false} FilterExact<T(!new)>(s: seq<T>, p: T -> bool)
    ensures IsSubsequence(Filter(s, p), s)
    ensures KeepsExactly(Filter(s, p), s, p)
    decreases |s|
  {
    if s != [] {
      var r, t := Filter(s, p), s[1..];
      FilterExact(t, p);
      assert s == [s[0]] + t;
      if p(s[0]) {
        assert r == [s[0]] + Filter(t, p);
        assert r[1..] == Filter(t, p);
      }
    }
  }

  /** `Array.prototype.map`. */
  function Map<T, U>(s: seq<T>, f: T -> U): (r: seq<U>)
    ensures |r| == |s|
    ensures forall i :: 0 <= i < |s| ==> r[i] == f(s[i])
  {
    if s == [] then [] else [f(s[0])] + Map(s[1..], f)
  }

  /** Mapping distributes over concatenation. */
  lemma MapAppend<T, U>(a: seq<T>, b: seq<T>, f: T -> U)
    ensures Map(a + b, f) == Map(a, f) + Map(b, f)
  {
    var l, r := Map(a + b, f), Map(a, f) + Map(b, f);
    forall i | 0 <= i < |a + b| ensures l[i] == r[i] {
      if i < |a| {
        assert (a + b)[i] == a[i];
      } else {
        assert (a + b)[i] == b[i - |a|];
      }
    }
  }

  /** `Array.prototype.every`: vacuously true on the empty sequence. */
  function Every<T>(s: seq<T>, p: T -> bool): (b: bool)
    ensures b <==> forall i :: 0 <= i < |s| ==> p(s[i])
  {
    s == [] || (p(s[0]) && Every(s[1..], p))
  }

  /** Deleting elements never adds occurrences. */
  lemma {:induction false} SubsequenceMultiset<T>(a: seq<T>, s: seq<T>)
    requires IsSubsequence(a, s)
    ensures multiset(a) <= multiset(s)
    decreases |s|
  {
    if a == [] {
    } else {
      assert s == [s[0]] + s[1..];
      if a[0] == s[0] && IsSubsequence(a[1..], s[1..]) {
        assert a == [a[0]] + a[1..];
        SubsequenceMultiset(a[1..], s[1..]);
      } else {
        SubsequenceMultiset(a, s[1..]);
      }
    }
  }

  /** Mapping keeps the subsequence relation. */
  lemma {:induction false} MapSubsequence<T, U>(a: seq<T>, s: seq<T>, f: T -> U)
    requires IsSubsequence(a, s)
    ensures IsSubsequence(Map(a, f), Map(s, f))
    decreases |s|
  {
    if a == [] {
    } else if a[0] == s[0] && IsSubsequence(a[1..], s[1..]) {
      MapSubsequence(a[1..], s[1..], f);
      assert Map(a, f)[1..] == Map(a[1..], f);
      assert Map(s, f)[1..] == Map(s[1..], f);
    } else {
      MapSubsequence(a, s[1..], f);
      assert Map(s, f)[1..] == Map(s[1..], f);
    }
  }

  /** The two facts `Filter` guarantees pin its result down: a subsequence
      of `s` that keeps exactly the elements satisfying `p` IS `Filter(s, p)`.
      So "subsequence + exact multiplicities" is a complete description of
      a filter. */
  lemma {:induction false} FilterUnique<T(!new)>(s: seq<T>, p: T -> bool, a: seq<T>)
    requires IsSubsequence(a, s)
    requires KeepsExactly(a, s, p)
    ensures a == Filter(s, p)
    decreases |s|
  {
    if s == [] {
    } else {
      var x, t := s[0], s[1..];
      assert s == [x] + t;
      assert multiset(s) == multiset{x} + multiset(t);
      if a != [] && a[0] == x && IsSubsequence(a[1..], t) {
        assert a == [x] + a[1..];
        assert multiset(a) == multiset{x} + multiset(a[1..]);
        assert p(x) by {
          assert multiset(a)[x] > 0;
        }
        assert KeepsExactly(a[1..], t, p) by {
          forall y ensures multiset(a[1..])[y] == if p(y) then multiset(t)[y] else 0 {
            assert multiset(a)[y] == if p(y) then multiset(s)[y] else 0;
          }
        }
        FilterUnique(t, p, a[1..]);
      } else {
        // `a` skips the head, so it cannot hold every copy of `x`
        assert IsSubsequence(a, t);
        SubsequenceMultiset(a, t);
        assert multiset(a)[x] <= multiset(t)[x] < multiset(s)[x];
        assert !p(x);
        assert KeepsExactly(a, t, p) by {
          forall y ensures multiset(a)[y] == if p(y) then multiset(t)[y] else 0 {
            assert multiset(a)[y] == if p(y) then multiset(s)[y] else 0;
          }
        }
        FilterUnique(t, p, a);
      }
    }
  }

  /** Filtering distributes over concatenation. */
  lemma {:induction false} FilterAppend<T(!new)>(a: seq<T>, b: seq<T>, p: T -> bool)
    ensures Filter(a + b, p) == Filter(a, p) + Filter(b, p)
    decreases |a|
  {
    if a == [] {
      assert a + b == b;
    } else {
      assert (a + b)[1..] == a[1..] + b;
      FilterAppend(a[1..], b, p);
    }
  }

  /** A filter that rejects nothing is the identity. */
  lemma {:induction false} FilterKeepsAll<T(!new)>(s: seq<T>, p: T -> bool)
    requires forall i :: 0 <= i < |s| ==> p(s[i])
    ensures Filter(s, p) == s
    decreases |s|
  {
    if s != [] {
      FilterKeepsAll(s[1..], p);
    }
  }

  /** A filter that rejects exactly the element at `k` removes just it. */
  lemma FilterDropsOne<T(!new)>(s: seq<T>, p: T -> bool, k: int)
    requires 0 <= k < |s| && !p(s[k])
    requires forall i :: 0 <= i < |s| && i != k ==> p(s[i])
    ensures Filter(s, p) == s[..k] + s[k + 1..]
  {
    var before, after := s[..k], s[k + 1..];
    var rest := [s[k]] + after;
    assert s == before + rest;
    forall i | 0 <= i < |before| ensures p(before[i]) {
      assert before[i] == s[i];
    }
    forall i | 0 <= i < |after| ensures p(after[i]) {
      assert after[i] == s[k + 1 + i];
    }
    FilterKeepsAll(before, p);
    FilterKeepsAll(after, p);
    FilterAppend(before, rest, p);
    assert Filter(rest, p) == Filter(after, p) by {
      assert rest[1..] == after;
    }
  }

  /** A filter that accepts nothing yields the empty sequence. */
  lemma {:induction false} FilterKeepsNone<T(!new)>(s: seq<T>, p: T -> bool)
    requires forall i :: 0 <= i < |s| ==> !p(s[i])
    ensures Filter(s, p) == []
    decreases |s|
  {
    if s != [] {
      FilterKeepsNone(s[1..], p);
    }
  }

  /** Every element the filter returns comes from `s`. */
  lemma {:induction false} FilterMembers<T(!new)>(s: seq<T>, p: T -> bool)
    ensures forall k :: 0 <= k < |Filter(s, p)| ==> Filter(s, p)[k] in s
    decreases |s|
  {
    if s != [] {
      FilterMembers(s[1..], p);
      var r, f := Filter(s, p), Filter(s[1..], p);
      forall k | 0 <= k < |r| ensures r[k] in s {
        if p(s[0]) && k > 0 {
          assert r[k] == f[k - 1];
        }
        if !p(s[0]) {
          assert r[k] == f[k];
        }
      }
    }
  }

  /** An element that `p` accepts survives the filter. */
  lemma FilterKeepsWitness<T(!new)>(s: seq<T>, p: T -> bool, k: int)
    requires 0 <= k < |s| && p(s[k])
    ensures Filter(s, p) != []
  {
    FilterExact(s, p);
    assert multiset(Filter(s, p))[s[k]] == multiset(s)[s[k]] > 0;
  }

  /** Filtering twice with the same predicate is filtering once. */
  lemma FilterIdempotent<T(!new)>(s: seq<T>, p: T -> bool)
    ensures Filter(Filter(s, p), p) == Filter(s, p)
  {
    FilterKeepsAll(Filter(s, p), p);
  }

  /** Filters with two predicates commute. */
  lemma {:induction false} FilterCommute<T(!new)>(s: seq<T>, p: T -> bool, q: T -> bool)
    ensures Filter(Filter(s, p), q) == Filter(Filter(s, q), p)
    decreases |s|
  {
    if s != [] {
      FilterCommute(s[1..], p, q);
    }
  }

  /** Splitting by a predicate and its complement loses and adds nothing. */
  lemma FilterComplementPermutation<T(!new)>(s: seq<T>, p: T -> bool, q: T -> bool)
    requires forall x :: q(x) == !p(x)
    ensures multiset(Filter(s, p) + Filter(s, q)) == multiset(s)
  {
    var a, b := Filter(s, p), Filter(s, q);
    FilterExact(s, p);
    FilterExact(s, q);
    forall x ensures multiset(a + b)[x] == multiset(s)[x] {
      assert multiset(a + b) == multiset(a) + multiset(b);
    }
  }
}
