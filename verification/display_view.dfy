/**
 What the list screen derives from the items without storing it: the
 display order `sortedItems` and the flag `allTasksCompleted`.

 `sortedItems` copies the list and sorts it with the comparator
 `Number(a.isCompleted) - Number(b.isCompleted)`. `Array.prototype.sort`
 must be stable (section 23.1.3.30 of ECMA-262, 2023 edition), and this
 comparator only tells incomplete from completed, so every conforming
 sort yields the same list: the incomplete entries in list order, then
 the completed ones in list order. `SortedView` computes that list;
 `StableSortUnique` shows that the sort's obligations allow nothing else.
 */
module DisplayView {
  import opened Seqs
  import opened Items
  import opened ItemStore

  /** `Number(x.isCompleted)`. */
  function Rank(x: Item): int
  {
    if x.isCompleted then 1 else 0
  }

  /** The comparator passed to `sort`: negative when `a` belongs before `b`. */
  function Compare(a: Item, b: Item): int
  {
    Rank(a) - Rank(b)
  }

  /** The output order the sort must produce: no pair out of order. */
  ghost predicate SortedByCompare(s: seq<Item>)
  {
    forall i, j :: 0 <= i < j < |s| ==> Compare(s[i], s[j]) <= 0
  }

  /** Stability for this comparator: entries comparing equal (same flag)
      keep their relative order from `items`. */
  ghost predicate StableFrom(r: seq<Item>, items: seq<Item>)
  {
    Filter(r, IsIncomplete) == Filter(items, IsIncomplete)
    && Filter(r, IsCompleted) == Filter(items, IsCompleted)
  }

  /** `sortedItems`. */
  function SortedView(items: seq<Item>): (r: seq<Item>)
    ensures multiset(r) == multiset(items)
    ensures SortedByCompare(r)
    ensures StableFrom(r, items)
  {
    var todo, done := Filter(items, IsIncomplete), Filter(items, IsCompleted);
    FilterComplementPermutation(items, IsIncomplete, IsCompleted);
    FilterAppend(todo, done, IsIncomplete);
    FilterAppend(todo, done, IsCompleted);
    FilterKeepsAll(todo, IsIncomplete);
    FilterKeepsNone(done, IsIncomplete);
    FilterKeepsNone(todo, IsCompleted);
    FilterKeepsAll(done, IsCompleted);
    todo + done
  }

  /** `allTasksCompleted`: false for an empty list, otherwise `every`. */
  function AllTasksCompleted(items: seq<Item>): (b: bool)
    ensures b <==> |items| > 0 && forall i :: 0 <= i < |items| ==> items[i].isCompleted
  {
    if |items| == 0 then false else Every(items, IsCompleted)
  }

  /** A list in comparator order is its incomplete part followed by its
      completed part. */
  lemma {:induction false} SortedSplits(r: seq<Item>)
    requires SortedByCompare(r)
    ensures r == Filter(r, IsIncomplete) + Filter(r, IsCompleted)
    decreases |r|
  {
    if r != [] {
      if r[0].isCompleted {
        SortedFromCompleted(r);
      } else {
        SortedSplits(r[1..]);
        assert r == [r[0]] + r[1..];
      }
    }
  }

  /** Everything after a completed entry is completed too, so a list in
      comparator order that starts with one has no incomplete part. */
  lemma SortedFromCompleted(r: seq<Item>)
    requires SortedByCompare(r) && r != [] && r[0].isCompleted
    ensures r == Filter(r, IsIncomplete) + Filter(r, IsCompleted)
  {
    forall i | 0 <= i < |r| ensures r[i].isCompleted {
      if i > 0 {
        assert Compare(r[0], r[i]) <= 0;
      }
    }
    FilterKeepsNone(r, IsIncomplete);
    FilterKeepsAll(r, IsCompleted);
  }

  /** Any output a conforming sort may give (in comparator order, and
      stable) equals `SortedView`. */
  lemma StableSortUnique(items: seq<Item>, r: seq<Item>)
    requires SortedByCompare(r)
    requires StableFrom(r, items)
    ensures r == SortedView(items)
  {
    SortedSplits(r);
  }

  /** Sorting the sorted view again changes nothing. */
  lemma SortedViewIdempotent(items: seq<Item>)
    ensures SortedView(SortedView(items)) == SortedView(items)
  {
    var v := SortedView(items);
    StableSortUnique(v, v);
  }

  /** The comparator is consistent in the sense of section 23.1.3.30.1 of
      ECMA-262: antisymmetric in sign and transitive, so the sort's result
      is not implementation-defined. */
  lemma CompareConsistent(a: Item, b: Item, c: Item)
    ensures Compare(a, a) == 0
    ensures Compare(a, b) < 0 <==> Compare(b, a) > 0
    ensures Compare(a, b) <= 0 && Compare(b, c) <= 0 ==> Compare(a, c) <= 0
    ensures Compare(a, b) == 0 && Compare(b, c) == 0 ==> Compare(a, c) == 0
  {
  }

  /** The confetti fires exactly when the list is non-empty and there is
      nothing left that "clear completed" would keep. */
  lemma AllDoneIffNothingLeft(items: seq<Item>)
    ensures AllTasksCompleted(items) <==> items != [] && ClearCompleted(items) == []
  {
    if items != [] && ClearCompleted(items) == [] {
      forall i | 0 <= i < |items| ensures items[i].isCompleted {
        assert multiset(ClearCompleted(items))[items[i]] == 0;
      }
    }
    if AllTasksCompleted(items) {
      FilterKeepsNone(items, IsIncomplete);
    }
  }

  /** The sorted view fires the confetti exactly when the list does. */
  lemma AllDoneOfSortedView(items: seq<Item>)
    ensures AllTasksCompleted(SortedView(items)) == AllTasksCompleted(items)
  {
    var v := SortedView(items);
    assert |v| == |items| by {
      assert |multiset(v)| == |multiset(items)|;
    }
    if AllTasksCompleted(items) {
      forall i | 0 <= i < |v| ensures v[i].isCompleted {
        assert v[i] in multiset(items);
      }
    }
    if AllTasksCompleted(v) {
      forall i | 0 <= i < |items| ensures items[i].isCompleted {
        assert items[i] in multiset(v);
      }
    }
  }
}
