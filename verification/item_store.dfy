/**
 The four list transformations the event handlers of `App` pass to
 `setItems`: add, toggle, delete (the confirmed branch of its dialog) and
 clear completed (likewise). Each is a pure function from the previous
 list to the next one.
 */
module ItemStore {
  import opened Seqs
  import opened Items

  /** `handleAddItem`: blank input is ignored; anything else is appended as
      a new, incomplete entry whose text is kept exactly as typed (the trim
      is only used for the test). `id` stands for `Date.now().toString()`. */
  function Add(items: seq<Item>, text: string, id: string): (r: seq<Item>)
    ensures IsBlank(text) ==> r == items
    ensures !IsBlank(text) ==> |r| == |items| + 1 && r[..|items|] == items
    ensures !IsBlank(text) ==> r[|items|] == Item(id, text, false)
  {
    TrimEmptyIffBlank(text);
    if Trim(text) == "" then items else items + [Item(id, text, false)]
  }

  /** The callback of `handleToggleComplete`'s `map`. */
  function Flip(x: Item, id: string): Item
  {
    if x.id == id then x.(isCompleted := !x.isCompleted) else x
  }

  /** `handleToggleComplete`: every entry carrying `id` (there may be several)
      has its flag flipped; ids, texts, order and all other entries stay. */
  function Toggle(items: seq<Item>, id: string): (r: seq<Item>)
    ensures |r| == |items|
    ensures forall i :: 0 <= i < |items| ==> r[i].id == items[i].id && r[i].text == items[i].text
    ensures forall i :: 0 <= i < |items| ==>
              (r[i].isCompleted != items[i].isCompleted <==> items[i].id == id)
  {
    Map(items, x => Flip(x, id))
  }

  /** The callback of `handleDeleteItem`'s `filter`. */
  function HasOtherId(id: string): Item -> bool
  {
    (x: Item) => x.id != id
  }

  /** `handleDeleteItem`, confirmed: the entries whose id differs from `id`,
      every one of them, in their original order. */
  function Delete(items: seq<Item>, id: string): (r: seq<Item>)
    ensures IsSubsequence(r, items)
    ensures forall x :: multiset(r)[x] == if x.id != id then multiset(items)[x] else 0
    ensures forall i :: 0 <= i < |r| ==> r[i].id != id
  {
    FilterExact(items, HasOtherId(id));
    Filter(items, HasOtherId(id))
  }

  /** `handleClearCompleted`, confirmed: the incomplete entries, every one
      of them, in their original order. */
  function ClearCompleted(items: seq<Item>): (r: seq<Item>)
    ensures IsSubsequence(r, items)
    ensures forall x :: multiset(r)[x] == if x.isCompleted then 0 else multiset(items)[x]
    ensures forall i :: 0 <= i < |r| ==> !r[i].isCompleted
  {
    FilterExact(items, IsIncomplete);
    Filter(items, IsIncomplete)
  }

  /** Toggling the same id twice restores the list. */
  lemma ToggleTwice(items: seq<Item>, id: string)
    ensures Toggle(Toggle(items, id), id) == items
  {
    var r := Toggle(Toggle(items, id), id);
    forall i | 0 <= i < |items| ensures r[i] == items[i] {
      assert r[i].isCompleted == items[i].isCompleted;
    }
  }

  /** Toggling an id no entry carries changes nothing. */
  lemma ToggleAbsent(items: seq<Item>, id: string)
    requires forall i :: 0 <= i < |items| ==> items[i].id != id
    ensures Toggle(items, id) == items
  {
    var r := Toggle(items, id);
    forall i | 0 <= i < |items| ensures r[i] == items[i] {
      assert r[i].isCompleted == items[i].isCompleted;
    }
  }

  /** Toggles of two ids can be applied in either order. */
  lemma ToggleCommutes(items: seq<Item>, a: string, b: string)
    ensures Toggle(Toggle(items, a), b) == Toggle(Toggle(items, b), a)
  {
    var l, r := Toggle(Toggle(items, a), b), Toggle(Toggle(items, b), a);
    forall i | 0 <= i < |items| ensures l[i] == r[i] {
      assert l[i].isCompleted == r[i].isCompleted;
    }
  }

  /** With unique ids, toggling the id of entry `k` changes entry `k` alone. */
  lemma ToggleUniqueChangesOne(items: seq<Item>, k: int)
    requires IdsUnique(items) && 0 <= k < |items|
    ensures Toggle(items, items[k].id)
            == items[k := items[k].(isCompleted := !items[k].isCompleted)]
  {
    var r := Toggle(items, items[k].id);
    var e := items[k := items[k].(isCompleted := !items[k].isCompleted)];
    forall i | 0 <= i < |items| ensures r[i] == e[i] {
      assert r[i].isCompleted == e[i].isCompleted;
    }
  }

  /** The contract of `Delete` describes exactly one list: any subsequence
      keeping precisely the entries with another id is `Delete`'s result. */
  lemma DeleteCharacterized(items: seq<Item>, id: string, a: seq<Item>)
    requires IsSubsequence(a, items)
    requires forall x :: multiset(a)[x] == if x.id != id then multiset(items)[x] else 0
    ensures a == Delete(items, id)
  {
    FilterUnique(items, HasOtherId(id), a);
  }

  /** Deleting an id no entry carries changes nothing. */
  lemma DeleteAbsent(items: seq<Item>, id: string)
    requires forall i :: 0 <= i < |items| ==> items[i].id != id
    ensures Delete(items, id) == items
  {
    FilterKeepsAll(items, HasOtherId(id));
  }

  /** Deleting twice is deleting once. */
  lemma DeleteIdempotent(items: seq<Item>, id: string)
    ensures Delete(Delete(items, id), id) == Delete(items, id)
  {
    FilterIdempotent(items, HasOtherId(id));
  }

  /** With unique ids, deleting the id of entry `k` removes entry `k` alone. */
  lemma DeleteUniqueRemovesOne(items: seq<Item>, k: int)
    requires IdsUnique(items) && 0 <= k < |items|
    ensures Delete(items, items[k].id) == items[..k] + items[k + 1..]
  {
    var p := HasOtherId(items[k].id);
    forall i | 0 <= i < |items| && i != k ensures p(items[i]) {
    }
    FilterDropsOne(items, p, k);
  }

  /** The contract of `ClearCompleted` describes exactly one list. */
  lemma ClearCompletedCharacterized(items: seq<Item>, a: seq<Item>)
    requires IsSubsequence(a, items)
    requires forall x :: multiset(a)[x] == if x.isCompleted then 0 else multiset(items)[x]
    ensures a == ClearCompleted(items)
  {
    FilterUnique(items, IsIncomplete, a);
  }

  /** Clearing twice is clearing once. */
  lemma ClearCompletedIdempotent(items: seq<Item>)
    ensures ClearCompleted(ClearCompleted(items)) == ClearCompleted(items)
  {
    FilterIdempotent(items, IsIncomplete);
  }

  /** With nothing completed, clearing changes nothing. */
  lemma ClearCompletedNothingDone(items: seq<Item>)
    requires forall i :: 0 <= i < |items| ==> !items[i].isCompleted
    ensures ClearCompleted(items) == items
  {
    FilterKeepsAll(items, IsIncomplete);
  }

  /** Deleting and clearing can be done in either order. */
  lemma DeleteClearCommute(items: seq<Item>, id: string)
    ensures Delete(ClearCompleted(items), id) == ClearCompleted(Delete(items, id))
  {
    FilterCommute(items, IsIncomplete, HasOtherId(id));
  }
}
