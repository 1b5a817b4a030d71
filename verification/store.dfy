/**
 The list as a state that user actions replace, one `setItems` call at a
 time, and the invariants this replay keeps: every stored text is
 non-blank, and ids stay unique as long as the clock never hands out an id
 twice.
 */
module Store {
  import opened Seqs
  import opened Items
  import opened ItemStore

  /** One user action that reaches `setItems` (dialogs confirmed). */
  datatype Action =
    | AddItem(text: string, id: string)
    | ToggleComplete(id: string)
    | DeleteItem(id: string)
    | ClearCompletedItems

  function Apply(items: seq<Item>, a: Action): seq<Item>
  {
    match a
    case AddItem(text, id) => Add(items, text, id)
    case ToggleComplete(id) => Toggle(items, id)
    case DeleteItem(id) => Delete(items, id)
    case ClearCompletedItems => ClearCompleted(items)
  }

  /** The list after `actions`, applied in order to `items`. */
  function Run(items: seq<Item>, actions: seq<Action>): seq<Item>
    decreases |actions|
  {
    if actions == [] then items else Run(Apply(items, actions[0]), actions[1..])
  }

  predicate TextsNonBlank(items: seq<Item>)
  {
    forall i :: 0 <= i < |items| ==> !IsBlank(items[i].text)
  }

  function Ids(items: seq<Item>): set<string>
  {
    set i | 0 <= i < |items| :: items[i].id
  }

  /** The ids of the entries that `actions` would add. */
  function AddedIds(actions: seq<Action>): seq<string>
    decreases |actions|
  {
    if actions == [] then []
    else (if actions[0].AddItem? then [actions[0].id] else []) + AddedIds(actions[1..])
  }

  predicate Distinct(s: seq<string>)
  {
    forall i, j :: 0 <= i < |s| && 0 <= j < |s| && i != j ==> s[i] != s[j]
  }

  /** Entries that survive a filter were entries before it. */
  lemma SubsequenceMembers(a: seq<Item>, s: seq<Item>)
    requires IsSubsequence(a, s)
    ensures forall k :: 0 <= k < |a| ==> a[k] in s
  {
    SubsequenceMultiset(a, s);
    forall k | 0 <= k < |a| ensures a[k] in s {
      assert a[k] in multiset(a);
    }
  }

  /** Dropping entries cannot create a shared id. */
  lemma {:induction false} SubsequenceKeepsIdsUnique(a: seq<Item>, s: seq<Item>)
    requires IsSubsequence(a, s) && IdsUnique(s)
    ensures IdsUnique(a)
    decreases |s|
  {
    if a != [] {
      var t := s[1..];
      assert IdsUnique(t) by {
        forall i, j | 0 <= i < |t| && 0 <= j < |t| && i != j ensures t[i].id != t[j].id {
          assert t[i] == s[i + 1] && t[j] == s[j + 1];
        }
      }
      if a[0] == s[0] && IsSubsequence(a[1..], t) {
        SubsequenceKeepsIdsUnique(a[1..], t);
        SubsequenceMembers(a[1..], t);
        forall i, j | 0 <= i < |a| && 0 <= j < |a| && i != j ensures a[i].id != a[j].id {
          if i > 0 && j > 0 {
            assert a[i] == a[1..][i - 1] && a[j] == a[1..][j - 1];
          } else {
            var k := if i == 0 then j else i;
            assert a[k] == a[1..][k - 1];
            var m :| 0 <= m < |t| && t[m] == a[k];
            assert s[m + 1] == a[k];
          }
        }
      } else {
        SubsequenceKeepsIdsUnique(a, t);
      }
    }
  }

  /** No action stores a blank text. */
  lemma ApplyKeepsTextsNonBlank(items: seq<Item>, a: Action)
    requires TextsNonBlank(items)
    ensures TextsNonBlank(Apply(items, a))
  {
    var r := Apply(items, a);
    match a
    case AddItem(text, id) =>
    case ToggleComplete(id) =>
    case DeleteItem(id) =>
      SubsequenceMembers(r, items);
    case ClearCompletedItems =>
      SubsequenceMembers(r, items);
  }

  /** Starting from a list without blank texts, no sequence of actions
      produces one. */
  lemma {:induction false} RunKeepsTextsNonBlank(items: seq<Item>, actions: seq<Action>)
    requires TextsNonBlank(items)
    ensures TextsNonBlank(Run(items, actions))
    decreases |actions|
  {
    if actions != [] {
      ApplyKeepsTextsNonBlank(items, actions[0]);
      RunKeepsTextsNonBlank(Apply(items, actions[0]), actions[1..]);
    }
  }

  /** An action introduces no id but the one it adds. */
  lemma ApplyIds(items: seq<Item>, a: Action)
    ensures Ids(Apply(items, a)) <= Ids(items) + (if a.AddItem? then {a.id} else {})
  {
    var r := Apply(items, a);
    match a
    case AddItem(text, id) =>
      AddIds(items, text, id);
    case ToggleComplete(id) =>
      forall x | x in Ids(r) ensures x in Ids(items) {
        var k :| 0 <= k < |r| && r[k].id == x;
        assert items[k].id == x;
      }
    case DeleteItem(id) =>
      SubsequenceIds(r, items);
    case ClearCompletedItems =>
      SubsequenceIds(r, items);
  }

  /** Adding introduces at most the added id. */
  lemma AddIds(items: seq<Item>, text: string, id: string)
    ensures Ids(Add(items, text, id)) <= Ids(items) + {id}
  {
    var r := Add(items, text, id);
    forall x | x in Ids(r) ensures x in Ids(items) + {id} {
      var k :| 0 <= k < |r| && r[k].id == x;
      if k < |items| {
        assert r[k] == r[..|items|][k];
      }
    }
  }

  /** Dropping entries introduces no id. */
  lemma SubsequenceIds(a: seq<Item>, s: seq<Item>)
    requires IsSubsequence(a, s)
    ensures Ids(a) <= Ids(s)
  {
    SubsequenceMembers(a, s);
    forall x | x in Ids(a) ensures x in Ids(s) {
      var k :| 0 <= k < |a| && a[k].id == x;
      var m :| 0 <= m < |s| && s[m] == a[k];
    }
  }

  /** One action keeps ids unique when an added id is new to the list. */
  lemma ApplyKeepsIdsUnique(items: seq<Item>, a: Action)
    requires IdsUnique(items)
    requires a.AddItem? ==> a.id !in Ids(items)
    ensures IdsUnique(Apply(items, a))
  {
    var r := Apply(items, a);
    match a
    case AddItem(text, id) =>
      if !IsBlank(text) {
        forall i, j | 0 <= i < |r| && 0 <= j < |r| && i != j ensures r[i].id != r[j].id {
          if i < |items| && j < |items| {
            assert r[i] == r[..|items|][i] && r[j] == r[..|items|][j];
          } else {
            var k := if i < |items| then i else j;
            assert r[k] == r[..|items|][k];
            assert items[k].id in Ids(items);
          }
        }
      }
    case ToggleComplete(id) =>
    case DeleteItem(id) =>
      SubsequenceKeepsIdsUnique(r, items);
    case ClearCompletedItems =>
      SubsequenceKeepsIdsUnique(r, items);
  }

  /** Every id that `actions` adds is new: distinct from each other and
      from the ids in `items`. */
  predicate FreshIds(items: seq<Item>, actions: seq<Action>)
  {
    var ids := AddedIds(actions);
    Distinct(ids) && forall k :: 0 <= k < |ids| ==> ids[k] !in Ids(items)
  }

  /** An id absent before an action is absent after it, unless added. */
  lemma StaysAbsent(items: seq<Item>, a: Action, x: string)
    requires x !in Ids(items) && (a.AddItem? ==> x != a.id)
    ensures x !in Ids(Apply(items, a))
  {
    ApplyIds(items, a);
  }

  /** Freshness survives the first action, and covers that action's id. */
  lemma FreshIdsStep(items: seq<Item>, actions: seq<Action>)
    requires actions != [] && FreshIds(items, actions)
    ensures actions[0].AddItem? ==> actions[0].id !in Ids(items)
    ensures FreshIds(Apply(items, actions[0]), actions[1..])
  {
    var a, rest := actions[0], actions[1..];
    var ids, restIds := AddedIds(actions), AddedIds(rest);
    var head := if a.AddItem? then [a.id] else [];
    assert ids == head + restIds;
    if a.AddItem? {
      assert ids[0] == a.id;
    }
    forall k | 0 <= k < |restIds| ensures restIds[k] !in Ids(Apply(items, a)) {
      assert restIds[k] == ids[k + |head|];
      StaysAbsent(items, a, restIds[k]);
    }
    DistinctSuffix(head, restIds);
  }

  /** A suffix of a repetition-free sequence is repetition-free. */
  lemma DistinctSuffix(head: seq<string>, rest: seq<string>)
    requires Distinct(head + rest)
    ensures Distinct(rest)
  {
    var all := head + rest;
    forall i, j | 0 <= i < |rest| && 0 <= j < |rest| && i != j
      ensures rest[i] != rest[j]
    {
      assert rest[i] == all[i + |head|] && rest[j] == all[j + |head|];
    }
  }

  /** Ids stay unique through any replay in which every added id is new.
      With `Date.now()` as the id source this is the assumption that no two
      adds share a millisecond. */
  lemma {:induction false} RunKeepsIdsUnique(items: seq<Item>, actions: seq<Action>)
    requires IdsUnique(items) && FreshIds(items, actions)
    ensures IdsUnique(Run(items, actions))
    decreases |actions|
  {
    if actions != [] {
      FreshIdsStep(items, actions);
      ApplyKeepsIdsUnique(items, actions[0]);
      RunKeepsIdsUnique(Apply(items, actions[0]), actions[1..]);
    }
  }

  /** Without fresh ids the invariant fails and toggle acts on more than one
      entry: two adds that read the same millisecond, then one tap on either
      entry, complete both. */
  lemma SharedIdTogglesBoth(items: seq<Item>, first: string, second: string, id: string)
    requires !IsBlank(first) && !IsBlank(second)
    ensures var r := Run(items, [AddItem(first, id), AddItem(second, id), ToggleComplete(id)]);
            |r| == |items| + 2 && r[|items|].isCompleted && r[|items| + 1].isCompleted
            && !IdsUnique(r)
  {
    var actions := [AddItem(first, id), AddItem(second, id), ToggleComplete(id)];
    var one := Add(items, first, id);
    var two := Add(one, second, id);
    var three := Toggle(two, id);
    assert two[|items|] == one[|items|] == Item(id, first, false);
    assert Run(items, actions) == Run(one, actions[1..]);
    assert Run(one, actions[1..]) == Run(two, actions[2..]);
    assert Run(two, actions[2..]) == three;
    assert three[|items|].id == three[|items| + 1].id;
  }
}
