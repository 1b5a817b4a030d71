/**
 The pure front of `handleGenerateRecipe`: it collects the texts of the
 entries still to buy and refuses, before any request is made, when there
 are fewer than two. What happens after the guard (the credential check,
 the request and its alerts) is outside this model; `Generate` marks the
 point where the service would be called, with the list it would get.
 */
module Recipe {
  import opened Seqs
  import opened Items
  import opened ItemStore
  import opened DisplayView

  /** The fewest ingredients the recipe request accepts. */
  const MinIngredients: nat := 2

  datatype RecipeRequest =
    | NotEnoughIngredients
    | Generate(ingredients: seq<string>)

  /** `items.filter(item => !item.isCompleted).map(item => item.text)`:
      position by position, the texts of the entries "clear completed"
      would keep, and so the texts of the list in list order with some
      left out. `IngredientsComplete` and `IngredientsSound` say which. */
  function Ingredients(items: seq<Item>): (r: seq<string>)
    ensures |r| == |ClearCompleted(items)|
    ensures forall k :: 0 <= k < |r| ==> r[k] == ClearCompleted(items)[k].text
    ensures IsSubsequence(r, Map(items, TextOf))
  {
    var todo := Filter(items, IsIncomplete);
    FilterExact(items, IsIncomplete);
    MapSubsequence(todo, items, TextOf);
    Map(todo, TextOf)
  }

  /** Every entry still to buy contributes its text. */
  lemma IngredientsComplete(items: seq<Item>, i: int)
    requires 0 <= i < |items| && !items[i].isCompleted
    ensures items[i].text in Ingredients(items)
  {
    var todo := ClearCompleted(items);
    assert items[i] in multiset(todo);
    var k :| 0 <= k < |todo| && todo[k] == items[i];
    assert Ingredients(items)[k] == items[i].text;
  }

  /** Every ingredient is the text of an entry still to buy. */
  lemma IngredientsSound(items: seq<Item>, k: int)
    requires 0 <= k < |Ingredients(items)|
    ensures exists i :: 0 <= i < |items| && !items[i].isCompleted && items[i].text == Ingredients(items)[k]
  {
    var todo := ClearCompleted(items);
    assert todo[k] in multiset(items);
    var i :| 0 <= i < |items| && items[i] == todo[k];
    assert !items[i].isCompleted && items[i].text == Ingredients(items)[k];
  }

  /** Some two distinct entries are both still to buy. */
  ghost predicate HasTwoIncomplete(items: seq<Item>)
  {
    exists i, j :: 0 <= i < j < |items| && !items[i].isCompleted && !items[j].isCompleted
  }

  /** The guard of `handleGenerateRecipe`: refuse with fewer than two
      ingredients, otherwise go on with exactly the ingredient list. */
  function RequestRecipe(items: seq<Item>): (r: RecipeRequest)
    ensures r.NotEnoughIngredients? <==> !HasTwoIncomplete(items)
    ensures r.Generate? ==> r.ingredients == Ingredients(items) && |r.ingredients| >= MinIngredients
  {
    var ingredients := Ingredients(items);
    TwoIncompleteIffEnough(items);
    if |ingredients| < MinIngredients then NotEnoughIngredients else Generate(ingredients)
  }

  /** At least two entries survive the incomplete-filter exactly when two
      distinct positions hold incomplete entries. */
  lemma TwoIncompleteIffEnough(items: seq<Item>)
    ensures |Filter(items, IsIncomplete)| >= 2 <==> HasTwoIncomplete(items)
  {
    if HasTwoIncomplete(items) {
      var i, j :| 0 <= i < j < |items| && !items[i].isCompleted && !items[j].isCompleted;
      EnoughFromTwo(items, i, j);
    }
    if |Filter(items, IsIncomplete)| >= 2 {
      TwoFromEnough(items);
    }
  }

  /** Two incomplete entries give two ingredients. */
  lemma EnoughFromTwo(items: seq<Item>, i: int, j: int)
    requires 0 <= i < j < |items| && !items[i].isCompleted && !items[j].isCompleted
    ensures |Filter(items, IsIncomplete)| >= 2
  {
    assert items == items[..j] + items[j..];
    FilterAppend(items[..j], items[j..], IsIncomplete);
    FilterKeepsWitness(items[..j], IsIncomplete, i);
    FilterKeepsWitness(items[j..], IsIncomplete, 0);
  }

  /** Two ingredients come from two incomplete entries. */
  lemma {:induction false} TwoFromEnough(items: seq<Item>)
    requires |Filter(items, IsIncomplete)| >= 2
    ensures HasTwoIncomplete(items)
    decreases |items|
  {
    var t := items[1..];
    var f := Filter(t, IsIncomplete);
    if !items[0].isCompleted {
      assert Filter(items, IsIncomplete) == [items[0]] + f;
      FilterMembers(t, IsIncomplete);
      var j :| 0 <= j < |t| && t[j] == f[0];
      assert !items[0].isCompleted && !items[j + 1].isCompleted;
    } else {
      assert Filter(items, IsIncomplete) == f;
      TwoFromEnough(t);
      var i, j :| 0 <= i < j < |t| && !t[i].isCompleted && !t[j].isCompleted;
      assert !items[i + 1].isCompleted && !items[j + 1].isCompleted;
    }
  }

  /** When every entry is completed no request is made. */
  lemma AllDoneRefusesRecipe(items: seq<Item>)
    requires AllTasksCompleted(items)
    ensures RequestRecipe(items) == NotEnoughIngredients
  {
  }

  /** The display order does not change the ingredient list. */
  lemma IngredientsOfSortedView(items: seq<Item>)
    ensures Ingredients(SortedView(items)) == Ingredients(items)
  {
  }

  /** Clearing completed entries does not change the ingredient list. */
  lemma IngredientsAfterClear(items: seq<Item>)
    ensures Ingredients(ClearCompleted(items)) == Ingredients(items)
  {
    FilterIdempotent(items, IsIncomplete);
  }

  /** Adding text appends it, as typed, to the ingredient list; blank input
      leaves the list as it was. */
  lemma IngredientsAfterAdd(items: seq<Item>, text: string, id: string)
    ensures IsBlank(text) ==> Ingredients(Add(items, text, id)) == Ingredients(items)
    ensures !IsBlank(text) ==> Ingredients(Add(items, text, id)) == Ingredients(items) + [text]
  {
    if !IsBlank(text) {
      var r := Add(items, text, id);
      assert r == r[..|items|] + [r[|items|]];
      IngredientsOfAppended(items, Item(id, text, false));
    }
  }

  /** Appending an incomplete entry appends its text to the ingredients. */
  lemma IngredientsOfAppended(items: seq<Item>, added: Item)
    requires !added.isCompleted
    ensures Ingredients(items + [added]) == Ingredients(items) + [added.text]
  {
    var todo := Filter(items, IsIncomplete);
    FilterAppend(items, [added], IsIncomplete);
    assert Filter([added], IsIncomplete) == [added];
    MapAppend(todo, [added], TextOf);
  }
}
