# Grocery list item store, in Dafny

The grocery-list app keeps its entries in one React state array, `items`.
Each entry is `{ id, text, isCompleted }`. Every event handler in `App.tsx`
changes the list by passing a pure array transformation to `setItems`:

- adding appends a new entry, but only when the input is not blank;
- toggling flips the completion flag;
- deleting and clearing completed entries filter the list.

The screen derives two values without storing them. `sortedItems` lists
incomplete entries before completed ones. `allTasksCompleted` starts the
confetti. The recipe button sends the texts of the incomplete
entries to a language-model service, but refuses to do so with fewer than
two of them.

This project models that logic as pure functions over `seq<Item>` and
proves what each one does:

- `seqs.dfy` (`Seqs`) holds JavaScript's `filter`, `map` and `every` on
  sequences, plus the subsequence relation. `FilterUnique` shows that
  "a subsequence keeping exactly the accepted elements, with their
  multiplicities" describes a filter's result completely.
- `items.dfy` (`Items`) holds the entry datatype. It also models
  `String.prototype.trim` with the white-space set of ECMA-262 (2023
  edition). That set is the WhiteSpace production of section 12.2 plus
  the LineTerminator production of section 12.3.
- `item_store.dfy` (`ItemStore`) holds add, toggle, delete and clear
  completed, with their inverse, idempotence, frame and characterisation
  lemmas.
- `display_view.dfy` (`DisplayView`) holds the sorted view and the all-done
  flag. `Array.prototype.sort` must be stable (section 23.1.3.30 of
  ECMA-262). This comparator only separates incomplete entries from
  completed ones. So every conforming sort gives one result: the stable
  partition computed by `SortedView`. `StableSortUnique` proves this.
- `recipe.dfy` (`Recipe`) holds the ingredient list and the
  fewer-than-two guard.
- `store.dfy` (`Store`) replays user actions, one `setItems` call each.
  It proves that stored texts are never blank. It also proves that ids
  stay unique provided the clock never gives out the same id twice.

Nothing in the code keeps ids unique. An id is `Date.now().toString()`
(App.tsx:65), and toggle and delete act on every entry that carries it.
So the model does not assume unique ids. `Store.RunKeepsIdsUnique` states the condition under which they stay
unique. `Store.SharedIdTogglesBoth` shows what happens otherwise.

## Model

| member | source | states |
|---|---|---|
| Items.TrimStart | App.tsx:63 | the result is the longest suffix of the input that does not start with an ECMA-262 white-space or line-terminator character; everything dropped is such a character |
| Items.TrimEnd | App.tsx:63 | the result is the longest prefix of the input that does not end with a white-space or line-terminator character; everything dropped is such a character |
| Items.Trim | App.tsx:63 | the trimmed text is a contiguous slice of the input, every character outside that slice is white space or a line terminator, and the slice, when non-empty, starts and ends with a character `trim` keeps |
| Items.TrimEmptyIffBlank | App.tsx:63 | `text.trim() === ""` holds exactly when every character of the text is white space or a line terminator (the empty text included) |
| ItemStore.Add | App.tsx:62-72 | blank input returns the list unchanged; otherwise the old list is kept as a prefix and exactly one entry is appended at the end, with the given id, the text as typed (not trimmed) and `isCompleted` false |
| ItemStore.Toggle | App.tsx:86-92 | length, order, every id and every text are kept; an entry's flag changes if and only if its id equals the argument, so all entries sharing that id flip |
| ItemStore.ToggleTwice | App.tsx:87-91 | toggling the same id twice gives back the original list |
| ItemStore.ToggleAbsent | App.tsx:87-91 | toggling an id that no entry carries leaves the list unchanged |
| ItemStore.ToggleCommutes | App.tsx:86-92 | toggles of two ids give the same list in either order |
| ItemStore.ToggleUniqueChangesOne | App.tsx:87-91 | when ids are unique, toggling entry k's id changes entry k's flag and nothing else |
| ItemStore.Delete | App.tsx:74-84 | the result is a subsequence of the list (original order) holding every entry whose id differs from the argument, with its multiplicity, and no entry with that id |
| ItemStore.DeleteCharacterized | App.tsx:80 | any subsequence of the list keeping exactly the entries with another id equals the delete result, so its contract determines it |
| ItemStore.DeleteAbsent | App.tsx:80 | deleting an id that no entry carries leaves the list unchanged |
| ItemStore.DeleteIdempotent | App.tsx:80 | deleting the same id twice equals deleting it once |
| ItemStore.DeleteUniqueRemovesOne | App.tsx:80 | when ids are unique, deleting entry k's id removes exactly entry k and keeps the rest in order |
| ItemStore.ClearCompleted | App.tsx:94-110 | the result is a subsequence of the list (original order) holding every incomplete entry, with its multiplicity, and no completed entry |
| ItemStore.ClearCompletedCharacterized | App.tsx:103-105 | any subsequence keeping exactly the incomplete entries equals the clear result |
| ItemStore.ClearCompletedIdempotent | App.tsx:103-105 | clearing twice equals clearing once |
| ItemStore.ClearCompletedNothingDone | App.tsx:103-105 | with no completed entries, clearing leaves the list unchanged |
| ItemStore.DeleteClearCommute | App.tsx:74-110 | deleting an id and clearing completed entries give the same list in either order |
| DisplayView.SortedView | App.tsx:175-179 | the view is a permutation of the list (same multiset); no pair is out of comparator order, so every incomplete entry precedes every completed one; within each group the list order is kept |
| DisplayView.SortedSplits | App.tsx:176-178 | a list in comparator order is its incomplete entries followed by its completed entries |
| DisplayView.StableSortUnique | App.tsx:176-178 | any list that is in comparator order and keeps the list order within each group equals the sorted view, so the stable sort has exactly one possible result |
| DisplayView.SortedViewIdempotent | App.tsx:175-179 | sorting the sorted view again changes nothing |
| DisplayView.CompareConsistent | App.tsx:177 | the comparator `Number(a.isCompleted) - Number(b.isCompleted)` is reflexive, antisymmetric in sign and transitive, as ECMA-262 requires for a well-defined sort |
| DisplayView.AllTasksCompleted | App.tsx:181-184 | the flag is true if and only if the list is non-empty and every entry is completed; it is false for the empty list |
| DisplayView.AllDoneIffNothingLeft | App.tsx:181-184 | the flag is true exactly when the list is non-empty and clearing completed entries would leave nothing |
| DisplayView.AllDoneOfSortedView | App.tsx:175-184 | the sorted view has the flag set exactly when the list does |
| Recipe.Ingredients | App.tsx:113-115 | the ingredients are a subsequence of the entries' texts in list order, one per entry that clear-completed keeps, and position k holds the text of the k-th such entry |
| Recipe.IngredientsComplete | App.tsx:113-115 | the text of every incomplete entry is among the ingredients |
| Recipe.IngredientsSound | App.tsx:113-115 | every ingredient is the text of some incomplete entry |
| Recipe.TwoIncompleteIffEnough | App.tsx:113-117 | at least two entries pass the incomplete-filter exactly when two distinct positions hold incomplete entries |
| Recipe.RequestRecipe | App.tsx:113-123 | the request is refused, and no ingredient list reaches the service, exactly when fewer than two entries are incomplete; otherwise it proceeds with exactly the ingredient list, of length at least two |
| Recipe.AllDoneRefusesRecipe | App.tsx:113-123 | when every entry is completed the recipe request is refused |
| Recipe.IngredientsOfSortedView | App.tsx:113-115 | the sorted view yields the same ingredient list as the list itself |
| Recipe.IngredientsAfterClear | App.tsx:113-115 | clearing completed entries does not change the ingredient list |
| Recipe.IngredientsAfterAdd | App.tsx:62-72 | adding non-blank text appends that text, as typed, to the ingredient list; blank input leaves it unchanged |
| Recipe.IngredientsOfAppended | App.tsx:113-115 | appending an incomplete entry appends its text to the ingredient list |
| Store.ApplyKeepsTextsNonBlank | App.tsx:62-110 | no single action stores an entry with blank text in a list without one |
| Store.RunKeepsTextsNonBlank | App.tsx:62-110 | from a list without blank texts, no sequence of actions produces one |
| Store.ApplyIds | App.tsx:62-110 | an action introduces no id except the one it adds |
| Store.ApplyKeepsIdsUnique | App.tsx:62-110 | one action keeps ids unique when an id it adds is new to the list |
| Store.RunKeepsIdsUnique | App.tsx:65 | ids stay unique through any sequence of actions whose added ids are distinct and new to the starting list |
| Store.SharedIdTogglesBoth | App.tsx:65 | two adds that read the same `Date.now()` value break uniqueness, and one toggle then completes both entries |

## Left out

- Rendering, styles, `FlatList`, the confetti, `Keyboard.dismiss` and the components in `src/components/` are presentation only, with no list logic.
- The `Alert.alert` confirmation dialogs of delete and clear are not modelled. Only the confirmed branch is, because the cancelled branch leaves the list unchanged.
- Loading and saving through `AsyncStorage` (App.tsx:34-60) are left out. They are asynchronous I/O, and the encoding is `JSON.stringify`/`JSON.parse`, which this model cannot see. For the same reason the save-then-load round trip is not stated.
- `src/services/aiService.ts` is not part of this model. It is an outbound HTTP request plus a field lookup in the response. `Recipe.RequestRecipe` stops where the service would be called and returns the ingredient list it would receive.
- The API-key check (App.tsx:125-131), the `isGenerating` busy flag and notification scheduling (App.tsx:148-173) are left out. They depend on build configuration, asynchronous UI state and platform services.
- `Date.now()` is an external clock, so the id is a parameter of `Add` and of the `AddItem` action.
- Items.IsBlank: JavaScript strings are UTF-16 code-unit sequences, while Dafny strings are sequences of Unicode scalar values. So a lone surrogate cannot be represented. Every character `trim` removes lies in the Basic Multilingual Plane, so no other input differs.
- Items.IsWhiteSpaceChar: the Space_Separator (Zs) category is fixed to its Unicode 15.0 members, because ECMA-262 defers it to the Unicode version in use.
- React batching and the ordering of queued `setItems` updaters are not modelled. `Store.Run` applies actions one after another, as React applies functional updates in order.
