# Session personalisation core of the cooking proof of concept

The application shows a fixed catalog of eight recipes. Each "Cook This" click is
an implicit preference signal, and the grid of cards is filtered or reordered
around the cuisine clicked most. This project models that core in Dafny and
proves its behaviour:

- **Interaction ledger** (`InteractionLedger`). The page's `cuisineCounts` object
  is a sequence of (category, count) entries, held in the order the object
  enumerates its keys. `Record` is the update `handleCook` performs.
  - `PropertyKeys` states that order after section 10.1.11.1 of ECMA-262:
    array-index keys come first, ascending; every other key follows in creation
    order.
  - Under that order a click on a new non-numeric cuisine is appended at the end.
  - A click on a new array-index key ("7", say) is inserted among the leading
    index keys.
- **Dominant-category resolver** (`PreferenceResolver`). `Scan` is the loop of
  `getDominantCuisine`: a running maximum that starts at 0 and changes only on a
  strictly greater count. `Dominant` is the whole scan. `None` stands for the
  source's `null`.
- **Visibility policy** (`VisibilityPolicy`). `ComputeVisible` is
  `computeVisibleRecipes`, with three cases:
  - cold start shows the whole catalog;
  - exclusive mode shows an order-preserving filter;
  - inclusive mode shows a stable partition, dominant cuisine first.
  - "Cold start" follows JavaScript truthiness: a dominant `""` is falsy and
    counts as no preference.
- **Session** (`SessionController`). A session is the ledger plus the inclusive
  switch. It has three handlers:
  - `Cook` (`handleCook`);
  - `Reset` (`resetApp`);
  - `SetMode` (the toggle's change listener).

  It also models which explanation `renderUI` shows (`Explain`) and which cards
  carry the "Best Match" badge (`BestMatch`).
- **Catalog** (`Catalog`, `Walkthrough`). `Recipes` is `RECIPES` reduced to id
  and cuisine. The walk-through lemmas play sessions end to end on it, and on any
  catalog of the same shape.

## Model

| member | source | states |
|---|---|---|
| InteractionLedger.Record | script.js:195-198 | one click raises the clicked category's count by exactly one and leaves every other category's count unchanged; an absent category counts as 0 (`|| 0`) |
| InteractionLedger.Bump | script.js:196 | a click on a category already present changes no key and no position, raises only that entry, by one |
| InteractionLedger.Insert | script.js:196 | a click on a new category creates it with count 1 and adds no other key |
| InteractionLedger.CountAbsentIsZero | script.js:196 | a category that was never clicked reads as 0, the `|| 0` fallback |
| InteractionLedger.CountAt | script.js:196 | on a ledger with one entry per key, reading a key gives the count stored in that key's entry |
| InteractionLedger.IndexSlot | script.js:196 | the place of a new array-index key: every entry before it is an index key no larger than it, and the entry at it (if any) is not an index key or is a larger one |
| InteractionLedger.InsertIndexKey | script.js:196 | a new array-index key gets count 1 and adds no other key; every other count is unchanged; removing it gives back the old ledger |
| InteractionLedger.InsertIndexKeyAtSlot | script.js:196 | the new array-index key is spliced in exactly at that place: the old entries before it and after it keep their order |
| InteractionLedger.InsertIndexKeyValid | script.js:196 | inserting a new array-index key keeps the ledger in the object's enumeration order, with one entry per key and positive counts |
| InteractionLedger.RecordKeepsKeyOrder | script.js:196 | recording never reorders existing keys; a new non-numeric category is appended at the end; the key set grows by exactly the clicked category |
| InteractionLedger.RecordPreservesValid | script.js:196 | every ledger reachable by clicks keeps one entry per key, counts of at least 1, and the object's enumeration order |
| PreferenceResolver.Dominant | script.js:82-92 | the resolver returns null exactly when every count is zero, and otherwise one of the ledger's keys |
| PreferenceResolver.ScanStep | script.js:85-90 | each turn of the loop replaces the choice exactly when the count is strictly greater, and keeps "first maximum so far" true |
| PreferenceResolver.ScanCorrect | script.js:83-91 | the loop ends with no choice only when every count is zero, else with the first entry holding the largest count |
| PreferenceResolver.DominantIsFirstMaximum | script.js:82-92 | the resolver returns null exactly when no entry has a positive count, and otherwise the first entry in enumeration order with the largest count |
| PreferenceResolver.DominantNoneIffEmpty | script.js:82-92 | on a ledger built by clicks the resolver returns null exactly when the ledger is empty |
| PreferenceResolver.DominantIsMostCookedFirstEnumerated | script.js:82-92 | the dominant category is a recorded key, no category has a larger count, and every key enumerated before it has a strictly smaller count |
| PreferenceResolver.TieGoesToFirstRecorded | script.js:85-89 | one click on A then one on B resolves to A, and the reverse order to B (non-numeric categories) |
| PreferenceResolver.TieAtTwoGoesToFirstRecorded | script.js:85-89 | with two clicks each, alternating, the first category clicked still wins |
| PreferenceResolver.IndexKeyGoesFirst | script.js:85-89 | a click on a non-numeric category and then one on an array-index key enumerates the index key first, so it wins the tie |
| PreferenceResolver.IndexKeyWinsTie | script.js:85 | after "Filipino" then "7", the tie resolves to "7", which the object enumerates first |
| VisibilityPolicy.IsTruthy | script.js:98 | the resolver's result is falsy exactly when it is null or the empty string |
| VisibilityPolicy.ComputeVisible | script.js:94-120 | every card shown is a catalog card and no more cards than the catalog are shown; cold start and inclusive mode show as many cards as the catalog; exclusive mode shows only cards of the dominant category |
| VisibilityPolicy.Matching | script.js:105 | the exclusive filter keeps only items of the given category |
| VisibilityPolicy.Others | script.js:110-117 | the second group of the inclusive split holds no item of the given category |
| VisibilityPolicy.ColdStartShowsCatalog | script.js:98-100 | with no truthy dominant category the visible list is the catalog itself, in either mode |
| VisibilityPolicy.ExclusiveIsOrderedFilter | script.js:104-106 | exclusive mode gives a subsequence of the catalog holding every item of the dominant category and nothing else; its length is the number of matching items; it is empty exactly when none matches |
| VisibilityPolicy.MatchingIsUniqueFilter | script.js:104-106 | any order-preserving list of only matching items that holds each matching item as often as the catalog is the exclusive list |
| VisibilityPolicy.SplitIsPermutation | script.js:110-119 | the two groups together hold exactly the catalog's items and lengths |
| VisibilityPolicy.InclusiveIsStablePartition | script.js:110-119 | inclusive mode gives a permutation of the catalog, same length, every dominant-category item before every other, each group in catalog order |
| VisibilityPolicy.InclusiveIsUniquePartition | script.js:110-119 | any partitioned list whose two groups are the catalog's groups in catalog order is the inclusive list |
| SessionController.StartIsColdStart | script.js:69-70 | the page loads with nothing clicked and the switch on, showing the whole catalog with no explanation and no badge |
| SessionController.Cook | script.js:195-198 | a click changes only the clicked category's count, by one, and never the mode |
| SessionController.Reset | script.js:200-203 | reset sets every count to zero, leaves no dominant category and keeps the mode |
| SessionController.SetMode | script.js:206-209 | the toggle makes the mode the switch's state and leaves every count and the dominant category as they were |
| SessionController.Visible | script.js:123-125 | the cards the page shows come from the catalog; the whole catalog in cold start; as many cards as the catalog in inclusive mode; only the dominant category's cards in exclusive mode |
| SessionController.Explain | script.js:128-145 | the explanation is hidden exactly in cold start; otherwise it names the dominant category, which is non-empty, and says "highlighting" exactly in inclusive mode |
| SessionController.BestMatch | script.js:156-165 | a card carries the badge exactly when the explanation says "highlighting" and names the card's cuisine |
| SessionController.HandlersPreserveReachable | script.js:195-209 | the start state and every handler keep the ledger valid |
| SessionController.ResetReturnsToColdStart | script.js:200-203 | after reset the mode is unchanged, the full catalog shows, no explanation or badge remains, and reset after reset changes nothing |
| SessionController.SetModeKeepsClicks | script.js:206-209 | the toggle sets the mode to the switch's state and leaves every count and the dominant category unchanged; flipping back restores the session, and setting the current state changes nothing |
| SessionController.CookAllCounts | script.js:195-198 | a run of clicks raises each category's count by the number of times it was clicked, mode unchanged |
| SessionController.CountAfterResetIsClicks | script.js:195-203 | N clicks on one category after a reset leave its count at exactly N |
| SessionController.ColdStartIffNoClicks | script.js:98-100 | on a reachable session without an empty-string category, the page is in cold start exactly when nothing was clicked |
| SessionController.CookLeavesColdStart | script.js:195-198 | on a reachable session where "" was never clicked, a click on a non-empty category leaves cold start |
| SessionController.EmptyCategoryClickLooksCold | script.js:98-100 | a click on category "" is recorded and dominant, yet the page stays in cold start, shows the catalog and no explanation |
| SessionController.ExplanationSelection | script.js:128-145 | the explanation is hidden exactly in cold start; otherwise "highlighting" when inclusive and "hidden" when exclusive, naming the dominant category |
| SessionController.ExplanationMatchesVisible | script.js:94-145 | the explanation shown agrees with the cards shown: none means the whole catalog, "hidden" means exactly the named category in order, "highlighting" means all cards with the named category first |
| SessionController.BestMatchMarksLeadingGroup | script.js:156-165 | a visible card carries the badge exactly when the mode is inclusive, a category dominates, and the card lies in the leading group of that category's items |
| Walkthrough.RecipesGrouped | script.js:2-67 | the catalog holds four cuisines, two recipes each, ids 1 to 8 in order; the cuisine names are distinct, non-empty and not array indices |
| Walkthrough.FirstClick | script.js:195-198 | the first click on a non-numeric cuisine yields a one-entry ledger dominated by it |
| Walkthrough.WalkThroughOnGrouped | script.js:94-120 | on any four-cuisine, two-recipes-each catalog: clicking the first cuisine keeps ids 1-8; exclusive mode shows ids 1, 2; reset shows 1-8 again and keeps the mode off |
| Walkthrough.FilipinoWalkThrough | script.js:2-67 | on the application's catalog: a Filipino click shows ids 1-8 with the "highlighting" text, switching off shows ids 1, 2 with the "hidden" text, reset shows ids 1-8 with the switch still off |
| Walkthrough.SecondCuisineClickReorders | script.js:110-119 | on any such catalog, a first click on the second cuisine moves ids 3, 4 to the top, the rest in order |
| Walkthrough.JapaneseClickReorders | script.js:2-67 | on the application's catalog a first Japanese click shows ids 3, 4, 1, 2, 5, 6, 7, 8 |
| Walkthrough.UnknownCuisineEmptiesGrid | script.js:104-106 | on any such catalog, a click on a cuisine it lacks empties the exclusive grid while the "hidden" text names that cuisine |
| Walkthrough.UnknownCuisineEmptiesExclusiveGrid | script.js:2-67 | on the application's catalog a Thai click in exclusive mode shows no card |
| Walkthrough.TieMovesFirstClickedToTop | script.js:85-119 | on any such catalog, one click on the third cuisine and then one on the fourth puts the third cuisine's ids 5, 6 first |
| Walkthrough.ItalianBeforeIndian | script.js:2-67 | on the application's catalog, Italian then Indian shows ids 5, 6, 1, 2, 3, 4, 7, 8 |

## Left out

- DOM and rendering are not modelled: element lookups, `innerHTML` templates, CSS
  class strings, images, and the "No recipes found" markup (script.js:74-79,
  147-189). Only the choice of explanation variant and badge is modelled.
- `renderDebugChips` (script.js:132) is called but not defined in script.js, and
  its definition is not part of this model. The model assumes it is defined
  elsewhere on the page and returns normally. If it is missing, the call throws a
  ReferenceError whenever a truthy category dominates. `renderUI` then stops right
  after un-hiding the explanation panel (script.js:131): the explanation text,
  the grid and the badges keep their previous contents. `Explain`, `Visible`,
  `BestMatch` and the `Walkthrough` lemmas describe what the page shows only under
  this assumption.
- Event wiring is replaced by explicit transition functions: `addEventListener`,
  `window.handleCook`, and the initial `renderUI()` call. The toggle handler
  becomes `SetMode(s, checked)`, where `checked` is the checkbox state it reads.
- Items carry only `id` and `category`. `name`, `image`, `difficulty` and
  `isHealthy` are only displayed.
- Category names that are also properties of `Object.prototype` (`"toString"`,
  `"__proto__"`, ...) are not modelled. In the source, `cuisineCounts[c] || 0`
  would read an inherited value for them. The model treats every category as a
  plain own key starting from 0.
- The ledger invariant (`MayPrecede`) orders index keys by `<=` rather than `<`.
  Strictness follows from distinct keys, so the weaker form loses nothing the
  proofs need.
- "A new category is added at the end" holds only for categories that are not
  array indices. The code stores into a plain object, whose enumeration puts an
  index key such as "7" first. The model follows the code (`IndexKeyWinsTie`).
- InteractionLedger.Record: counts are unbounded naturals. JavaScript numbers are
  doubles, so at 2^53 the source's `(x || 0) + 1` rounds back to `x` and the count
  stops growing. "Exactly one more" holds in the source only below 2^53.
- SessionController.Cook: the same 2^53 limit applies to its "count plus one".
- SessionController.CookAllCounts: the same limit; a category's count equals its
  clicks only while it stays below 2^53.
- SessionController.CountAfterResetIsClicks: holds in the source only for n up to
  2^53.
- PreferenceResolver.DominantNoneIffEmpty: holds only on valid ledgers. An
  arbitrary sequence may carry zero counts, which no click produces.
- SessionController.ColdStartIffNoClicks: the source's "no preference exactly
  when nothing was clicked" does not hold when the empty-string category was
  clicked, because `""` is falsy at script.js:98. The lemma therefore assumes
  that case away, and `EmptyCategoryClickLooksCold` states it separately.
