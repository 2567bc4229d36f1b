# Kitchen inventory and recipe suggestions — a Dafny model

This project models the core of a small kitchen web application. Users keep
an inventory of ingredients and a collection of recipes, and the application
suggests recipes by how many of their ingredients are on hand. The model
covers these parts:

- **The suggestion ranking (`getSuggestedRecipes`).** Each of the user's
  recipes is scored by the share of its required ingredient entries that are
  in the inventory, rounded to a whole percentage. Recipes scoring 0 are
  dropped. The rest are sorted by score, highest first, and recipes with
  equal scores keep their input order.
  - Modules: `Suggestions` (the computation) and `SuggestionProperties`
    (properties relating several calls, and worked examples).
- **The sample-data seeding plan (`insertDummyData`).**
  - The twenty common ingredients are upserted.
  - All ingredients are read back into a map from lower-cased name to id.
  - Five sample recipes are created, and each is linked to those of its
    listed ingredients whose lower-cased name resolves in the map.
  - Module: `Seeding`.
- **The client handlers.** These are: adjusting and adding inventory items
  (`InventoryPage`); the recipe builder's add, remove and submit
  (`RecipeBuilder`); and the add-to-inventory form (`AddIngredientForm`).
  The module `AddToInventory` connects the form to the inventory page.
- **JavaScript value semantics.** `JsValues` covers nullable values,
  `String.prototype.trim` with the ECMA-262 whitespace set, lower-casing,
  and string truthiness. `Entities` holds the table rows and the
  `{ data, error }` reply of a store call.

The store (the hosted database and its auth service) is not modelled as
code. Each handler takes the store's replies as parameters. It returns the
store calls it issues, in order, together with the component state it leaves.
Component state is an immutable record that is passed in and returned.

Three behaviours of the code worth knowing:

- **Rounding.** A score is 100 exactly when every entry is owned only for
  recipes with fewer than 200 entries. It is 0 exactly when no entry is owned
  only for recipes with at most 200 entries. The code rounds
  `available / total * 100` half up, so:
  - a recipe with 200 or more entries that misses one still shows 100;
  - a recipe with more than 200 entries that has one still shows 0.

  `Suggestions.PercentageExtremes` states the exact conditions. The model
  follows the code.
- **Read errors.** An error from either read inside `getSuggestedRecipes` is
  never examined. The reply's error is always null, and only the data of the
  reads matters (`SuggestionProperties.ReadErrorsIgnored`). The model follows
  the code.
- **The recipe builder's new-ingredient branch.** This branch calls
  `createIngredient`, which the new-recipe page never imports. The call fails
  before any state changes. `RecipeBuilder.AddIngredientToRecipe` models this
  as the outcome `Faulted`, with the builder left as it was.

## Model

| member | source | states |
|---|---|---|
| JsValues.Trim | src/components/AddIngredientForm.js:31 | the trimmed string is no longer than the input and neither starts nor ends with ECMA-262 whitespace |
| JsValues.TrimIsInfix | src/components/AddIngredientForm.js:31 | the trimmed string is an infix of the input with only whitespace before and after it |
| JsValues.TrimEmptyIffBlank | src/app/recipes/new/page.js:45 | a value trims to the empty (falsy) string exactly when it consists of whitespace only |
| JsValues.TrimIdempotent | src/app/recipes/new/page.js:45-46 | trimming an already trimmed value changes nothing |
| JsValues.ToLower | src/lib/database.js:176 | lower-casing keeps the length and maps each ASCII capital to its small letter, everything else unchanged |
| JsValues.ToLowerIdempotent | src/lib/database.js:176 | lower-casing twice is lower-casing once, so names differing only in case share one map key |
| Suggestions.OwnedIds | src/lib/database.js:99-100 | the owned ids are exactly the ingredient ids of the inventory items; no inventory data gives no ids |
| Suggestions.Available | src/lib/database.js:118-122 | the count equals the number of positions whose ingredient id is owned; it is at most the number of entries, equals it exactly when every entry is owned, and is 0 exactly when none is |
| Suggestions.Missing | src/lib/database.js:129-131 | the missing entries are exactly the unowned ones, in their original order, and owned plus missing account for every entry |
| Suggestions.MatchPercentage | src/lib/database.js:124-128 | the percentage is the nearest integer to `available/total*100` with halves rounding up, lies in 0..100, and is 0 for a recipe without entries |
| Suggestions.PercentageExtremes | src/lib/database.js:124-128 | the rounded percentage is 0 exactly when 200*available < total, and 100 exactly when 200*(total-available) <= total |
| Suggestions.Score | src/lib/database.js:117-132 | a scored recipe keeps the recipe unchanged, adds the rounded percentage and the missing entries, exactly the unowned entries in order with one per unowned position, so that owned plus missing counts every entry even when entries repeat; with fewer than 200 entries it scores 100 iff every entry is owned, with at most 200 it scores 0 iff none is |
| Suggestions.NothingOwnedScoresZero | src/lib/database.js:120-128 | a recipe none of whose entries is owned scores 0 whatever its size |
| Suggestions.KeepPositive | src/lib/database.js:133 | the filter keeps exactly the records with a positive percentage, as a subsequence of the input, so the overall input order is kept as well as each score's group |
| Suggestions.Insert | src/lib/database.js:134 | inserting into a sorted list keeps it sorted, adds exactly that record, and places it ahead of the equal-scored records already there |
| Suggestions.SortByScore | src/lib/database.js:134 | the sort yields a non-increasing permutation of its input in which records with equal percentage keep their input order |
| Suggestions.Suggest | src/lib/database.js:97-135 | the ranking contains exactly the positively scored recipes (as a multiset), each score in 1..100, sorted highest first, equal scores in input order; absent recipe data gives the empty list |
| Suggestions.GetSuggestedRecipes | src/lib/database.js:114-136 | the reply's data is the ranking of the read inventory and recipe data, and its error is always null; absent recipe data gives empty data |
| SuggestionProperties.ReadErrorsIgnored | src/lib/database.js:99-114 | the reply depends only on the data of the two reads, never on their errors |
| SuggestionProperties.NoInventoryNoSuggestions | src/lib/database.js:100-133 | with no inventory data, or an empty inventory, nothing is suggested |
| SuggestionProperties.EmptyRecipeNeverSuggested | src/lib/database.js:118-133 | a recipe without ingredient entries never appears in the ranking |
| SuggestionProperties.SortedGroupsDetermineOrder | src/lib/database.js:134 | two lists sorted by score that agree on each score's records in order are equal, so a stable descending sort has one possible result |
| SuggestionProperties.SuggestIsStableRanking | src/lib/database.js:133-134 | any list sorted highest first, without score 0, whose equal-score runs are those of the scored input in input order, is the ranking |
| SuggestionProperties.EqualScoresKeepInputOrder | src/lib/database.js:134 | two recipes with the same positive score are returned in the order they were read |
| SuggestionProperties.PartialMatchScenario | src/lib/database.js:117-132 | owning two of three ingredients scores 67 and lists only the third as missing |
| SuggestionProperties.FullMatchScenario | src/lib/database.js:117-132 | owning the only ingredient scores 100 with nothing missing |
| Seeding.IngredientMap | src/lib/database.js:174-176 | the map's keys are exactly the lower-cased ingredient names and each maps to the id of the last ingredient with that lower-cased name |
| Seeding.PlanLinks | src/lib/database.js:254-264 | there are increasing positions, exactly the entries whose lower-cased name maps to a truthy id, such that the k-th row is the link row of the entry at the k-th position (recipe id, that ingredient id, its quantity and unit); every entry gets a row exactly when all resolve |
| Seeding.CreateAndLink | src/lib/database.js:213-267 | every sample recipe is created unless the run aborts; the run aborts exactly when an insert returns an empty row list for a recipe with a resolvable entry; the calls are exactly the blocks of the recipes before the first abort, in recipe order and back to back, each an insert directly followed by the link calls of its plan for the first returned id, then the aborting recipe's insert if there is one; nothing follows an abort; every link row comes from the plan of a created recipe |
| Seeding.InsertDummyData | src/lib/database.js:140-273 | the upserts of the common ingredients and the read-back come first; without ingredient data nothing else happens and failure is reported; with it, the rest of the calls and the success flag are those of the creation loop over the name map, success is reported exactly when no recipe aborts, and every linked ingredient id is a truthy id from the name map |
| Seeding.LinkedIdsFromMap | src/lib/database.js:254-263 | every row the recipe loop links carries a truthy ingredient id taken from the name map |
| Seeding.UnlistedRecipeGetsNoRows | src/lib/database.js:254 | a recipe name outside the table gets no rows |
| Seeding.ShrimpNotInMap | src/lib/database.js:143-176 | when the stored ingredients are the common ones, "shrimp" is not a key of the name map |
| Seeding.ShrimpLineSkipped | src/lib/database.js:245-257 | in that case the Shrimp line does not resolve, so the shrimp recipe gets fewer rows than it lists |
| InventoryPage.LoadInventory | src/app/inventory/page.js:15-20 | with a user, the user's inventory is fetched and shown (empty when the reply has no data); without one nothing happens |
| InventoryPage.HandleUpdateQuantity | src/app/inventory/page.js:51-62 | a quantity at or below 0 issues no call and changes nothing; otherwise the calls are exactly the update for that item with that quantity, followed by a fetch of the signed-in user's inventory exactly when the update reports no error and a user is signed in; only the inventory list changes |
| InventoryPage.DecrementClicked | src/app/inventory/page.js:184 | the minus button issues a call exactly when the quantity is above 1, and at 1 or below changes nothing |
| InventoryPage.IncrementClicked | src/app/inventory/page.js:195 | the plus button issues the update to quantity+1 for every quantity above -1, in particular every positive one |
| InventoryPage.HandleAddIngredient | src/app/inventory/page.js:37-49 | without a user nothing happens; otherwise the calls are exactly the insert of the form data with the user id replaced by the current user's, followed by a fetch of that user's inventory exactly when the insert reports no error, which also closes the form |
| RecipeBuilder.FindById | src/app/recipes/new/page.js:64 | the lookup finds the first catalogue entry with the id, and finds none exactly when no entry has it |
| RecipeBuilder.AddIngredientToRecipe | src/app/recipes/new/page.js:44-85 | a disabled-button state changes nothing; the new-ingredient branch faults with no change; otherwise a known selection appends exactly one line at the end with the id, quantity, trimmed unit and the name of the first catalogue entry with that id, as `find` returns it, and resets the entry fields, and an unknown one changes nothing |
| RecipeBuilder.AddEnabledIffEffective | src/app/recipes/new/page.js:346 | outside the new-ingredient branch, a line is appended exactly when the Add button is enabled and the selected id is in the catalogue |
| RecipeBuilder.AppendedLinesComeFromCatalogue | src/app/recipes/new/page.js:64-77 | adding preserves that every line names an ingredient of the catalogue |
| RecipeBuilder.RemoveIngredient | src/app/recipes/new/page.js:87-89 | removing position i drops exactly that line and keeps the rest in order; an index out of range leaves the list unchanged |
| RecipeBuilder.HandleSubmit | src/app/recipes/new/page.js:91-128 | without a user or lines nothing happens; otherwise the recipe is created with trimmed fields; on an error or a reply without rows no line is written, else one row per line in order carrying the new recipe's id; submitting ends false |
| AddIngredientForm.HandleSubmit | src/components/AddIngredientForm.js:24-53 | a new ingredient is created (trimmed name, category "other") exactly in the new-ingredient branch, and besides that creation the only call is at most one hand-off to `onSubmit`; the resolved id is the created row's id (none when the reply has no row) or the selection; the entry is handed on exactly when the resolved id is truthy, with that id, the quantity, the trimmed unit, the expiry date or null and no user id; loading ends false |
| AddToInventory.InsertedRowCarriesFormEntry | src/components/AddIngredientForm.js:40-46 | an entry for a selected ingredient, handed to the inventory page, is inserted with the current user's id and the form's id, quantity, trimmed unit and expiry date |

## Left out

- Store and auth calls: the query builders of `src/lib/database.js:1-94` and `src/lib/auth.js` are thin wrappers over a client library that is not part of this model. Their replies are parameters, and any ordering they apply (by creation date, by name) is not modelled.
- Rendering, navigation and presentation: JSX, `router.push`, `window.location.reload`, badge tiers and list truncation on the dashboard, and locale date formatting.
- React effect and scheduling behaviour: the initial load effects, the stale `user` captured by `loadInventory` inside the init closure, and an effect depending on a function that is recreated on every render. These are timing artefacts, not domain rules.
- Floating point: quantities are Dafny `real`s. `parseFloat` of form text and a quantity field that holds text are not modelled. `Math.round` over doubles is replaced by exact integer round-half-up. The two disagree on some exact halves: in doubles `(23 / 40) * 100` is 57.49999999999999, so the code shows 57 where the model gives 58 (the smallest such recipe has 40 entries). The thresholds for 0 and 100 are not affected for recipes of up to 3000 entries.
- Ids are modelled as strings (for example uuids), and an id is truthy exactly when it is non-empty. A `<select>` value is always a string (`src/app/recipes/new/page.js:271`, `src/components/AddIngredientForm.js:77`), so the strict comparison `i.id === selectedIngredient` at `src/app/recipes/new/page.js:64` can only match string keys. With numeric keys that lookup would never succeed, `RecipeBuilder.AddIngredientToRecipe` could never reach its `Appended` outcome, and the truthiness tests at `src/lib/database.js:257` and `src/components/AddIngredientForm.js:40` would treat the id 0 as absent. Numeric keys are not modelled.
- `Date.now()` temporary keys of draft lines in the recipe builder.
- RecipeBuilder.AddIngredientToRecipe: the intended effect of the new-ingredient branch (create, refresh the catalogue, append) is not modelled, because the code cannot run it. Only its failure is modelled.
- JsValues.ToLower: only ASCII capitals are mapped. The full Unicode case mapping of `toLowerCase` is not modelled.
- Seeding.IngredientMap: the map is a plain key/value map. Keys a JavaScript object inherits from its prototype, such as `constructor`, are not modelled.
- Seeding.InsertDummyData: the description and instructions texts of the five sample recipes are not carried in the `CreateRecipe` calls. The exception path of an upsert or read throwing is not modelled, only absent read-back data.
- Seeding.ShrimpNotInMap: stated for a store whose ingredients all bear common-ingredient names, as right after seeding an empty table. Other stored ingredients may of course be named Shrimp.
- AddToInventory.InsertedRowCarriesFormEntry: stated for the existing-ingredient path; the new-ingredient path differs only in the id and is covered by `AddIngredientForm.HandleSubmit`.
- RecipeBuilder.HandleSubmit: the errors of the per-line inserts are not examined by the code and are not modelled. The redirect after success is left out.
