/** The sample-data seeding of `insertDummyData`: twenty common ingredients
    are upserted by name, all ingredients are read back into a map from
    lower-cased name to id (the last ingredient with a given lower-cased name
    wins), five sample recipes are created, and each created recipe is linked
    to those of its listed ingredients whose lower-cased name is in the map
    with a truthy id; the others are skipped without a trace. */
module Seeding {
  import opened JsValues
  import opened Entities

  /** The twenty ingredients upserted (on conflict by name) first. */
  const CommonIngredients: seq<NewIngredient> := [
    NewIngredient("Tomato", "vegetable"),
    NewIngredient("Onion", "vegetable"),
    NewIngredient("Garlic", "vegetable"),
    NewIngredient("Olive Oil", "oil"),
    NewIngredient("Salt", "spice"),
    NewIngredient("Black Pepper", "spice"),
    NewIngredient("Chicken Breast", "meat"),
    NewIngredient("Rice", "grain"),
    NewIngredient("Pasta", "grain"),
    NewIngredient("Egg", "dairy"),
    NewIngredient("Milk", "dairy"),
    NewIngredient("Cheese", "dairy"),
    NewIngredient("Flour", "grain"),
    NewIngredient("Butter", "dairy"),
    NewIngredient("Lemon", "fruit"),
    NewIngredient("Basil", "herb"),
    NewIngredient("Oregano", "herb"),
    NewIngredient("Chili Powder", "spice"),
    NewIngredient("Cumin", "spice"),
    NewIngredient("Bell Pepper", "vegetable")
  ]

  /** The names of the five sample recipes, in creation order. */
  const SampleRecipeNames: seq<string> := [
    "Simple Pasta Carbonara",
    "Chicken Stir Fry",
    "Tomato Basil Soup",
    "Classic Margherita Pizza",
    "Lemon Garlic Shrimp"
  ]

  /** One line of the per-recipe ingredient table. */
  datatype SeedEntry = SeedEntry(name: string, quantity: real, unit: string)

  /** `recipeIngredients[recipe.name] || []`: the listed ingredients of a
      sample recipe, and nothing for any other name. */
  function SeedTable(recipeName: string): seq<SeedEntry> {
    if recipeName == "Simple Pasta Carbonara" then
      [ SeedEntry("Pasta", 1.0, "pound"), SeedEntry("Egg", 4.0, "pieces"),
        SeedEntry("Cheese", 1.0, "cup"), SeedEntry("Black Pepper", 1.0, "teaspoon") ]
    else if recipeName == "Chicken Stir Fry" then
      [ SeedEntry("Chicken Breast", 2.0, "pieces"), SeedEntry("Bell Pepper", 2.0, "pieces"),
        SeedEntry("Onion", 1.0, "piece"), SeedEntry("Garlic", 3.0, "cloves"),
        SeedEntry("Olive Oil", 2.0, "tablespoons") ]
    else if recipeName == "Tomato Basil Soup" then
      [ SeedEntry("Tomato", 6.0, "pieces"), SeedEntry("Onion", 1.0, "piece"),
        SeedEntry("Garlic", 2.0, "cloves"), SeedEntry("Basil", 1.0, "cup"),
        SeedEntry("Olive Oil", 2.0, "tablespoons") ]
    else if recipeName == "Classic Margherita Pizza" then
      [ SeedEntry("Flour", 3.0, "cups"), SeedEntry("Tomato", 4.0, "pieces"),
        SeedEntry("Cheese", 2.0, "cups"), SeedEntry("Basil", 1.0, "cup"),
        SeedEntry("Olive Oil", 3.0, "tablespoons") ]
    else if recipeName == "Lemon Garlic Shrimp" then
      [ SeedEntry("Shrimp", 1.0, "pound"), SeedEntry("Lemon", 2.0, "pieces"),
        SeedEntry("Garlic", 4.0, "cloves"), SeedEntry("Olive Oil", 3.0, "tablespoons"),
        SeedEntry("Black Pepper", 1.0, "teaspoon") ]
    else
      []
  }

  /* ------------------------------------------------------------------ */
  /* The name-keyed ingredient map                                       */
  /* ------------------------------------------------------------------ */

  /** No later ingredient shares the lower-cased name of `all[i]`. */
  predicate LastWithName(all: seq<Ingredient>, i: int)
    requires 0 <= i < |all|
  {
    forall j :: i < j < |all| ==> ToLower(all[j].name) != ToLower(all[i].name)
  }

  /** `allIngredients.forEach(ing => ingredientMap[ing.name.toLowerCase()] = ing.id)`:
      the keys are exactly the lower-cased names, and each key maps to the id
      of the last ingredient with that lower-cased name. */
  function IngredientMap(all: seq<Ingredient>): (m: map<string, Id>)
    ensures m.Keys == NameKeys(all)
    ensures forall i :: 0 <= i < |all| && LastWithName(all, i) ==>
              m[ToLower(all[i].name)] == all[i].id
  {
    if all == [] then map[]
    else
      var init := all[..|all| - 1];
      var m := IngredientMap(init)[ToLower(all[|all| - 1].name) := all[|all| - 1].id];
      IngredientMapStep(all, IngredientMap(init), m);
      m
  }

  /** The keys of the lower-cased names of a sequence of ingredients. */
  function NameKeys(all: seq<Ingredient>): set<string> {
    set i | 0 <= i < |all| :: ToLower(all[i].name)
  }

  /** The inductive step of `IngredientMap`: adding the last ingredient. */
  lemma IngredientMapStep(all: seq<Ingredient>, before: map<string, Id>, m: map<string, Id>)
    requires all != []
    requires before.Keys == NameKeys(all[..|all| - 1])
    requires forall i :: 0 <= i < |all| - 1 && LastWithName(all[..|all| - 1], i) ==>
               before[ToLower(all[i].name)] == all[i].id
    requires m == before[ToLower(all[|all| - 1].name) := all[|all| - 1].id]
    ensures m.Keys == NameKeys(all)
    ensures forall i :: 0 <= i < |all| && LastWithName(all, i) ==>
              m[ToLower(all[i].name)] == all[i].id
  {
    IngredientMapKeys(all, before.Keys);
    forall i | 0 <= i < |all| && LastWithName(all, i)
      ensures m[ToLower(all[i].name)] == all[i].id
    {
      if i < |all| - 1 {
        LastWithNameInInit(all, i);
      }
    }
  }

  /** Adding the last ingredient's lower-cased name to the keys of the
      others gives the keys of all. */
  lemma IngredientMapKeys(all: seq<Ingredient>, keys: set<string>)
    requires all != []
    requires keys == NameKeys(all[..|all| - 1])
    ensures keys + {ToLower(all[|all| - 1].name)} == NameKeys(all)
  {
    var init := all[..|all| - 1];
    forall k | k in keys ensures k in NameKeys(all) {
      var i :| 0 <= i < |init| && ToLower(init[i].name) == k;
      assert init[i] == all[i];
    }
    forall i | 0 <= i < |all| - 1 ensures ToLower(all[i].name) in keys {
      assert init[i] == all[i];
    }
  }

  /** An ingredient before the last that is the last with its name among all
      is so among the others too, and does not share the last one's name. */
  lemma LastWithNameInInit(all: seq<Ingredient>, i: int)
    requires 0 <= i < |all| - 1 && LastWithName(all, i)
    ensures LastWithName(all[..|all| - 1], i)
    ensures ToLower(all[i].name) != ToLower(all[|all| - 1].name)
  {
    var init := all[..|all| - 1];
    forall j | i < j < |init| ensures ToLower(init[j].name) != ToLower(init[i].name) {
      assert init[j] == all[j];
    }
  }

  /* ------------------------------------------------------------------ */
  /* Linking one recipe                                                  */
  /* ------------------------------------------------------------------ */

  /** `ingredientMap[ing.name.toLowerCase()]` is present and truthy. */
  predicate Resolves(m: map<string, Id>, e: SeedEntry) {
    ToLower(e.name) in m && Truthy(m[ToLower(e.name)])
  }

  /** The row linking the created recipe to a resolved entry. */
  function LinkRow(m: map<string, Id>, e: SeedEntry, recipeId: Id): RecipeIngredientRow
    requires Resolves(m, e)
  {
    RecipeIngredientRow(recipeId, m[ToLower(e.name)], e.quantity, e.unit)
  }

  /** `rows` are the rows of the entries at the strictly increasing
      positions `idx`, and those positions are exactly the resolving ones. */
  predicate RowsAt(m: map<string, Id>, entries: seq<SeedEntry>, recipeId: Id,
                   rows: seq<RecipeIngredientRow>, idx: seq<nat>)
  {
    && |idx| == |rows|
    && (forall k :: 0 <= k < |idx| ==>
          idx[k] < |entries| && Resolves(m, entries[idx[k]])
          && rows[k] == LinkRow(m, entries[idx[k]], recipeId))
    && (forall k, l :: 0 <= k < l < |idx| ==> idx[k] < idx[l])
    && (forall j :: 0 <= j < |entries| && Resolves(m, entries[j]) ==> j in idx)
  }

  /** The rows written for one created recipe: one per resolvable entry,
      in table order; an entry that does not resolve is skipped. */
  function PlanLinks(m: map<string, Id>, entries: seq<SeedEntry>, recipeId: Id)
    : (rows: seq<RecipeIngredientRow>)
    ensures exists idx :: RowsAt(m, entries, recipeId, rows, idx)
    ensures |rows| <= |entries|
    ensures forall row :: row in rows <==>
              exists e :: e in entries && Resolves(m, e) && row == LinkRow(m, e, recipeId)
    ensures |rows| == |entries| <==> forall e :: e in entries ==> Resolves(m, e)
    ensures forall row :: row in rows ==> row.recipeId == recipeId && Truthy(row.ingredientId)
  {
    if entries == [] then
      assert RowsAt(m, entries, recipeId, [], []);
      []
    else
      var rest := PlanLinks(m, entries[1..], recipeId);
      assert forall e :: e in entries <==> e == entries[0] || e in entries[1..];
      var idx :| RowsAt(m, entries[1..], recipeId, rest, idx);
      if Resolves(m, entries[0]) then
        var rows := [LinkRow(m, entries[0], recipeId)] + rest;
        assert forall row :: row in rows <==> row == rows[0] || row in rest;
        RowsAtPrepend(m, entries, recipeId, rest, idx);
        rows
      else
        RowsAtSkip(m, entries, recipeId, rest, idx);
        rest
  }

  /** The positions of the tail's rows, moved up by one, are those of the
      whole list's rows when the head does not resolve. */
  lemma RowsAtSkip(m: map<string, Id>, entries: seq<SeedEntry>, recipeId: Id,
                   rest: seq<RecipeIngredientRow>, idx: seq<nat>)
    requires entries != [] && !Resolves(m, entries[0])
    requires RowsAt(m, entries[1..], recipeId, rest, idx)
    ensures RowsAt(m, entries, recipeId, rest, Shifted(idx))
  {
    var shifted := Shifted(idx);
    forall k | 0 <= k < |idx|
      ensures shifted[k] < |entries| && Resolves(m, entries[shifted[k]])
              && rest[k] == LinkRow(m, entries[shifted[k]], recipeId)
    {
      assert entries[shifted[k]] == entries[1..][idx[k]];
    }
    forall j | 0 <= j < |entries| && Resolves(m, entries[j]) ensures j in shifted {
      ShiftedCovers(entries, m, idx, j);
    }
  }

  /** With the head resolving, its row goes first at position 0, followed
      by the tail's rows at their positions moved up by one. */
  lemma RowsAtPrepend(m: map<string, Id>, entries: seq<SeedEntry>, recipeId: Id,
                      rest: seq<RecipeIngredientRow>, idx: seq<nat>)
    requires entries != [] && Resolves(m, entries[0])
    requires RowsAt(m, entries[1..], recipeId, rest, idx)
    ensures RowsAt(m, entries, recipeId, [LinkRow(m, entries[0], recipeId)] + rest, [0] + Shifted(idx))
  {
    PrependRowsMatch(m, entries, recipeId, rest, idx);
    PrependIncreasing(idx);
    forall j | 0 <= j < |entries| && Resolves(m, entries[j]) ensures j in [0] + Shifted(idx) {
      if j > 0 {
        ShiftedCovers(entries, m, idx, j);
      }
    }
  }

  /** The rows of `RowsAtPrepend` sit at their positions. */
  lemma PrependRowsMatch(m: map<string, Id>, entries: seq<SeedEntry>, recipeId: Id,
                         rest: seq<RecipeIngredientRow>, idx: seq<nat>)
    requires entries != [] && Resolves(m, entries[0]) && |idx| == |rest|
    requires forall k :: 0 <= k < |idx| ==>
               idx[k] < |entries[1..]| && Resolves(m, entries[1..][idx[k]])
               && rest[k] == LinkRow(m, entries[1..][idx[k]], recipeId)
    ensures var all := [0] + Shifted(idx);
            var rows := [LinkRow(m, entries[0], recipeId)] + rest;
            forall k :: 0 <= k < |all| ==>
              all[k] < |entries| && Resolves(m, entries[all[k]])
              && rows[k] == LinkRow(m, entries[all[k]], recipeId)
  {
    var shifted := Shifted(idx);
    var rows := [LinkRow(m, entries[0], recipeId)] + rest;
    var all := [0] + shifted;
    forall k | 0 <= k < |all|
      ensures all[k] < |entries| && Resolves(m, entries[all[k]])
              && rows[k] == LinkRow(m, entries[all[k]], recipeId)
    {
      if k > 0 {
        assert all[k] == shifted[k - 1] && rows[k] == rest[k - 1];
        assert entries[shifted[k - 1]] == entries[1..][idx[k - 1]];
      }
    }
  }

  /** 0 followed by increasing positions moved up by one is increasing. */
  lemma PrependIncreasing(idx: seq<nat>)
    requires forall k, l :: 0 <= k < l < |idx| ==> idx[k] < idx[l]
    ensures var all := [0] + Shifted(idx);
            forall k, l :: 0 <= k < l < |all| ==> all[k] < all[l]
  {
    var shifted := Shifted(idx);
    var all := [0] + shifted;
    forall k, l | 0 <= k < l < |all| ensures all[k] < all[l] {
      if k > 0 {
        assert all[k] == shifted[k - 1] && all[l] == shifted[l - 1];
      }
    }
  }

  /** Every position moved up by one. */
  function Shifted(idx: seq<nat>): (r: seq<nat>)
    ensures |r| == |idx|
    ensures forall k :: 0 <= k < |idx| ==> r[k] == idx[k] + 1
    ensures forall k, l :: 0 <= k < l < |idx| && idx[k] < idx[l] ==> r[k] < r[l]
  {
    seq(|idx|, k requires 0 <= k < |idx| => idx[k] + 1)
  }

  /** A resolving position past the head is a tail position moved up by one. */
  lemma ShiftedCovers(entries: seq<SeedEntry>, m: map<string, Id>, idx: seq<nat>, j: int)
    requires 1 <= j < |entries| && Resolves(m, entries[j])
    requires forall i :: 0 <= i < |entries[1..]| && Resolves(m, entries[1..][i]) ==> i in idx
    ensures j in Shifted(idx) && j in [0] + Shifted(idx)
  {
    assert entries[1..][j - 1] == entries[j];
    var k :| 0 <= k < |idx| && idx[k] == j - 1;
    assert Shifted(idx)[k] == j;
  }

  /* ------------------------------------------------------------------ */
  /* The whole seeding run                                               */
  /* ------------------------------------------------------------------ */

  /** A store call the seeding issues, in order. */
  datatype SeedCall =
    | UpsertIngredient(ingredient: NewIngredient)
    | FetchIngredients
    | CreateRecipe(userId: Id, name: string)
    | AddRecipeIngredient(row: RecipeIngredientRow)

  /** The calls issued and the `success` flag returned. */
  datatype SeedOutcome = SeedOutcome(calls: seq<SeedCall>, success: bool)

  function Upserts(ingredients: seq<NewIngredient>): (calls: seq<SeedCall>)
    ensures |calls| == |ingredients|
    ensures forall i :: 0 <= i < |calls| ==> calls[i] == UpsertIngredient(ingredients[i])
    ensures forall c :: c in calls ==> c.UpsertIngredient?
  {
    seq(|ingredients|, i requires 0 <= i < |ingredients| => UpsertIngredient(ingredients[i]))
  }

  /** `AddRecipeIngredient` calls for a list of rows. */
  function Links(rows: seq<RecipeIngredientRow>): (calls: seq<SeedCall>)
    ensures |calls| == |rows|
    ensures forall i :: 0 <= i < |rows| ==> calls[i] == AddRecipeIngredient(rows[i])
  {
    seq(|rows|, i requires 0 <= i < |rows| => AddRecipeIngredient(rows[i]))
  }

  /** Some entry of the recipe's table resolves, so linking it reads the
      created recipe's id. */
  predicate NeedsRecipeId(m: map<string, Id>, recipeName: string) {
    exists e :: e in SeedTable(recipeName) && Resolves(m, e)
  }

  /** The insert of this recipe returned an empty row list and one of its
      entries resolves: reading `newRecipe[0].id` throws and the run ends. */
  predicate Aborts(m: map<string, Id>, name: string, reply: Option<seq<Id>>) {
    reply == Some([]) && NeedsRecipeId(m, name)
  }

  /** No recipe before position `i` aborts the run. */
  predicate ReachedWithoutAbort(m: map<string, Id>, names: seq<string>, created: seq<Option<seq<Id>>>, i: int)
    requires 0 <= i <= |names| == |created|
  {
    forall j :: 0 <= j < i ==> !Aborts(m, names[j], created[j])
  }

  /** The calls for one sample recipe: its insert, then, when the insert
      returned rows, the links of its plan for the first row's id. */
  function RecipeCalls(userId: Id, m: map<string, Id>, name: string, reply: Option<seq<Id>>): seq<SeedCall> {
    [CreateRecipe(userId, name)] +
    (if reply.Some? && reply.value != [] then Links(PlanLinks(m, SeedTable(name), reply.value[0])) else [])
  }

  /** The position of the first recipe that aborts the run, or the number
      of recipes when none does. */
  function FirstAbort(m: map<string, Id>, names: seq<string>, created: seq<Option<seq<Id>>>): (k: nat)
    requires |names| == |created|
    ensures k <= |names|
    ensures forall j :: 0 <= j < k ==> !Aborts(m, names[j], created[j])
    ensures k < |names| ==> Aborts(m, names[k], created[k])
    decreases |names|
  {
    if names == [] || Aborts(m, names[0], created[0]) then 0
    else
      var k := FirstAbort(m, names[1..], created[1..]);
      assert forall j :: 0 < j <= k ==> names[j] == names[1..][j - 1] && created[j] == created[1..][j - 1];
      1 + k
  }

  /** The blocks of the recipes before the first abort, in recipe order. */
  function ReachedBlocks(userId: Id, m: map<string, Id>, names: seq<string>, created: seq<Option<seq<Id>>>)
    : (blocks: seq<seq<SeedCall>>)
    requires |names| == |created|
    ensures |blocks| == FirstAbort(m, names, created)
  {
    var k := FirstAbort(m, names, created);
    seq(k, i requires 0 <= i < k => RecipeCalls(userId, m, names[i], created[i]))
  }

  /** The aborting insert, if a recipe aborts the run. */
  function AbortTail(userId: Id, m: map<string, Id>, names: seq<string>, created: seq<Option<seq<Id>>>)
    : seq<SeedCall>
    requires |names| == |created|
  {
    var k := FirstAbort(m, names, created);
    if k < |names| then [CreateRecipe(userId, names[k])] else []
  }

  /** The blocks laid back to back. */
  function Flatten(blocks: seq<seq<SeedCall>>): (s: seq<SeedCall>)
    ensures blocks != [] ==> s == blocks[0] + Flatten(blocks[1..])
  {
    if blocks == [] then [] else blocks[0] + Flatten(blocks[1..])
  }

  /** `block` occurs in `s` starting at position `p`. */
  predicate InfixAt(s: seq<SeedCall>, block: seq<SeedCall>, p: int) {
    0 <= p && p + |block| <= |s| && s[p..p + |block|] == block
  }

  /** Creates the recipes `names` in order, each answered by the matching
      reply's data, and links each created one. A reply without data skips
      its recipe. An empty data array makes `newRecipe[0].id` throw as soon
      as an entry resolves, which aborts the run (the second component is
      then false); a recipe none of whose entries resolves never reads it.
      The calls are exactly the blocks of the recipes before the first
      abort, in recipe order and back to back, each the insert directly
      followed by the links of its plan; an abort adds only its own insert,
      and nothing follows it. */
  function CreateAndLink(userId: Id, m: map<string, Id>, names: seq<string>,
                         created: seq<Option<seq<Id>>>): (r: (seq<SeedCall>, bool))
    requires |names| == |created|
    ensures forall c :: c in r.0 ==> c.CreateRecipe? || c.AddRecipeIngredient?
    ensures r.1 ==> forall i :: 0 <= i < |names| ==> CreateRecipe(userId, names[i]) in r.0
    ensures !r.1 <==> exists i :: 0 <= i < |created| && Aborts(m, names[i], created[i])
    ensures forall i :: 0 <= i < |names| && ReachedWithoutAbort(m, names, created, i) ==>
              exists p :: InfixAt(r.0, RecipeCalls(userId, m, names[i], created[i]), p)
    ensures forall c :: c in r.0 && c.AddRecipeIngredient? ==>
              exists i :: 0 <= i < |names| && created[i].Some? && |created[i].value| > 0
                          && c.row in PlanLinks(m, SeedTable(names[i]), created[i].value[0])
    ensures r.0 == Flatten(ReachedBlocks(userId, m, names, created)) + AbortTail(userId, m, names, created)
    decreases |names|
  {
    if names == [] then ([], true)
    else if Aborts(m, names[0], created[0]) then
      var r := ([CreateRecipe(userId, names[0])], false);
      AbortShape(userId, m, names, created);
      assert ReachedBlocks(userId, m, names, created) == [];
      r
    else
      var head := RecipeCalls(userId, m, names[0], created[0]);
      var (rest, ok) := CreateAndLink(userId, m, names[1..], created[1..]);
      ConsShape(userId, m, names, created, head, rest, ok);
      ConsLayout(userId, m, names, created, head, rest);
      (head + rest, ok)
  }

  /** Putting the first recipe's block in front of the rest of the run
      makes it the first of the reached blocks. */
  lemma ConsLayout(userId: Id, m: map<string, Id>, names: seq<string>, created: seq<Option<seq<Id>>>,
                   head: seq<SeedCall>, rest: seq<SeedCall>)
    requires |names| == |created| > 0 && !Aborts(m, names[0], created[0])
    requires head == RecipeCalls(userId, m, names[0], created[0])
    requires rest == Flatten(ReachedBlocks(userId, m, names[1..], created[1..]))
                     + AbortTail(userId, m, names[1..], created[1..])
    ensures head + rest == Flatten(ReachedBlocks(userId, m, names, created)) + AbortTail(userId, m, names, created)
  {
    var blocks := ReachedBlocks(userId, m, names, created);
    var later := ReachedBlocks(userId, m, names[1..], created[1..]);
    ReachedBlocksCons(userId, m, names, created);
    AbortTailCons(userId, m, names, created);
    assert Flatten(blocks) == head + Flatten(later);
  }

  /** Without an abort at the first recipe, its block heads the reached
      blocks and the rest are those of the later recipes. */
  lemma ReachedBlocksCons(userId: Id, m: map<string, Id>, names: seq<string>, created: seq<Option<seq<Id>>>)
    requires |names| == |created| > 0 && !Aborts(m, names[0], created[0])
    ensures var blocks := ReachedBlocks(userId, m, names, created);
            && blocks != []
            && blocks[0] == RecipeCalls(userId, m, names[0], created[0])
            && blocks[1..] == ReachedBlocks(userId, m, names[1..], created[1..])
  {
    var blocks := ReachedBlocks(userId, m, names, created);
    var later := ReachedBlocks(userId, m, names[1..], created[1..]);
    assert |blocks| == |later| + 1;
    forall j | 0 <= j < |later| ensures blocks[1..][j] == later[j] {
      assert names[1..][j] == names[j + 1] && created[1..][j] == created[j + 1];
    }
  }

  /** Without an abort at the first recipe, the aborting insert is that of
      the later recipes. */
  lemma AbortTailCons(userId: Id, m: map<string, Id>, names: seq<string>, created: seq<Option<seq<Id>>>)
    requires |names| == |created| > 0 && !Aborts(m, names[0], created[0])
    ensures AbortTail(userId, m, names[1..], created[1..]) == AbortTail(userId, m, names, created)
  {
    var k := FirstAbort(m, names, created);
    assert k == FirstAbort(m, names[1..], created[1..]) + 1;
    if k < |names| {
      assert names[1..][k - 1] == names[k];
    }
  }

  /** The contract of `CreateAndLink` for a run that issued `calls` and
      returned `ok`. */
  ghost predicate RunShape(userId: Id, m: map<string, Id>, names: seq<string>, created: seq<Option<seq<Id>>>,
                     calls: seq<SeedCall>, ok: bool)
    requires |names| == |created|
  {
    && (forall c :: c in calls ==> c.CreateRecipe? || c.AddRecipeIngredient?)
    && (ok ==> forall i :: 0 <= i < |names| ==> CreateRecipe(userId, names[i]) in calls)
    && (!ok <==> exists i :: 0 <= i < |created| && Aborts(m, names[i], created[i]))
    && (forall i :: 0 <= i < |names| && ReachedWithoutAbort(m, names, created, i) ==>
          exists p :: InfixAt(calls, RecipeCalls(userId, m, names[i], created[i]), p))
    && (forall c :: c in calls && c.AddRecipeIngredient? ==>
          exists i :: 0 <= i < |names| && created[i].Some? && |created[i].value| > 0
                      && c.row in PlanLinks(m, SeedTable(names[i]), created[i].value[0]))
  }

  /** A run whose first recipe aborts issues only that recipe's insert. */
  lemma AbortShape(userId: Id, m: map<string, Id>, names: seq<string>, created: seq<Option<seq<Id>>>)
    requires |names| == |created| > 0 && Aborts(m, names[0], created[0])
    ensures RunShape(userId, m, names, created, [CreateRecipe(userId, names[0])], false)
  {
    var calls := [CreateRecipe(userId, names[0])];
    assert InfixAt(calls, RecipeCalls(userId, m, names[0], created[0]), 0);
    forall i | 0 <= i < |names| && ReachedWithoutAbort(m, names, created, i)
      ensures exists p :: InfixAt(calls, RecipeCalls(userId, m, names[i], created[i]), p)
    {
      assert i == 0;
    }
  }

  /** The first recipe's block put in front of the rest of the run. */
  lemma ConsShape(userId: Id, m: map<string, Id>, names: seq<string>, created: seq<Option<seq<Id>>>,
                  head: seq<SeedCall>, rest: seq<SeedCall>, ok: bool)
    requires |names| == |created| > 0 && !Aborts(m, names[0], created[0])
    requires head == RecipeCalls(userId, m, names[0], created[0])
    requires RunShape(userId, m, names[1..], created[1..], rest, ok)
    ensures RunShape(userId, m, names, created, head + rest, ok)
  {
    HeadLinksFromPlan(userId, m, names, created);
    CreateAndLinkBlocks(userId, m, names, created, head, rest);
    ConsLinks(userId, m, names, created, head, rest);
    if ok {
      ConsCreates(userId, names, head, rest);
    }
    ConsAborts(m, names, created);
  }

  /** `row` is in the plan of the recipe `name` whose insert returned rows. */
  predicate PlannedFor(m: map<string, Id>, name: string, reply: Option<seq<Id>>, row: RecipeIngredientRow) {
    reply.Some? && |reply.value| > 0 && row in PlanLinks(m, SeedTable(name), reply.value[0])
  }

  /** Every link call after the first block comes from a later recipe's plan. */
  lemma ConsLinks(userId: Id, m: map<string, Id>, names: seq<string>, created: seq<Option<seq<Id>>>,
                  head: seq<SeedCall>, rest: seq<SeedCall>)
    requires |names| == |created| > 0
    requires forall c :: c in head && c.AddRecipeIngredient? ==> PlannedFor(m, names[0], created[0], c.row)
    requires forall c :: c in rest && c.AddRecipeIngredient? ==>
               exists i :: 0 <= i < |names[1..]| && PlannedFor(m, names[1..][i], created[1..][i], c.row)
    ensures forall c :: c in head + rest && c.AddRecipeIngredient? ==>
              exists i :: 0 <= i < |names| && PlannedFor(m, names[i], created[i], c.row)
  {
    forall c | c in head + rest && c.AddRecipeIngredient?
      ensures exists i :: 0 <= i < |names| && PlannedFor(m, names[i], created[i], c.row)
    {
      if c in head {
        assert PlannedFor(m, names[0], created[0], c.row);
      } else {
        assert c in rest;
        var i :| 0 <= i < |names[1..]| && PlannedFor(m, names[1..][i], created[1..][i], c.row);
        assert names[1..][i] == names[i + 1] && created[1..][i] == created[i + 1];
        assert PlannedFor(m, names[i + 1], created[i + 1], c.row);
      }
    }
  }

  /** With the first recipe's insert in front, every recipe's insert is issued. */
  lemma ConsCreates(userId: Id, names: seq<string>, head: seq<SeedCall>, rest: seq<SeedCall>)
    requires |names| > 0 && |head| > 0 && head[0] == CreateRecipe(userId, names[0])
    requires forall i :: 0 <= i < |names[1..]| ==> CreateRecipe(userId, names[1..][i]) in rest
    ensures forall i :: 0 <= i < |names| ==> CreateRecipe(userId, names[i]) in head + rest
  {
    forall i | 0 <= i < |names| ensures CreateRecipe(userId, names[i]) in head + rest {
      if i > 0 {
        assert names[1..][i - 1] == names[i];
      } else {
        assert (head + rest)[0] == head[0];
      }
    }
  }

  /** When the first recipe does not abort, the run aborts exactly when a
      later one does. */
  lemma ConsAborts(m: map<string, Id>, names: seq<string>, created: seq<Option<seq<Id>>>)
    requires |names| == |created| > 0 && !Aborts(m, names[0], created[0])
    ensures (exists i :: 0 <= i < |created| && Aborts(m, names[i], created[i])) <==>
            (exists i :: 0 <= i < |created[1..]| && Aborts(m, names[1..][i], created[1..][i]))
  {
    if exists i :: 0 <= i < |created| && Aborts(m, names[i], created[i]) {
      var i :| 0 <= i < |created| && Aborts(m, names[i], created[i]);
      assert i != 0;
      assert names[1..][i - 1] == names[i] && created[1..][i - 1] == created[i];
      assert Aborts(m, names[1..][i - 1], created[1..][i - 1]);
    }
    if exists i :: 0 <= i < |created[1..]| && Aborts(m, names[1..][i], created[1..][i]) {
      var i :| 0 <= i < |created[1..]| && Aborts(m, names[1..][i], created[1..][i]);
      assert names[1..][i] == names[i + 1] && created[1..][i] == created[i + 1];
      assert Aborts(m, names[i + 1], created[i + 1]);
    }
  }

  /** The link calls of the first recipe's block come from its plan. */
  lemma HeadLinksFromPlan(userId: Id, m: map<string, Id>, names: seq<string>, created: seq<Option<seq<Id>>>)
    requires |names| == |created| > 0
    ensures var head := RecipeCalls(userId, m, names[0], created[0]);
            && head[0] == CreateRecipe(userId, names[0])
            && (forall c :: c in head ==> c.CreateRecipe? || c.AddRecipeIngredient?)
            && forall c :: c in head && c.AddRecipeIngredient? ==>
                 created[0].Some? && |created[0].value| > 0
                 && c.row in PlanLinks(m, SeedTable(names[0]), created[0].value[0])
  {
    var head := RecipeCalls(userId, m, names[0], created[0]);
    var create := CreateRecipe(userId, names[0]);
    if created[0].Some? && created[0].value != [] {
      var rows := PlanLinks(m, SeedTable(names[0]), created[0].value[0]);
      assert head == [create] + Links(rows);
      InsertThenLinks(create, rows);
    } else {
      assert head == [create];
    }
  }

  /** An insert followed by link calls holds, besides the insert, only
      link calls for the given rows. */
  lemma InsertThenLinks(create: SeedCall, rows: seq<RecipeIngredientRow>)
    requires create.CreateRecipe?
    ensures forall c :: c in [create] + Links(rows) ==>
              c == create || (c.AddRecipeIngredient? && c.row in rows)
  {
    var block := [create] + Links(rows);
    forall c | c in block ensures c == create || (c.AddRecipeIngredient? && c.row in rows) {
      var k :| 0 <= k < |block| && block[k] == c;
      if k > 0 {
        assert c == Links(rows)[k - 1] == AddRecipeIngredient(rows[k - 1]);
      }
    }
  }

  /** The blocks of the recipes reached in the rest of the run stay
      whole once the first recipe's block is put in front. */
  lemma CreateAndLinkBlocks(userId: Id, m: map<string, Id>, names: seq<string>,
                            created: seq<Option<seq<Id>>>, head: seq<SeedCall>, rest: seq<SeedCall>)
    requires |names| == |created| > 0 && !Aborts(m, names[0], created[0])
    requires head == RecipeCalls(userId, m, names[0], created[0])
    requires forall i :: 0 <= i < |names[1..]| && ReachedWithoutAbort(m, names[1..], created[1..], i) ==>
               exists p :: InfixAt(rest, RecipeCalls(userId, m, names[1..][i], created[1..][i]), p)
    ensures forall i :: 0 <= i < |names| && ReachedWithoutAbort(m, names, created, i) ==>
              exists p :: InfixAt(head + rest, RecipeCalls(userId, m, names[i], created[i]), p)
  {
    forall i | 0 <= i < |names| && ReachedWithoutAbort(m, names, created, i)
      ensures exists p :: InfixAt(head + rest, RecipeCalls(userId, m, names[i], created[i]), p)
    {
      if i == 0 {
        assert (head + rest)[0..|head|] == head;
        assert InfixAt(head + rest, head, 0);
      } else {
        assert ReachedWithoutAbort(m, names[1..], created[1..], i - 1) by {
          forall j | 0 <= j < i - 1 ensures !Aborts(m, names[1..][j], created[1..][j]) {
            assert names[1..][j] == names[j + 1] && created[1..][j] == created[j + 1];
          }
        }
        assert names[1..][i - 1] == names[i] && created[1..][i - 1] == created[i];
        var block := RecipeCalls(userId, m, names[i], created[i]);
        var p :| InfixAt(rest, block, p);
        InfixAfter(head, rest, block, p);
      }
    }
  }

  /** An infix of `rest` is an infix of `head + rest`, |head| further on. */
  lemma InfixAfter(head: seq<SeedCall>, rest: seq<SeedCall>, block: seq<SeedCall>, p: int)
    requires InfixAt(rest, block, p)
    ensures InfixAt(head + rest, block, |head| + p)
  {
    assert (head + rest)[|head| + p..|head| + p + |block|] == rest[p..p + |block|];
  }

  /** `insertDummyData(userId)` given the data of the ingredient read-back
      and of the five recipe inserts. Without ingredient data the map cannot
      be built: the run stops before creating any recipe and reports failure. */
  function InsertDummyData(userId: Id, all: Option<seq<Ingredient>>, created: seq<Option<seq<Id>>>)
    : (r: SeedOutcome)
    requires |created| == |SampleRecipeNames|
    ensures Upserts(CommonIngredients) + [FetchIngredients] <= r.calls
    ensures all.None? ==> r.calls == Upserts(CommonIngredients) + [FetchIngredients] && !r.success
    ensures all.Some? ==>
              var run := CreateAndLink(userId, IngredientMap(all.value), SampleRecipeNames, created);
              r.calls == Upserts(CommonIngredients) + [FetchIngredients] + run.0 && r.success == run.1
    ensures r.success <==> all.Some? && forall i :: 0 <= i < |created| ==>
              !Aborts(IngredientMap(all.value), SampleRecipeNames[i], created[i])
    ensures all.Some? ==> forall c :: c in r.calls && c.AddRecipeIngredient? ==>
              c.row.ingredientId in IngredientMap(all.value).Values && Truthy(c.row.ingredientId)
  {
    var prefix := Upserts(CommonIngredients) + [FetchIngredients];
    match all
    case None => SeedOutcome(prefix, false)
    case Some(ingredients) =>
      var m := IngredientMap(ingredients);
      var (rest, ok) := CreateAndLink(userId, m, SampleRecipeNames, created);
      SeededLinksFromMap(userId, m, created, prefix, rest);
      SeedOutcome(prefix + rest, ok)
  }

  /** The link calls after the upserts and the read-back are those of the
      creation loop, so each names a truthy id of the map. */
  lemma SeededLinksFromMap(userId: Id, m: map<string, Id>, created: seq<Option<seq<Id>>>,
                           prefix: seq<SeedCall>, rest: seq<SeedCall>)
    requires |created| == |SampleRecipeNames|
    requires prefix == Upserts(CommonIngredients) + [FetchIngredients]
    requires rest == CreateAndLink(userId, m, SampleRecipeNames, created).0
    ensures forall c :: c in prefix + rest && c.AddRecipeIngredient? ==>
              c.row.ingredientId in m.Values && Truthy(c.row.ingredientId)
  {
    LinkedIdsFromMap(userId, m, SampleRecipeNames, created);
    LinksOnlyAfter(Upserts(CommonIngredients), rest);
  }

  /** Behind upserts and the read-back, link calls can only come from `rest`. */
  lemma LinksOnlyAfter(upserts: seq<SeedCall>, rest: seq<SeedCall>)
    requires forall c :: c in upserts ==> c.UpsertIngredient?
    ensures forall c :: c in upserts + [FetchIngredients] + rest && c.AddRecipeIngredient? ==> c in rest
  {
  }

  /** Every row the creation loop links names a truthy id of the map. */
  lemma LinkedIdsFromMap(userId: Id, m: map<string, Id>, names: seq<string>, created: seq<Option<seq<Id>>>)
    requires |names| == |created|
    ensures forall c :: c in CreateAndLink(userId, m, names, created).0 && c.AddRecipeIngredient? ==>
              c.row.ingredientId in m.Values && Truthy(c.row.ingredientId)
  {
    var calls := CreateAndLink(userId, m, names, created).0;
    forall c | c in calls && c.AddRecipeIngredient?
      ensures c.row.ingredientId in m.Values && Truthy(c.row.ingredientId)
    {
      var i :| 0 <= i < |names| && created[i].Some? && |created[i].value| > 0
               && c.row in PlanLinks(m, SeedTable(names[i]), created[i].value[0]);
      var e :| e in SeedTable(names[i]) && Resolves(m, e) && c.row == LinkRow(m, e, created[i].value[0]);
      assert m[ToLower(e.name)] in m.Values;
    }
  }

  /** A recipe name outside the table gets no rows, whatever the map. */
  lemma UnlistedRecipeGetsNoRows(m: map<string, Id>, name: string, recipeId: Id)
    requires name !in SampleRecipeNames
    ensures PlanLinks(m, SeedTable(name), recipeId) == []
  {
  }

  /** No common ingredient lower-cases to "shrimp". */
  lemma ShrimpIsNotCommon()
    ensures forall i :: 0 <= i < |CommonIngredients| ==> ToLower(CommonIngredients[i].name) != "shrimp"
  {
    forall i | 0 <= i < |CommonIngredients|
      ensures ToLower(CommonIngredients[i].name) != "shrimp"
    {
      var name := CommonIngredients[i].name;
      if |name| == 6 {
        assert name[0] != 'S' && name[0] != 's';
        assert ToLower(name)[0] == LowerChar(name[0]);
      }
    }
  }

  /** When every stored ingredient carries the name of a common ingredient
      (as right after seeding an empty table), "shrimp" is not a key. */
  lemma ShrimpNotInMap(all: seq<Ingredient>)
    requires forall ing :: ing in all ==> exists c :: c in CommonIngredients && ing.name == c.name
    ensures "shrimp" !in IngredientMap(all)
  {
    ShrimpIsNotCommon();
    if "shrimp" in IngredientMap(all) {
      assert false;
    }
  }

  /** In that situation the "Shrimp" line of the shrimp recipe does not
      resolve, so that recipe gets fewer rows than it lists. */
  lemma ShrimpLineSkipped(all: seq<Ingredient>, recipeId: Id)
    requires forall ing :: ing in all ==> exists c :: c in CommonIngredients && ing.name == c.name
    ensures !Resolves(IngredientMap(all), SeedEntry("Shrimp", 1.0, "pound"))
    ensures |PlanLinks(IngredientMap(all), SeedTable("Lemon Garlic Shrimp"), recipeId)| < 5
  {
    ShrimpNotInMap(all);
    assert ToLower("Shrimp") == "shrimp";
    ShrimpRecipeTable();
    var entries := SeedTable("Lemon Garlic Shrimp");
    assert entries[0] in entries;
  }

  lemma ShrimpRecipeTable()
    ensures |SeedTable("Lemon Garlic Shrimp")| == 5
    ensures SeedTable("Lemon Garlic Shrimp")[0] == SeedEntry("Shrimp", 1.0, "pound")
  {
    var name := "Lemon Garlic Shrimp";
    assert name[0] == 'L';
    assert name != "Simple Pasta Carbonara" by { assert "Simple Pasta Carbonara"[0] == 'S'; }
    assert name != "Chicken Stir Fry" by { assert "Chicken Stir Fry"[0] == 'C'; }
    assert name != "Tomato Basil Soup" by { assert "Tomato Basil Soup"[0] == 'T'; }
    assert name != "Classic Margherita Pizza" by { assert "Classic Margherita Pizza"[0] == 'C'; }
  }
}
