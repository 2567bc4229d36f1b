/** The new-recipe page's builder: assembling a list of draft ingredient
    lines, removing lines, and submitting the recipe with one
    `recipe_ingredients` row per line. The page state is an immutable record
    passed in and returned; store replies are parameters. */
module RecipeBuilder {
  import opened JsValues
  import opened Entities

  /** One line of the recipe being built. The temporary UI key the page
      attaches to each line is not modelled. */
  datatype Draft = Draft(ingredientId: Id, quantity: real, unit: string, name: string)

  /** The page's state hooks. */
  datatype Builder = Builder(
    user: Option<User>,
    catalogue: seq<Ingredient>,
    drafts: seq<Draft>,
    selected: Id,
    newName: string,
    quantity: real,
    unit: string,
    showNew: bool,
    recipeName: string,
    description: string,
    instructions: string,
    submitting: bool)

  /** How `addIngredientToRecipe` ended: it returned early, it appended a
      line, or it threw before changing anything. */
  datatype AddOutcome = Unchanged | Appended | Faulted

  datatype AddStep = AddStep(outcome: AddOutcome, builder: Builder)

  /** Neither an existing ingredient is selected nor a new name typed. */
  predicate NothingChosen(b: Builder) {
    !Truthy(b.selected) && !Truthy(Trim(b.newName))
  }

  /** The amount fields are unusable: a non-positive quantity or a blank unit. */
  predicate BadAmount(b: Builder) {
    b.quantity <= 0.0 || !Truthy(Trim(b.unit))
  }

  /** The "Add" button's `disabled` attribute. */
  predicate AddButtonDisabled(b: Builder) {
    NothingChosen(b) || BadAmount(b)
  }

  /** The handler takes the new-ingredient branch. */
  predicate CreatesNew(b: Builder) {
    b.showNew && Truthy(Trim(b.newName))
  }

  /** `Array.prototype.find` on ids: the first catalogue entry with that id. */
  function FindById(catalogue: seq<Ingredient>, id: Id): (r: Option<Ingredient>)
    ensures r.None? <==> forall i :: 0 <= i < |catalogue| ==> catalogue[i].id != id
    ensures r.Some? ==> exists i :: 0 <= i < |catalogue| && catalogue[i] == r.value && r.value.id == id
                                    && forall j :: 0 <= j < i ==> catalogue[j].id != id
  {
    if catalogue == [] then None
    else if catalogue[0].id == id then Some(catalogue[0])
    else
      var r := FindById(catalogue[1..], id);
      if r.Some? then
        var i :| 0 <= i < |catalogue[1..]| && catalogue[1..][i] == r.value && r.value.id == id
                 && forall j :: 0 <= j < i ==> catalogue[1..][j].id != id;
        assert catalogue[i + 1] == r.value;
        assert forall j :: 0 <= j < i + 1 ==> catalogue[j].id != id by {
          forall j | 0 <= j < i + 1 ensures catalogue[j].id != id {
            if j > 0 {
              assert catalogue[j] == catalogue[1..][j - 1];
            }
          }
        }
        r
      else
        assert forall i :: 0 <= i < |catalogue| ==> catalogue[i].id != id by {
          forall i | 0 <= i < |catalogue| ensures catalogue[i].id != id {
            if i > 0 {
              assert catalogue[i] == catalogue[1..][i - 1];
            }
          }
        }
        r
  }

  /** The ingredient-entry fields after a line was added. */
  function ResetEntry(b: Builder): Builder {
    b.(selected := "", newName := "", quantity := 1.0, unit := "", showNew := false)
  }

  /** `addIngredientToRecipe`. It returns early when nothing is chosen or
      the amount is unusable. The new-ingredient branch calls
      `createIngredient`, which the page never imports: the call throws a
      ReferenceError, so the branch fails before any state changes. Otherwise
      the selected id is looked up in the catalogue: an unknown id returns
      early; a known one appends a line with that id, the quantity, the
      trimmed unit and the name of the first catalogue entry with that id,
      and resets the entry fields. */
  function AddIngredientToRecipe(b: Builder): (r: AddStep)
    ensures r.outcome != Appended ==> r.builder == b
    ensures AddButtonDisabled(b) ==> r.outcome == Unchanged
    ensures r.outcome == Faulted <==> !AddButtonDisabled(b) && CreatesNew(b)
    ensures r.outcome == Appended <==>
              !AddButtonDisabled(b) && !CreatesNew(b) && FindById(b.catalogue, b.selected).Some?
    ensures r.outcome == Appended ==>
              && |r.builder.drafts| == |b.drafts| + 1
              && r.builder.drafts[..|b.drafts|] == b.drafts
              && (exists ing :: ing in b.catalogue && ing.id == b.selected &&
                    r.builder.drafts[|b.drafts|] == Draft(b.selected, b.quantity, Trim(b.unit), ing.name))
    ensures r.outcome == Appended ==>
              exists i :: 0 <= i < |b.catalogue| && b.catalogue[i].id == b.selected &&
                (forall j :: 0 <= j < i ==> b.catalogue[j].id != b.selected) &&
                r.builder.drafts[|b.drafts|].name == b.catalogue[i].name
    ensures r.outcome == Appended ==>
              r.builder == ResetEntry(b).(drafts := r.builder.drafts)
  {
    if NothingChosen(b) || BadAmount(b) then
      AddStep(Unchanged, b)
    else if CreatesNew(b) then
      AddStep(Faulted, b)
    else
      match FindById(b.catalogue, b.selected)
      case None => AddStep(Unchanged, b)
      case Some(ing) =>
        var line := Draft(b.selected, b.quantity, Trim(b.unit), ing.name);
        var drafts := b.drafts + [line];
        assert drafts[..|b.drafts|] == b.drafts;
        AddStep(Appended, ResetEntry(b).(drafts := drafts))
  }

  /** The handler does something only when the button is enabled: a
      disabled button cannot add a line, and an enabled one with a known
      selection always does. */
  lemma AddEnabledIffEffective(b: Builder)
    requires !CreatesNew(b)
    ensures AddIngredientToRecipe(b).outcome == Appended <==>
              !AddButtonDisabled(b) && exists ing :: ing in b.catalogue && ing.id == b.selected
  {
    var found := FindById(b.catalogue, b.selected);
    if exists ing :: ing in b.catalogue && ing.id == b.selected {
      var ing :| ing in b.catalogue && ing.id == b.selected;
      var i :| 0 <= i < |b.catalogue| && b.catalogue[i] == ing;
      assert found.Some?;
    }
  }

  /** `removeIngredient(index)`: keep every line whose position differs
      from `index`. For a position in range exactly that line goes; any
      other index leaves the list as it was. */
  method RemoveIngredient(drafts: seq<Draft>, index: int) returns (r: seq<Draft>)
    ensures 0 <= index < |drafts| ==> r == drafts[..index] + drafts[index + 1..]
    ensures 0 <= index < |drafts| ==> |r| == |drafts| - 1 && multiset(r) + multiset{drafts[index]} == multiset(drafts)
    ensures !(0 <= index < |drafts|) ==> r == drafts
  {
    r := [];
    var i := 0;
    while i < |drafts|
      invariant 0 <= i <= |drafts|
      invariant r == if 0 <= index < i then drafts[..index] + drafts[index + 1..i] else drafts[..i]
    {
      if i != index {
        r := r + [drafts[i]];
      }
      i := i + 1;
    }
    assert drafts[..|drafts|] == drafts;
    if 0 <= index < |drafts| {
      assert drafts == drafts[..index] + [drafts[index]] + drafts[index + 1..];
    }
  }

  /** A store call issued on submit. */
  datatype SubmitCall =
    | CreateRecipe(recipe: NewRecipe)
    | AddRecipeIngredient(row: RecipeIngredientRow)

  /** The row a line becomes once the recipe exists. */
  function RowFor(recipeId: Id, d: Draft): RecipeIngredientRow {
    RecipeIngredientRow(recipeId, d.ingredientId, d.quantity, d.unit)
  }

  /** `handleSubmit`. Without a user or without lines nothing happens.
      Otherwise the recipe is created with the user's id and the trimmed
      name, description and instructions. On an error reply nothing more is
      sent; a reply with no created row makes reading its id throw, which is
      caught, so no line is written either. Otherwise every line becomes one
      row for the created recipe, in order, and errors from those inserts
      are not examined. `submitting` is false again at the end. */
  method HandleSubmit(b: Builder, created: Reply<seq<Recipe>>) returns (calls: seq<SubmitCall>, after: Builder)
    ensures b.user.None? || b.drafts == [] ==> calls == [] && after == b
    ensures b.user.Some? && b.drafts != [] ==>
              && after == b.(submitting := false)
              && |calls| > 0
              && calls[0] == CreateRecipe(NewRecipe(b.user.value.id, Trim(b.recipeName),
                                                    Trim(b.description), Trim(b.instructions)))
    ensures forall i :: 0 < i < |calls| ==> calls[i].AddRecipeIngredient?
    ensures b.user.Some? && b.drafts != [] && created.error.None? && created.data.Some? && created.data.value != [] ==>
              && |calls| == 1 + |b.drafts|
              && forall i :: 0 <= i < |b.drafts| ==>
                   calls[1 + i] == AddRecipeIngredient(RowFor(created.data.value[0].id, b.drafts[i]))
    ensures created.error.Some? || created.data.None? || created.data.value == [] ==> |calls| <= 1
  {
    if b.user.None? || b.drafts == [] {
      return [], b;
    }
    calls := [CreateRecipe(NewRecipe(b.user.value.id, Trim(b.recipeName),
                                     Trim(b.description), Trim(b.instructions)))];
    after := b.(submitting := false);
    if created.error.Some? || created.data.None? || created.data.value == [] {
      return;
    }
    var recipeId := created.data.value[0].id;
    var i := 0;
    while i < |b.drafts|
      invariant 0 <= i <= |b.drafts|
      invariant |calls| == 1 + i
      invariant calls[0].CreateRecipe? && calls[0] == CreateRecipe(NewRecipe(b.user.value.id, Trim(b.recipeName),
                                                                    Trim(b.description), Trim(b.instructions)))
      invariant forall j :: 0 <= j < i ==> calls[1 + j] == AddRecipeIngredient(RowFor(recipeId, b.drafts[j]))
    {
      calls := calls + [AddRecipeIngredient(RowFor(recipeId, b.drafts[i]))];
      i := i + 1;
    }
    forall k | 0 < k < |calls| ensures calls[k].AddRecipeIngredient? {
      assert calls[1 + (k - 1)] == AddRecipeIngredient(RowFor(recipeId, b.drafts[k - 1]));
    }
  }

  /** Every line added through the builder is written with the id of an
      ingredient in the catalogue: a submitted row never names an
      ingredient the page did not list. */
  lemma AppendedLinesComeFromCatalogue(b: Builder)
    requires forall d :: d in b.drafts ==> exists ing :: ing in b.catalogue && ing.id == d.ingredientId
    ensures var after := AddIngredientToRecipe(b).builder;
            forall d :: d in after.drafts ==> exists ing :: ing in after.catalogue && ing.id == d.ingredientId
  {
    var r := AddIngredientToRecipe(b);
    if r.outcome == Appended {
      var n := |b.drafts|;
      forall d | d in r.builder.drafts ensures exists ing :: ing in r.builder.catalogue && ing.id == d.ingredientId {
        var k :| 0 <= k < |r.builder.drafts| && r.builder.drafts[k] == d;
        if k < n {
          assert d == r.builder.drafts[..n][k];
        }
      }
    }
  }
}
