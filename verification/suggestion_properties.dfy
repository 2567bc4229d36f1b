/** Properties of the suggestion ranking that relate several calls or pin
    it down completely, and worked examples. */
module SuggestionProperties {
  import opened JsValues
  import opened Entities
  import opened Suggestions

  /** The reply of `getSuggestedRecipes` depends only on the data of the two
      reads: an error reported by either read changes nothing. */
  lemma ReadErrorsIgnored(inventory: Reply<seq<InventoryItem>>, recipes: Reply<seq<Recipe>>,
                          inventoryError: Option<StoreError>, recipesError: Option<StoreError>)
    ensures GetSuggestedRecipes(inventory, recipes) ==
            GetSuggestedRecipes(Reply(inventory.data, inventoryError), Reply(recipes.data, recipesError))
  {
  }

  /** Without inventory data (or with an empty inventory) no entry is owned,
      every recipe scores 0 and nothing is suggested. */
  lemma NoInventoryNoSuggestions(inventory: Option<seq<InventoryItem>>, recipes: Option<seq<Recipe>>)
    requires inventory.None? || inventory.value == []
    ensures Suggest(inventory, recipes) == []
  {
    var r := Suggest(inventory, recipes);
    var owned := OwnedIds(inventory);
    assert owned == [];
    if r != [] {
      var x := r[0];
      assert x in r;
      var recipe :| recipe in recipes.GetOr([]) && x == Score(recipe, owned) && x.matchPercentage > 0;
      NothingOwnedScoresZero(recipe, owned);
      assert false;
    }
  }

  /** A recipe without entries is never suggested. */
  lemma EmptyRecipeNeverSuggested(inventory: Option<seq<InventoryItem>>, recipes: Option<seq<Recipe>>)
    ensures forall x :: x in Suggest(inventory, recipes) ==> Entries(x.recipe) != []
  {
    forall x | x in Suggest(inventory, recipes) ensures Entries(x.recipe) != [] {
      var recipe :| recipe in recipes.GetOr([]) && x == Score(recipe, OwnedIds(inventory))
                    && x.matchPercentage > 0;
    }
  }

  /** A non-empty sequence has a non-empty group for its first score. */
  lemma FirstGroupNonEmpty(s: seq<ScoredRecipe>)
    requires s != []
    ensures WithScore(s, s[0].matchPercentage) != []
  {
    WithScoreCons(s[0], s[1..], s[0].matchPercentage);
    assert s == [s[0]] + s[1..];
  }

  /** An element of a sorted sequence scores at most its first element. */
  lemma FirstIsHighest(s: seq<ScoredRecipe>, x: ScoredRecipe)
    requires SortedByScore(s) && x in s
    ensures s[0].matchPercentage >= x.matchPercentage
  {
    var j :| 0 <= j < |s| && s[j] == x;
    if j > 0 {
      assert s[0].matchPercentage >= s[j].matchPercentage;
    }
  }

  /** The first element of a sequence heads the group of its score. */
  lemma FirstHeadsItsGroup(s: seq<ScoredRecipe>)
    requires s != []
    ensures WithScore(s, s[0].matchPercentage) == [s[0]] + WithScore(s[1..], s[0].matchPercentage)
  {
    WithScoreCons(s[0], s[1..], s[0].matchPercentage);
    assert s == [s[0]] + s[1..];
  }

  /** Two sorted sequences with the same score groups start alike. */
  lemma SameFirst(a: seq<ScoredRecipe>, b: seq<ScoredRecipe>)
    requires SortedByScore(a) && SortedByScore(b) && a != [] && b != []
    requires forall k :: WithScore(a, k) == WithScore(b, k)
    ensures a[0] == b[0]
  {
    var ka := a[0].matchPercentage;
    var kb := b[0].matchPercentage;
    FirstHeadsItsGroup(a);
    FirstHeadsItsGroup(b);
    assert WithScore(a, ka) == WithScore(b, ka);
    assert WithScore(a, kb) == WithScore(b, kb);
    WithScoreMembers(b, ka);
    WithScoreMembers(a, kb);
    assert a[0] in WithScore(a, ka);
    FirstIsHighest(b, a[0]);
    assert b[0] in WithScore(b, kb);
    FirstIsHighest(a, b[0]);
    assert ka == kb;
    var group := WithScore(a, ka);
    assert group[0] == a[0];
    assert group == WithScore(b, kb);
    assert group[0] == b[0];
  }

  /** A sorted sequence is determined by its score groups: two sequences,
      both sorted by score, that list the same elements for every score in
      the same order are equal. */
  lemma {:induction false} SortedGroupsDetermineOrder(a: seq<ScoredRecipe>, b: seq<ScoredRecipe>)
    requires SortedByScore(a) && SortedByScore(b)
    requires forall k :: WithScore(a, k) == WithScore(b, k)
    ensures a == b
    decreases |a|
  {
    if a == [] {
      if b != [] {
        FirstGroupNonEmpty(b);
        assert false;
      }
    } else if b == [] {
      FirstGroupNonEmpty(a);
      assert false;
    } else {
      SameFirst(a, b);
      forall k ensures WithScore(a[1..], k) == WithScore(b[1..], k) {
        WithScoreCons(a[0], a[1..], k);
        WithScoreCons(b[0], b[1..], k);
        assert a == [a[0]] + a[1..];
        assert b == [b[0]] + b[1..];
        var head: seq<ScoredRecipe> := if a[0].matchPercentage == k then [a[0]] else [];
        var ta := WithScore(a[1..], k);
        var tb := WithScore(b[1..], k);
        assert head + ta == head + tb;
        assert ta == (head + ta)[|head|..];
        assert tb == (head + tb)[|head|..];
      }
      SortedGroupsDetermineOrder(a[1..], b[1..]);
      assert a == [a[0]] + a[1..];
      assert b == [b[0]] + b[1..];
    }
  }

  /** A sequence of positive scores has an empty group for score 0. */
  lemma {:induction false} NoZeroGroup(s: seq<ScoredRecipe>)
    requires forall i :: 0 <= i < |s| ==> s[i].matchPercentage > 0
    ensures WithScore(s, 0) == []
  {
    if s != [] {
      NoZeroGroup(s[1..]);
    }
  }

  /** The ranking is THE stable descending sort of the positively scored
      recipes: any sequence sorted by score whose score groups are those of
      the scored input, in input order and without score 0, is the result. */
  lemma SuggestIsStableRanking(inventory: Option<seq<InventoryItem>>, recipes: Option<seq<Recipe>>,
                               ranking: seq<ScoredRecipe>)
    requires SortedByScore(ranking)
    requires WithScore(ranking, 0) == []
    requires forall k :: k > 0 ==>
               WithScore(ranking, k) == WithScore(ScoreAll(recipes.GetOr([]), OwnedIds(inventory)), k)
    ensures ranking == Suggest(inventory, recipes)
  {
    var r := Suggest(inventory, recipes);
    forall k ensures WithScore(ranking, k) == WithScore(r, k) {
      if k == 0 {
        NoZeroGroup(r);
      }
    }
    SortedGroupsDetermineOrder(ranking, r);
  }

  /* ------------------------------------------------------------------ */
  /* Worked scenarios                                                    */
  /* ------------------------------------------------------------------ */

  function Need(ingredientId: Id): RecipeIngredient {
    RecipeIngredient(ingredientId, "r", ingredientId, 1.0, "piece", None)
  }

  function Own(ingredientId: Id): InventoryItem {
    InventoryItem(ingredientId, "u", ingredientId, 1.0, "piece", None, None)
  }

  /** Owning tomato and garlic, a soup needing tomato, garlic and onion
      scores round(2/3 * 100) = 67 and misses only the onion. */
  lemma PartialMatchScenario()
    ensures var soup := Recipe("soup", "u", "Soup", "", "", "",
                               Some([Need("tomato"), Need("garlic"), Need("onion")]));
            Score(soup, ["tomato", "garlic"]) == ScoredRecipe(soup, 67, [Need("onion")])
  {
    var entries := [Need("tomato"), Need("garlic"), Need("onion")];
    assert entries[1..] == [Need("garlic"), Need("onion")];
    assert entries[1..][1..] == [Need("onion")];
    assert Available(entries, ["tomato", "garlic"]) == 2;
  }

  /** A recipe with one entry that is owned scores 100 and misses nothing. */
  lemma FullMatchScenario()
    ensures var toast := Recipe("toast", "u", "Toast", "", "", "", Some([Need("bread")]));
            Score(toast, ["bread"]) == ScoredRecipe(toast, 100, [])
  {
  }

  lemma ScoreAllPair(first: Recipe, second: Recipe, owned: seq<Id>)
    ensures ScoreAll([first, second], owned) == [Score(first, owned), Score(second, owned)]
  {
    var scored := ScoreAll([first, second], owned);
    assert scored[0] == Score(first, owned) && scored[1] == Score(second, owned);
  }

  /** Two records with the same positive score, in either order, are
      sorted and have no score-0 group. */
  lemma EqualPairIsRanked(x: ScoredRecipe, y: ScoredRecipe)
    requires x.matchPercentage == y.matchPercentage > 0
    ensures SortedByScore([x, y]) && WithScore([x, y], 0) == []
  {
    NoZeroGroup([x, y]);
  }

  /** Two recipes with the same positive score come out in their input
      order, whichever of them is first. */
  lemma EqualScoresKeepInputOrder(inventory: Option<seq<InventoryItem>>, first: Recipe, second: Recipe)
    ensures var owned := OwnedIds(inventory);
            var x := Score(first, owned);
            var y := Score(second, owned);
            x.matchPercentage == y.matchPercentage > 0 ==> Suggest(inventory, Some([first, second])) == [x, y]
  {
    var owned := OwnedIds(inventory);
    var expected := [Score(first, owned), Score(second, owned)];
    if expected[0].matchPercentage == expected[1].matchPercentage > 0 {
      ScoreAllPair(first, second, owned);
      EqualPairIsRanked(expected[0], expected[1]);
      assert expected == [expected[0], expected[1]];
      SuggestIsStableRanking(inventory, Some([first, second]), expected);
    }
  }
}
