/** The recipe-suggestion ranking of `getSuggestedRecipes`: every recipe of
    the user is scored by the share of its required ingredient entries whose
    ingredient is in the user's inventory, recipes scoring 0 are dropped, and
    the rest are stably sorted by score, highest first. The two store reads
    are replaced by their replies. */
module Suggestions {
  import opened JsValues
  import opened Entities

  /** A recipe annotated as the ranking returns it: `{ ...recipe,
      matchPercentage, missingIngredients }`. Keeping the recipe as one field
      keeps every original field of the row unchanged. */
  datatype ScoredRecipe = ScoredRecipe(
    recipe: Recipe,
    matchPercentage: nat,
    missingIngredients: seq<RecipeIngredient>)

  /* ------------------------------------------------------------------ */
  /* Inputs                                                              */
  /* ------------------------------------------------------------------ */

  /** The ingredient ids the user owns: `inventory?.map(i => i.ingredient_id) || []`. */
  function OwnedIds(inventory: Option<seq<InventoryItem>>): (ids: seq<Id>)
    ensures inventory.None? ==> ids == []
    ensures forall id :: id in ids <==>
              inventory.Some? && exists item :: item in inventory.value && item.ingredientId == id
  {
    match inventory
    case None => []
    case Some(items) =>
      var ids := seq(|items|, i requires 0 <= i < |items| => items[i].ingredientId);
      assert forall item :: item in items ==> item.ingredientId in ids by {
        forall item | item in items ensures item.ingredientId in ids {
          var i :| 0 <= i < |items| && items[i] == item;
          assert ids[i] == item.ingredientId;
        }
      }
      ids
  }

  /** The required entries of a recipe: `recipe.recipe_ingredients || []`. */
  function Entries(recipe: Recipe): seq<RecipeIngredient> {
    recipe.recipeIngredients.GetOr([])
  }

  /** Every entry's ingredient is owned. */
  predicate AllOwned(entries: seq<RecipeIngredient>, owned: seq<Id>) {
    forall e :: e in entries ==> e.ingredientId in owned
  }

  /** No entry's ingredient is owned. */
  predicate NoneOwned(entries: seq<RecipeIngredient>, owned: seq<Id>) {
    forall e :: e in entries ==> e.ingredientId !in owned
  }

  /** `a` is `b` with some elements removed, the rest kept in order. */
  predicate IsSubsequence<T(==)>(a: seq<T>, b: seq<T>)
    decreases |b|
  {
    if a == [] then true
    else if b == [] then false
    else (a[0] == b[0] && IsSubsequence(a[1..], b[1..])) || IsSubsequence(a, b[1..])
  }

  /* ------------------------------------------------------------------ */
  /* Scoring one recipe                                                  */
  /* ------------------------------------------------------------------ */

  /** The positions of the entries whose ingredient is owned. */
  function OwnedPositions(entries: seq<RecipeIngredient>, owned: seq<Id>): set<nat> {
    set i: nat | i < |entries| && entries[i].ingredientId in owned
  }

  /** The number of entries whose ingredient is owned
      (`recipeIngredients.filter(ri => userIngredients.includes(ri.ingredient_id)).length`):
      it counts the owned positions, reaches the number of entries exactly
      when all are owned, and is 0 exactly when none is. */
  function Available(entries: seq<RecipeIngredient>, owned: seq<Id>): (n: nat)
    ensures n == |OwnedPositions(entries, owned)|
    ensures n <= |entries|
    ensures n == |entries| <==> AllOwned(entries, owned)
    ensures n == 0 <==> NoneOwned(entries, owned)
  {
    if entries == [] then
      assert OwnedPositions(entries, owned) == {};
      0
    else
      var rest := Available(entries[1..], owned);
      assert forall e :: e in entries <==> e == entries[0] || e in entries[1..];
      OwnedPositionsCons(entries, owned);
      (if entries[0].ingredientId in owned then 1 else 0) + rest
  }

  /** The owned positions of a non-empty list: possibly 0, then those of
      its tail shifted by one. */
  lemma OwnedPositionsCons(entries: seq<RecipeIngredient>, owned: seq<Id>)
    requires entries != []
    ensures |OwnedPositions(entries, owned)| ==
            (if entries[0].ingredientId in owned then 1 else 0) + |OwnedPositions(entries[1..], owned)|
  {
    var tail := OwnedPositions(entries[1..], owned);
    var shifted := Shift(tail);
    var head: set<nat> := if entries[0].ingredientId in owned then {0} else {};
    forall i: nat | i in OwnedPositions(entries, owned) ensures i in head + shifted {
      if i > 0 {
        assert entries[1..][i - 1] == entries[i];
        assert i - 1 in tail;
      }
    }
    forall i: nat | i in head + shifted ensures i in OwnedPositions(entries, owned) {
      if i > 0 {
        assert entries[1..][i - 1] == entries[i];
      }
    }
    assert OwnedPositions(entries, owned) == head + shifted;
    ShiftSize(tail);
    assert 0 !in shifted;
  }

  /** Every element of `s` moved up by one. */
  function Shift(s: set<nat>): set<nat> {
    set i | i in s :: i + 1
  }

  /** Shifting keeps the size of a set. */
  lemma ShiftSize(s: set<nat>)
    ensures |Shift(s)| == |s|
  {
    if s != {} {
      var x :| x in s;
      var rest := s - {x};
      ShiftSize(rest);
      forall y | y in Shift(s) ensures y in Shift(rest) + {x + 1} {
        var i :| i in s && y == i + 1;
        if i != x {
          assert i in rest;
        }
      }
      assert Shift(s) == Shift(rest) + {x + 1};
      assert x + 1 !in Shift(rest);
    }
  }

  /** The entries whose ingredient is not owned, in their original order;
      together with the owned ones they account for every entry. */
  function Missing(entries: seq<RecipeIngredient>, owned: seq<Id>): (m: seq<RecipeIngredient>)
    ensures forall e :: e in m <==> e in entries && e.ingredientId !in owned
    ensures IsSubsequence(m, entries)
    ensures Available(entries, owned) + |m| == |entries|
  {
    if entries == [] then []
    else
      var rest := Missing(entries[1..], owned);
      assert forall e :: e in entries <==> e == entries[0] || e in entries[1..];
      if entries[0].ingredientId in owned then
        assert IsSubsequence(rest, entries) by {
          if rest != [] {
            assert IsSubsequence(rest, entries[1..]);
          }
        }
        rest
      else
        var m := [entries[0]] + rest;
        assert m[1..] == rest;
        m
  }

  /** `Math.round(available / total * 100)`, or 0 for a recipe without
      entries, computed exactly: the result is the integer nearest to the
      percentage, an exact half rounding up (the percentage minus the result
      lies in the interval [-1/2, 1/2)). */
  function MatchPercentage(available: nat, total: nat): (p: nat)
    requires available <= total
    ensures p <= 100
    ensures total == 0 ==> p == 0
    ensures total > 0 ==> -(total as int) <= 2 * (100 * available - p * total) < total
  {
    if total > 0 then
      RoundHalfUp(available, total);
      (200 * available + total) / (2 * total)
    else 0
  }

  lemma RoundHalfUp(available: nat, total: nat)
    requires available <= total && total > 0
    ensures var p := (200 * available + total) / (2 * total);
            && p <= 100
            && -(total as int) <= 2 * (100 * available - p * total) < total
  {
    var x := 200 * available + total;
    var d := 2 * total;
    var p := x / d;
    DivBounds(x, d);
    var dp := d * p;
    assert dp == 2 * (p * total);
    assert dp <= x < dp + d;
    if p > 100 {
      MulMonotone(101, p, d);
    }
  }

  lemma DivBounds(x: nat, d: nat)
    requires d > 0
    ensures d * (x / d) <= x < d * (x / d) + d
  {
  }

  lemma MulMonotone(a: nat, b: nat, c: nat)
    requires a <= b
    ensures a * c <= b * c
  {
  }

  /** When the rounded percentage is 0 or 100. A recipe with 201 or more
      entries scores 0 although one entry is owned, and one with 200 or more
      entries scores 100 although one entry is missing. */
  lemma PercentageExtremes(available: nat, total: nat)
    requires available <= total && total > 0
    ensures MatchPercentage(available, total) == 0 <==> 200 * available < total
    ensures MatchPercentage(available, total) == 100 <==> 200 * (total - available) <= total
  {
    var p := MatchPercentage(available, total);
    if p >= 1 {
      MulMonotone(1, p, total);
    }
    if p <= 99 {
      MulMonotone(p, 99, total);
    }
  }

  /** Scores one recipe. The result keeps the recipe unchanged; its
      percentage is the rounded share of entries that are not missing; the
      missing list holds exactly the unowned entries in order, one per
      unowned position, so repeated entries are counted; a recipe with
      fewer than 200 entries scores 100 exactly when it has every ingredient,
      and one with at most 200 entries scores 0 exactly when it has none. */
  function Score(recipe: Recipe, owned: seq<Id>): (s: ScoredRecipe)
    ensures s.recipe == recipe
    ensures s.matchPercentage <= 100
    ensures Entries(recipe) == [] ==> s.matchPercentage == 0
    ensures var t := |Entries(recipe)|;
            t > 0 ==> -t <= 2 * (100 * (t - |s.missingIngredients|) - s.matchPercentage * t) < t
    ensures forall e :: e in s.missingIngredients <==>
              e in Entries(recipe) && e.ingredientId !in owned
    ensures IsSubsequence(s.missingIngredients, Entries(recipe))
    ensures Available(Entries(recipe), owned) + |s.missingIngredients| == |Entries(recipe)|
    ensures 0 < |Entries(recipe)| < 200 ==>
              (s.matchPercentage == 100 <==> AllOwned(Entries(recipe), owned))
    ensures |Entries(recipe)| <= 200 ==>
              (s.matchPercentage == 0 <==> NoneOwned(Entries(recipe), owned))
  {
    var entries := Entries(recipe);
    var available := Available(entries, owned);
    var missing := Missing(entries, owned);
    var s := ScoredRecipe(recipe, MatchPercentage(available, |entries|), missing);
    if |entries| > 0 then PercentageExtremes(available, |entries|); s else s
  }

  /** A recipe none of whose entries is owned scores 0, whatever its size. */
  lemma NothingOwnedScoresZero(recipe: Recipe, owned: seq<Id>)
    requires NoneOwned(Entries(recipe), owned)
    ensures Score(recipe, owned).matchPercentage == 0
  {
    var entries := Entries(recipe);
    if |entries| > 0 {
      assert Available(entries, owned) == 0;
      PercentageExtremes(0, |entries|);
      assert Score(recipe, owned).matchPercentage == MatchPercentage(0, |entries|);
    }
  }

  /* ------------------------------------------------------------------ */
  /* Filtering and ordering                                              */
  /* ------------------------------------------------------------------ */

  /** `recipes.map(recipe => Score(recipe))`. */
  function ScoreAll(recipes: seq<Recipe>, owned: seq<Id>): (s: seq<ScoredRecipe>)
    ensures |s| == |recipes|
    ensures forall i :: 0 <= i < |recipes| ==> s[i] == Score(recipes[i], owned)
  {
    seq(|recipes|, i requires 0 <= i < |recipes| => Score(recipes[i], owned))
  }

  /** The scored recipes with percentage `k`, in their order in `s`. */
  function WithScore(s: seq<ScoredRecipe>, k: nat): seq<ScoredRecipe> {
    if s == [] then []
    else (if s[0].matchPercentage == k then [s[0]] else []) + WithScore(s[1..], k)
  }

  /** The group of score `k` holds exactly the elements with that score. */
  lemma {:induction false} WithScoreMembers(s: seq<ScoredRecipe>, k: nat)
    ensures forall x :: x in WithScore(s, k) <==> x in s && x.matchPercentage == k
  {
    if s != [] {
      WithScoreMembers(s[1..], k);
      assert forall x :: x in s <==> x == s[0] || x in s[1..];
    }
  }

  /** `.filter(recipe => recipe.matchPercentage > 0)`: keeps exactly the
      recipes with a positive score, in their input order, so each score's
      group is kept whole and in order. */
  function KeepPositive(s: seq<ScoredRecipe>): (r: seq<ScoredRecipe>)
    ensures forall x :: x in r <==> x in s && x.matchPercentage > 0
    ensures IsSubsequence(r, s)
    ensures forall k :: k > 0 ==> WithScore(r, k) == WithScore(s, k)
    ensures WithScore(r, 0) == []
  {
    if s == [] then []
    else
      var rest := KeepPositive(s[1..]);
      assert forall x :: x in s <==> x == s[0] || x in s[1..];
      if s[0].matchPercentage > 0 then
        var r := [s[0]] + rest;
        assert r[1..] == rest;
        r
      else
        assert IsSubsequence(rest, s) by {
          if rest != [] {
            assert IsSubsequence(rest, s[1..]);
          }
        }
        rest
  }

  /** Non-increasing by percentage. */
  predicate SortedByScore(s: seq<ScoredRecipe>) {
    forall i, j :: 0 <= i < j < |s| ==> s[i].matchPercentage >= s[j].matchPercentage
  }

  /** Inserts `x` into a sorted sequence before the first element whose
      score is not above `x`'s, so that `x` precedes the equal-scored
      elements it came before in the input. */
  function Insert(x: ScoredRecipe, s: seq<ScoredRecipe>): (r: seq<ScoredRecipe>)
    requires SortedByScore(s)
    ensures SortedByScore(r)
    ensures multiset(r) == multiset(s) + multiset{x}
    ensures forall k :: WithScore(r, k) ==
              (if x.matchPercentage == k then [x] + WithScore(s, k) else WithScore(s, k))
  {
    if s == [] || x.matchPercentage >= s[0].matchPercentage then
      var r := [x] + s;
      assert r[1..] == s;
      r
    else
      var rest := Insert(x, s[1..]);
      var r := [s[0]] + rest;
      InsertStepSorted(x, s, rest);
      InsertStepGroups(x, s, rest);
      r
  }

  /** The inductive step of `Insert` when `x` goes after `s[0]`: order and
      contents. */
  lemma InsertStepSorted(x: ScoredRecipe, s: seq<ScoredRecipe>, rest: seq<ScoredRecipe>)
    requires SortedByScore(s) && s != [] && x.matchPercentage < s[0].matchPercentage
    requires SortedByScore(rest)
    requires multiset(rest) == multiset(s[1..]) + multiset{x}
    ensures SortedByScore([s[0]] + rest)
    ensures multiset([s[0]] + rest) == multiset(s) + multiset{x}
  {
    var r := [s[0]] + rest;
    assert r[1..] == rest;
    assert s == [s[0]] + s[1..];
    RestBelowHead(x, s, rest);
    forall i, j | 0 <= i < j < |r| ensures r[i].matchPercentage >= r[j].matchPercentage {
      assert r[j] == rest[j - 1];
      if i > 0 {
        assert r[i] == rest[i - 1];
      }
    }
  }

  /** Every element of the tail with `x` inserted scores at most the head. */
  lemma RestBelowHead(x: ScoredRecipe, s: seq<ScoredRecipe>, rest: seq<ScoredRecipe>)
    requires SortedByScore(s) && s != [] && x.matchPercentage < s[0].matchPercentage
    requires multiset(rest) == multiset(s[1..]) + multiset{x}
    ensures forall i :: 0 <= i < |rest| ==> rest[i].matchPercentage <= s[0].matchPercentage
  {
    forall i | 0 <= i < |rest| ensures rest[i].matchPercentage <= s[0].matchPercentage {
      var y := rest[i];
      assert y in multiset(rest);
      if y != x {
        assert y in multiset(s[1..]);
        var j :| 0 <= j < |s[1..]| && s[1..][j] == y;
        assert s[j + 1] == y;
      }
    }
  }

  /** The inductive step of `Insert` when `x` goes after `s[0]`: each score's
      group. */
  lemma InsertStepGroups(x: ScoredRecipe, s: seq<ScoredRecipe>, rest: seq<ScoredRecipe>)
    requires s != [] && x.matchPercentage < s[0].matchPercentage
    requires forall k :: WithScore(rest, k) ==
               (if x.matchPercentage == k then [x] + WithScore(s[1..], k) else WithScore(s[1..], k))
    ensures forall k :: WithScore([s[0]] + rest, k) ==
              (if x.matchPercentage == k then [x] + WithScore(s, k) else WithScore(s, k))
  {
    forall k ensures WithScore([s[0]] + rest, k) ==
                 (if x.matchPercentage == k then [x] + WithScore(s, k) else WithScore(s, k))
    {
      InsertGroupAt(x, s, rest, k);
    }
  }

  /** `InsertStepGroups` for one score `k`. */
  lemma InsertGroupAt(x: ScoredRecipe, s: seq<ScoredRecipe>, rest: seq<ScoredRecipe>, k: nat)
    requires s != [] && x.matchPercentage < s[0].matchPercentage
    requires WithScore(rest, k) ==
               (if x.matchPercentage == k then [x] + WithScore(s[1..], k) else WithScore(s[1..], k))
    ensures WithScore([s[0]] + rest, k) ==
              (if x.matchPercentage == k then [x] + WithScore(s, k) else WithScore(s, k))
  {
    WithScoreCons(s[0], rest, k);
    WithScoreCons(s[0], s[1..], k);
    assert s == [s[0]] + s[1..];
    var head: seq<ScoredRecipe> := if s[0].matchPercentage == k then [s[0]] else [];
    if x.matchPercentage == k {
      assert head == [];
      assert WithScore([s[0]] + rest, k) == WithScore(rest, k);
      assert WithScore(s, k) == WithScore(s[1..], k);
    } else {
      assert WithScore([s[0]] + rest, k) == head + WithScore(s[1..], k);
    }
  }

  lemma WithScoreCons(y: ScoredRecipe, s: seq<ScoredRecipe>, k: nat)
    ensures WithScore([y] + s, k) == (if y.matchPercentage == k then [y] else []) + WithScore(s, k)
  {
    assert ([y] + s)[1..] == s;
  }

  /** `.sort((a, b) => b.matchPercentage - a.matchPercentage)` with the
      stable sort ECMA-262 requires of `Array.prototype.sort` (ECMAScript 2019
      onwards): an insertion sort. The result is
      sorted, a permutation of the input, and each score's group keeps its
      input order. */
  function SortByScore(s: seq<ScoredRecipe>): (r: seq<ScoredRecipe>)
    ensures SortedByScore(r)
    ensures multiset(r) == multiset(s)
    ensures forall k :: WithScore(r, k) == WithScore(s, k)
  {
    if s == [] then []
    else
      var sorted := SortByScore(s[1..]);
      var r := Insert(s[0], sorted);
      SortStep(s, sorted, r);
      r
  }

  /** The inductive step of `SortByScore`: inserting the head into the
      sorted tail keeps the contents and each score's group of `s`. */
  lemma SortStep(s: seq<ScoredRecipe>, sorted: seq<ScoredRecipe>, r: seq<ScoredRecipe>)
    requires s != []
    requires multiset(sorted) == multiset(s[1..])
    requires forall k :: WithScore(sorted, k) == WithScore(s[1..], k)
    requires multiset(r) == multiset(sorted) + multiset{s[0]}
    requires forall k :: WithScore(r, k) ==
               (if s[0].matchPercentage == k then [s[0]] + WithScore(sorted, k) else WithScore(sorted, k))
    ensures multiset(r) == multiset(s)
    ensures forall k :: WithScore(r, k) == WithScore(s, k)
  {
    assert s == [s[0]] + s[1..];
    forall k ensures WithScore(r, k) == WithScore(s, k) {
      SortGroupAt(s, sorted, r, k);
    }
  }

  /** The inductive step of `SortByScore` for one score `k`. */
  lemma SortGroupAt(s: seq<ScoredRecipe>, sorted: seq<ScoredRecipe>, r: seq<ScoredRecipe>, k: nat)
    requires s != []
    requires WithScore(sorted, k) == WithScore(s[1..], k)
    requires WithScore(r, k) ==
               (if s[0].matchPercentage == k then [s[0]] + WithScore(sorted, k) else WithScore(sorted, k))
    ensures WithScore(r, k) == WithScore(s, k)
  {
    WithScoreCons(s[0], s[1..], k);
    assert s == [s[0]] + s[1..];
  }

  /* ------------------------------------------------------------------ */
  /* The ranking                                                         */
  /* ------------------------------------------------------------------ */

  /** The suggestion list for the replies of the two reads (their data
      only). Absent recipe data gives the empty list. Every returned record is
      the score of one input recipe with a positive percentage, every such
      score is returned (as often as it occurs), the list is sorted by
      percentage, highest first, and recipes with equal percentages keep their
      input order. */
  function Suggest(inventory: Option<seq<InventoryItem>>, recipes: Option<seq<Recipe>>)
    : (r: seq<ScoredRecipe>)
    ensures recipes.None? ==> r == []
    ensures forall i :: 0 <= i < |r| ==> 0 < r[i].matchPercentage <= 100
    ensures SortedByScore(r)
    ensures forall x :: x in r <==>
              exists recipe :: recipe in recipes.GetOr([]) && x == Score(recipe, OwnedIds(inventory))
                               && x.matchPercentage > 0
    ensures multiset(r) == multiset(KeepPositive(ScoreAll(recipes.GetOr([]), OwnedIds(inventory))))
    ensures forall k :: k > 0 ==>
              WithScore(r, k) == WithScore(ScoreAll(recipes.GetOr([]), OwnedIds(inventory)), k)
  {
    match recipes
    case None => []
    case Some(all) =>
      var owned := OwnedIds(inventory);
      RankedMembers(all, owned);
      RankedBounds(all, owned);
      SortByScore(KeepPositive(ScoreAll(all, owned)))
  }

  /** What membership in the ranked list means. */
  lemma RankedMembers(all: seq<Recipe>, owned: seq<Id>)
    ensures var r := SortByScore(KeepPositive(ScoreAll(all, owned)));
            forall x :: x in r <==>
              exists recipe :: recipe in all && x == Score(recipe, owned) && x.matchPercentage > 0
  {
    var scored := ScoreAll(all, owned);
    var kept := KeepPositive(scored);
    var r := SortByScore(kept);
    forall x ensures x in r <==> x in kept {
      assert x in r <==> x in multiset(r);
    }
    forall x | x in scored ensures exists recipe :: recipe in all && x == Score(recipe, owned) {
      var i :| 0 <= i < |scored| && scored[i] == x;
      assert all[i] in all;
    }
    forall recipe | recipe in all ensures Score(recipe, owned) in scored {
      var i :| 0 <= i < |all| && all[i] == recipe;
      assert scored[i] == Score(recipe, owned);
    }
  }

  /** Every ranked record has a percentage in 1..100. */
  lemma RankedBounds(all: seq<Recipe>, owned: seq<Id>)
    ensures var r := SortByScore(KeepPositive(ScoreAll(all, owned)));
            forall i :: 0 <= i < |r| ==> 0 < r[i].matchPercentage <= 100
  {
    var scored := ScoreAll(all, owned);
    var kept := KeepPositive(scored);
    var r := SortByScore(kept);
    forall i | 0 <= i < |r| ensures 0 < r[i].matchPercentage <= 100 {
      assert r[i] in multiset(kept);
      assert r[i] in scored;
      var j :| 0 <= j < |scored| && scored[j] == r[i];
    }
  }

  /** `getSuggestedRecipes`: the reply carries the ranking of the read data
      and always a null error; the errors of the two reads are not looked
      at. */
  function GetSuggestedRecipes(inventory: Reply<seq<InventoryItem>>, recipes: Reply<seq<Recipe>>)
    : (r: Reply<seq<ScoredRecipe>>)
    ensures r.error == None && r.data.Some?
    ensures r.data == Some(Suggest(inventory.data, recipes.data))
    ensures recipes.data.None? ==> r.data == Some([])
  {
    Reply(Some(Suggest(inventory.data, recipes.data)), None)
  }
}
