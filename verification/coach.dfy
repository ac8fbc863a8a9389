/** The Coach page's meal planning: the shopping basket of recipe ids, the
    swap of one meal of the day's plan for an alternative with the totals
    recomputed, and the guard before asking for a shopping list. */
module Coach {
  import opened Text

  predicate NoDuplicates(ids: seq<int>)
  {
    forall i, j :: 0 <= i < j < |ids| ==> ids[i] != ids[j]
  }

  /** `addToPanier(recipe)`: a recipe already in the basket is not added
      again; a new one goes at the end. */
  function AddToBasket(basket: seq<int>, id: int): (r: seq<int>)
    ensures id in basket ==> r == basket
    ensures id !in basket ==> r == basket + [id]
    ensures id in r
    ensures NoDuplicates(basket) ==> NoDuplicates(r)
  {
    if id in basket then basket else basket + [id]
  }

  /** The basket after a series of additions to the empty basket. */
  function AddAll(ids: seq<int>): (basket: seq<int>)
    ensures NoDuplicates(basket)
  {
    if |ids| == 0 then [] else AddToBasket(AddAll(ids[..|ids| - 1]), ids[|ids| - 1])
  }

  /** Whatever is added, in whatever order or repetition, the basket holds
      each added recipe exactly once. */
  lemma {:induction false} BasketHoldsEachOnce(ids: seq<int>)
    ensures NoDuplicates(AddAll(ids))
    ensures forall x :: x in AddAll(ids) <==> x in ids
    decreases |ids|
  {
    if |ids| > 0 {
      var init := ids[..|ids| - 1];
      BasketHoldsEachOnce(init);
      assert ids == init + [ids[|ids| - 1]];
    }
  }

  /** `genShopping()`: the recipe ids posted to `/shopping-list`, or nothing
      at all for an empty basket. */
  function ShoppingRequest(basket: seq<int>): (r: Option<seq<int>>)
    ensures r.None? <==> |basket| == 0
    ensures r.Some? ==> r.value == basket
  {
    if |basket| == 0 then None else Some(basket)
  }

  datatype Recipe = Recipe(id: int, name: string, kcal: int, proteinG: int)

  datatype Meal = Meal(mealType: string, recipe: Recipe)

  datatype Plan = Plan(date: string, items: seq<Meal>, totalKcal: int, totalProteinG: int)

  /** `items.reduce((s, it) => s + it.recipe.kcal, 0)`. */
  function SumKcal(items: seq<Meal>): int
  {
    if |items| == 0 then 0 else SumKcal(items[..|items| - 1]) + items[|items| - 1].recipe.kcal
  }

  /** `items.reduce((s, it) => s + it.recipe.protein_g, 0)`. */
  function SumProtein(items: seq<Meal>): int
  {
    if |items| == 0 then 0 else SumProtein(items[..|items| - 1]) + items[|items| - 1].recipe.proteinG
  }

  /** Replacing one meal's recipe changes the sums by the difference of
      the two recipes. */
  lemma {:induction false} SumsAfterReplace(items: seq<Meal>, idx: nat, alt: Recipe)
    requires idx < |items|
    ensures var after := items[idx := items[idx].(recipe := alt)];
      && SumKcal(after) == SumKcal(items) - items[idx].recipe.kcal + alt.kcal
      && SumProtein(after) == SumProtein(items) - items[idx].recipe.proteinG + alt.proteinG
    decreases |items|
  {
    var after := items[idx := items[idx].(recipe := alt)];
    var n := |items| - 1;
    if idx < n {
      SumsAfterReplace(items[..n], idx, alt);
      assert after[..n] == items[..n][idx := items[idx].(recipe := alt)];
    } else {
      assert after[..n] == items[..n];
    }
  }

  /** `swapRecipe(meal_type, currentKcal, idx)` once `/mealplan/alternatives`
      has answered with `alternatives`: without one the plan is left alone;
      otherwise the first replaces the recipe of meal `idx` and both totals
      are recomputed over the new meals. */
  function Swap(plan: Plan, idx: nat, alternatives: seq<Recipe>): (r: Plan)
    requires idx < |plan.items|
    ensures |alternatives| == 0 ==> r == plan
    ensures |alternatives| > 0 ==>
      && r.date == plan.date
      && |r.items| == |plan.items|
      && r.items[idx] == plan.items[idx].(recipe := alternatives[0])
      && (forall i :: 0 <= i < |plan.items| && i != idx ==> r.items[i] == plan.items[i])
      && r.totalKcal == SumKcal(plan.items) - plan.items[idx].recipe.kcal + alternatives[0].kcal
      && r.totalProteinG == SumProtein(plan.items) - plan.items[idx].recipe.proteinG + alternatives[0].proteinG
  {
    if |alternatives| == 0 then plan
    else
      var alt := alternatives[0];
      var items := plan.items[idx := plan.items[idx].(recipe := alt)];
      SumsAfterReplace(plan.items, idx, alt);
      plan.(items := items, totalKcal := SumKcal(items), totalProteinG := SumProtein(items))
  }

  /** After any swap with an alternative the totals agree with the meals,
      even when the plan's totals did not before. */
  lemma SwapTotalsConsistent(plan: Plan, idx: nat, alternatives: seq<Recipe>)
    requires idx < |plan.items| && |alternatives| > 0
    ensures var r := Swap(plan, idx, alternatives);
      r.totalKcal == SumKcal(r.items) && r.totalProteinG == SumProtein(r.items)
  {
  }
}
