/** The deterministic parts of `generateWeeklyPlanWithLLM` (services/openaiService.ts): the
    safety filter that chooses the candidates, the per-recipe summary shown to the model
    (match ratio, dish and meal classification, liked-first order), the conversion of the
    model's 14 answers into meal sets, and the fill that patches empty slots with unused
    candidates. The model call itself is not modelled: its answer is a parameter. */
module LlmPlan {
  import opened Seqs
  import opened Types
  import opened Constants
  import opened Sorting
  import opened RecipeService
  import opened ScoredPlan

  const MAIN_DISH_TAGS: seq<string> := ["#고기", "#메인", "#한그릇", "#면", "#국물", "#분식", "#빵", "#덮밥"]
  const SIDE_DISH_TAGS: seq<string> := ["#반찬", "#안주"]
  const LUNCH_TAGS: seq<string> := ["#아침", "#브런치", "#간단", "#초간단", "#건강", "#채소"]
  const DINNER_TAGS: seq<string> := ["#고기", "#메인", "#든든", "#파티"]
  const MAIN_CALORIES: int := 300
  const LIGHT_LUNCH_CALORIES: int := 400
  const HEAVY_DINNER_CALORIES: int := 550
  const SIDE_FILL_CALORIES: int := 300
  const LIKED_RANK: real := 1000.0

  // --------------------------------------------------------------- candidates

  /** The recipes the model may choose from: the same three safety filters as the scored
      planner, in catalog order. */
  function CandidateRecipes(catalog: seq<Recipe>, prefs: Option<UserPreferences>, disliked: seq<Recipe>): (c: seq<Recipe>)
    ensures forall r :: r in c <==> r in catalog && !UsesAny(r, Allergies(prefs))
                                    && !UsesAny(r, DislikedFoods(prefs)) && !HasId(disliked, r.id)
    ensures IsSubsequence(c, catalog)
  {
    Filter(catalog, r => IsSafe(r, Allergies(prefs), DislikedFoods(prefs), disliked))
  }

  // ------------------------------------------------------------------ summary

  /** Some tag of the recipe contains one of the keywords. */
  predicate HasTagLike(r: Recipe, keys: seq<string>)
  {
    exists t :: t in r.tags && ContainsAny(t, keys)
  }

  /** `Math.round(100 * m / n)` for `0 <= m <= n`, `n > 0`, in exact arithmetic: the nearest
      whole percentage, halves rounded up. */
  function RoundedPercent(m: nat, n: nat): (p: nat)
    requires 0 < n && m <= n
    ensures p <= 100
    ensures 2 * n * p <= 200 * m + n < 2 * n * (p + 1)
  {
    var p := (200 * m + n) / (2 * n);
    RoundedPercentBounds(m, n, p);
    p
  }

  /** Euclidean division bounds the quotient from both sides, and `m <= n` caps it at 100. */
  lemma RoundedPercentBounds(m: nat, n: nat, p: int)
    requires 0 < n && m <= n && p == (200 * m + n) / (2 * n)
    ensures 0 <= p <= 100
    ensures 2 * n * p <= 200 * m + n < 2 * n * (p + 1)
  {
    var a := 200 * m + n;
    var b := 2 * n;
    var rem := a % b;
    assert a == b * p + rem && 0 <= rem < b;
    assert b * (p + 1) == b * p + b;
    assert p >= 0 by {
      if p < 0 {
        MulMonotone(b, p + 1, 0);
      }
    }
    assert a <= b * 100 + n;
    if p > 100 {
      MulMonotone(b, 101, p);
    }
  }

  /** Multiplying by a positive number keeps the order. */
  lemma MulMonotone(b: nat, x: int, y: int)
    requires x <= y
    ensures b * x <= b * y
  {
    assert b * y == b * x + b * (y - x);
  }

  /** The share of the recipe's non-staple ingredients found in the fridge, in whole percent;
      0 when the recipe has none. */
  function MatchRatio(r: Recipe, fridge: seq<string>): (ratio: nat)
    ensures ratio <= 100
    ensures |NonStaples(r.ingredients)| == 0 ==> ratio == 0
    ensures |NonStaples(r.ingredients)| > 0 ==>
              ratio == RoundedPercent(Matches(r, fridge), |NonStaples(r.ingredients)|)
  {
    var n := |NonStaples(r.ingredients)|;
    if n == 0 then 0 else RoundedPercent(Matches(r, fridge), n)
  }

  /** A side tag makes a side dish; otherwise a main tag or at least 300 kcal makes a main. */
  function DishTypeOf(r: Recipe): (d: DishType)
    ensures d == Side <==> HasTagLike(r, SIDE_DISH_TAGS) || (!HasTagLike(r, MAIN_DISH_TAGS) && r.calories < MAIN_CALORIES)
    ensures d == Main <==> !HasTagLike(r, SIDE_DISH_TAGS) && (HasTagLike(r, MAIN_DISH_TAGS) || r.calories >= MAIN_CALORIES)
  {
    if HasTagLike(r, SIDE_DISH_TAGS) then Side
    else if HasTagLike(r, MAIN_DISH_TAGS) || r.calories >= MAIN_CALORIES then Main
    else Side
  }

  /** Lunch or dinner tags alone decide; with both kinds, either meal; with neither, light
      recipes (under 400 kcal) are lunch, heavy ones (over 550 kcal) dinner, the rest either. */
  function MealTypeOf(r: Recipe): (m: MealTime)
    ensures m == Lunch <==>
              (HasTagLike(r, LUNCH_TAGS) && !HasTagLike(r, DINNER_TAGS))
              || (!HasTagLike(r, LUNCH_TAGS) && !HasTagLike(r, DINNER_TAGS) && r.calories < LIGHT_LUNCH_CALORIES)
    ensures m == Dinner <==>
              (HasTagLike(r, DINNER_TAGS) && !HasTagLike(r, LUNCH_TAGS))
              || (!HasTagLike(r, LUNCH_TAGS) && !HasTagLike(r, DINNER_TAGS) && r.calories > HEAVY_DINNER_CALORIES)
    ensures HasTagLike(r, LUNCH_TAGS) && HasTagLike(r, DINNER_TAGS) ==> m == Both
  {
    var lunch := HasTagLike(r, LUNCH_TAGS);
    var dinner := HasTagLike(r, DINNER_TAGS);
    if lunch && !dinner then Lunch
    else if dinner && !lunch then Dinner
    else if !lunch && !dinner then
      if r.calories < LIGHT_LUNCH_CALORIES then Lunch
      else if r.calories > HEAVY_DINNER_CALORIES then Dinner
      else Both
    else Both
  }

  /** A whole percentage. */
  type Percent = x: int | 0 <= x <= 100

  /** One line of the recipe database shown to the model. */
  datatype RecipeSummary = RecipeSummary(id: int, name: string, dishType: DishType, mealType: MealTime,
                                         calories: int, matchRatio: Percent, isLiked: bool)

  function Summarize(r: Recipe, fridge: seq<string>, liked: seq<Recipe>): (s: RecipeSummary)
    ensures s.id == r.id && s.name == r.name && s.calories == r.calories
    ensures s.dishType == DishTypeOf(r) && s.mealType == MealTypeOf(r)
    ensures s.matchRatio == MatchRatio(r, fridge) && s.matchRatio <= 100
    ensures s.isLiked <==> HasId(liked, r.id)
  {
    RecipeSummary(r.id, r.name, DishTypeOf(r), MealTypeOf(r), r.calories, MatchRatio(r, fridge), HasId(liked, r.id))
  }

  /** The comparator's order as one key: liked first, then by match ratio. */
  function SummaryRank(): RecipeSummary -> real
  {
    (s: RecipeSummary) => (if s.isLiked then LIKED_RANK else 0.0) + (s.matchRatio as real)
  }

  function Summaries(candidates: seq<Recipe>, fridge: seq<string>, liked: seq<Recipe>): (s: seq<RecipeSummary>)
    ensures |s| == |candidates|
    ensures forall i :: 0 <= i < |s| ==> s[i] == Summarize(candidates[i], fridge, liked)
  {
    seq(|candidates|, i requires 0 <= i < |candidates| => Summarize(candidates[i], fridge, liked))
  }

  /** The summary in the comparator's order: a rearrangement of the candidates' summaries
      with every liked recipe before every other one and, within each group, match ratios
      non-increasing. */
  function SortedSummary(candidates: seq<Recipe>, fridge: seq<string>, liked: seq<Recipe>): (s: seq<RecipeSummary>)
    ensures multiset(s) == multiset(Summaries(candidates, fridge, liked))
    ensures forall i, j :: 0 <= i < j < |s| && s[j].isLiked ==> s[i].isLiked
    ensures forall i, j :: 0 <= i < j < |s| && s[i].isLiked == s[j].isLiked ==> s[i].matchRatio >= s[j].matchRatio
  {
    var s := SortDesc(Summaries(candidates, fridge, liked), SummaryRank());
    assert forall i, j :: 0 <= i < j < |s| ==>
             (s[j].isLiked ==> s[i].isLiked) && (s[i].isLiked == s[j].isLiked ==> s[i].matchRatio >= s[j].matchRatio) by {
      forall i, j | 0 <= i < j < |s|
        ensures (s[j].isLiked ==> s[i].isLiked) && (s[i].isLiked == s[j].isLiked ==> s[i].matchRatio >= s[j].matchRatio)
      {
        RankOrder(s[i], s[j]);
      }
    }
    s
  }

  /** A higher rank means liked before not liked, and a higher ratio within a group: the
      liked bonus exceeds any ratio. */
  lemma RankOrder(a: RecipeSummary, b: RecipeSummary)
    requires SummaryRank()(a) >= SummaryRank()(b)
    ensures b.isLiked ==> a.isLiked
    ensures a.isLiked == b.isLiked ==> a.matchRatio >= b.matchRatio
  {
  }

  /** The order among summaries of equal rank is the candidates' order. */
  lemma SortedSummaryStable(candidates: seq<Recipe>, fridge: seq<string>, liked: seq<Recipe>, rank: real)
    ensures WithKey(SortedSummary(candidates, fridge, liked), SummaryRank(), rank)
         == WithKey(Summaries(candidates, fridge, liked), SummaryRank(), rank)
  {
    SortDescStable(Summaries(candidates, fridge, liked), SummaryRank(), rank);
  }

  // ------------------------------------------------------------------- slots

  /** `day * 2 + (lunch ? 0 : 1)`. */
  function SlotIndex(day: int, meal: MealKind): int
  {
    day * 2 + (if meal == LunchMeal then 0 else 1)
  }

  /** The meal a slot serves: even slots are lunch, odd ones dinner. */
  function MealOfSlot(i: int): MealKind
  {
    if i % 2 == 0 then LunchMeal else DinnerMeal
  }

  /** Slot numbering is a bijection from the seven days' two meals onto the 14 slots, and it
      agrees with the meal the fill assigns to each slot. */
  lemma SlotIndexBijective(day: int, meal: MealKind, d2: int, m2: MealKind, slot: int)
    requires 0 <= day <= 6 && 0 <= d2 <= 6 && 0 <= slot < WEEKLY_PLAN_SLOTS
    ensures 0 <= SlotIndex(day, meal) < WEEKLY_PLAN_SLOTS
    ensures MealOfSlot(SlotIndex(day, meal)) == meal && SlotIndex(day, meal) / 2 == day
    ensures SlotIndex(day, meal) == SlotIndex(d2, m2) ==> day == d2 && meal == m2
    ensures SlotIndex(slot / 2, MealOfSlot(slot)) == slot
  {
  }

  // ------------------------------------------------------------ the answer

  /** One meal of the model's answer. */
  datatype PlanItem = PlanItem(day: int, meal: MealKind, mainRecipeId: int, sideRecipeId: Option<int>, reasoning: string)

  /** The schema check: exactly 14 meals, each on a day 0 (Monday) to 6 (Sunday). Any other
      answer is rejected (the source throws). */
  predicate WellFormedResponse(items: seq<PlanItem>)
  {
    |items| == WEEKLY_PLAN_SLOTS && forall k :: 0 <= k < |items| ==> 0 <= items[k].day <= 6
  }

  function SlotOf(item: PlanItem): int
  {
    SlotIndex(item.day, item.meal)
  }

  /** `catalog.find(r => r.id === id)`: the first recipe with that id. */
  function FindById(catalog: seq<Recipe>, id: int): (r: Option<Recipe>)
    ensures r.Some? <==> HasId(catalog, id)
    ensures r.Some? ==> r.value in catalog && r.value.id == id
    ensures r.Some? ==> exists k :: 0 <= k < |catalog| && catalog[k] == r.value
                                    && forall j :: 0 <= j < k ==> catalog[j].id != id
  {
    if |catalog| == 0 then None
    else if catalog[0].id == id then Some(catalog[0])
    else
      var rest := FindById(catalog[1..], id);
      assert HasId(catalog, id) ==> HasId(catalog[1..], id) by {
        if HasId(catalog, id) {
          var i :| 0 <= i < |catalog| && catalog[i].id == id;
          assert catalog[1..][i - 1].id == id;
        }
      }
      assert rest.Some? ==> exists k :: 0 <= k < |catalog| && catalog[k] == rest.value
                                        && forall j :: 0 <= j < k ==> catalog[j].id != id by {
        if rest.Some? {
          var k :| 0 <= k < |catalog[1..]| && catalog[1..][k] == rest.value
                   && forall j :: 0 <= j < k ==> catalog[1..][j].id != id;
          assert catalog[k + 1] == rest.value;
          forall j | 0 <= j < k + 1 ensures catalog[j].id != id {
            if j > 0 {
              assert catalog[j] == catalog[1..][j - 1];
            }
          }
        }
      }
      rest
  }

  /** The model's meal at slot `s` names a main dish the catalog has. */
  predicate MainHit(items: seq<PlanItem>, catalog: seq<Recipe>, k: int, s: int)
    requires 0 <= k < |items|
  {
    SlotOf(items[k]) == s && HasId(catalog, items[k].mainRecipeId)
  }

  /** The model's meal at slot `s` names a side dish the catalog has. */
  predicate SideHit(items: seq<PlanItem>, catalog: seq<Recipe>, k: int, s: int)
    requires 0 <= k < |items|
  {
    SlotOf(items[k]) == s && items[k].sideRecipeId.Some? && HasId(catalog, items[k].sideRecipeId.value)
  }

  /** The model's meal `k` names a catalog dish for place `p` of slot `s`. */
  predicate Hit(items: seq<PlanItem>, catalog: seq<Recipe>, k: int, s: int, p: Part)
    requires 0 <= k < |items|
  {
    if p == MainPart then MainHit(items, catalog, k, s) else SideHit(items, catalog, k, s)
  }

  /** One more meal: a place is present afterwards exactly when it was before or the new meal
      hits it. */
  lemma PresenceAt(prev: seq<MealSet>, next: seq<MealSet>, items: seq<PlanItem>, catalog: seq<Recipe>, i: int, s: int, p: Part)
    requires 0 <= i < |items| && 0 <= s < |prev| && |next| == |prev|
    requires Entry(prev[s], p).Some? <==> exists k :: 0 <= k < i && Hit(items, catalog, k, s, p)
    requires Hit(items, catalog, i, s, p) ==> Entry(next[s], p).Some?
    requires !Hit(items, catalog, i, s, p) ==> Entry(next[s], p) == Entry(prev[s], p)
    ensures Entry(next[s], p).Some? <==> exists k :: 0 <= k < i + 1 && Hit(items, catalog, k, s, p)
  {
    if !Hit(items, catalog, i, s, p) && exists k :: 0 <= k < i + 1 && Hit(items, catalog, k, s, p) {
      var k :| 0 <= k < i + 1 && Hit(items, catalog, k, s, p);
      assert k < i;
    }
  }

  /** The catalog's recipe carrying the model's reasoning as its reason. */
  function WithReason(r: Recipe, reasoning: string): Recipe
  {
    r.(reason := Some(reasoning))
  }

  function MainChoice(catalog: seq<Recipe>, item: PlanItem): Recipe
    requires HasId(catalog, item.mainRecipeId)
  {
    WithReason(FindById(catalog, item.mainRecipeId).value, item.reasoning)
  }

  function SideChoice(catalog: seq<Recipe>, item: PlanItem): Recipe
    requires item.sideRecipeId.Some? && HasId(catalog, item.sideRecipeId.value)
  {
    WithReason(FindById(catalog, item.sideRecipeId.value).value, item.reasoning)
  }

  /** Some meal among the first `n` names `id` (as main or side) and the catalog lacks it. */
  predicate MissingAmong(items: seq<PlanItem>, catalog: seq<Recipe>, id: int, n: int)
    requires 0 <= n <= |items|
  {
    !HasId(catalog, id) && exists k :: 0 <= k < n && (items[k].mainRecipeId == id || items[k].sideRecipeId == Some(id))
  }

  /** The main dish at slot `s` after the first `n` meals: present exactly when one of them
      hit, and then the last such meal's choice. */
  predicate MainsAfter(sets: seq<MealSet>, items: seq<PlanItem>, catalog: seq<Recipe>, n: int)
    requires |sets| == WEEKLY_PLAN_SLOTS && 0 <= n <= |items|
  {
    (forall s :: 0 <= s < WEEKLY_PLAN_SLOTS ==>
       (sets[s].main.Some? <==> exists k :: 0 <= k < n && MainHit(items, catalog, k, s)))
    && (forall s, k :: 0 <= s < WEEKLY_PLAN_SLOTS && 0 <= k < n && MainHit(items, catalog, k, s)
                       && (forall k2 :: k < k2 < n ==> !MainHit(items, catalog, k2, s))
                       ==> sets[s].main == Some(MainChoice(catalog, items[k])))
  }

  /** The same for the side dish. */
  predicate SidesAfter(sets: seq<MealSet>, items: seq<PlanItem>, catalog: seq<Recipe>, n: int)
    requires |sets| == WEEKLY_PLAN_SLOTS && 0 <= n <= |items|
  {
    (forall s :: 0 <= s < WEEKLY_PLAN_SLOTS ==>
       (sets[s].side.Some? <==> exists k :: 0 <= k < n && SideHit(items, catalog, k, s)))
    && (forall s, k :: 0 <= s < WEEKLY_PLAN_SLOTS && 0 <= k < n && SideHit(items, catalog, k, s)
                       && (forall k2 :: k < k2 < n ==> !SideHit(items, catalog, k2, s))
                       ==> sets[s].side == Some(SideChoice(catalog, items[k])))
  }

  /** The meal sets built from the answer and the ids the catalog did not have. */
  datatype Conversion = Conversion(sets: seq<MealSet>, missing: seq<int>)

  function EmptySets(): (sets: seq<MealSet>)
    ensures |sets| == WEEKLY_PLAN_SLOTS
    ensures forall s :: 0 <= s < |sets| ==> sets[s] == MealSet(None, None)
  {
    seq(WEEKLY_PLAN_SLOTS, _ => MealSet(None, None))
  }

  /** Rejects a malformed answer; otherwise places each meal's dishes in its slot, in answer
      order, so a later meal for the same slot replaces an earlier one, and lists every id
      the catalog lacks. */
  method ConvertResponse(items: seq<PlanItem>, catalog: seq<Recipe>) returns (res: Option<Conversion>)
    ensures res.None? <==> !WellFormedResponse(items)
    ensures res.Some? ==> |res.value.sets| == WEEKLY_PLAN_SLOTS
    ensures res.Some? ==> MainsAfter(res.value.sets, items, catalog, |items|)
    ensures res.Some? ==> SidesAfter(res.value.sets, items, catalog, |items|)
    ensures res.Some? ==> forall id :: id in res.value.missing <==> MissingAmong(items, catalog, id, |items|)
  {
    if !WellFormedResponse(items) {
      return None;
    }
    var sets := EmptySets();
    var missing: seq<int> := [];
    var i := 0;
    while i < |items|
      invariant 0 <= i <= |items| && |sets| == WEEKLY_PLAN_SLOTS
      invariant MainsAfter(sets, items, catalog, i)
      invariant SidesAfter(sets, items, catalog, i)
      invariant forall id :: id in missing <==> MissingAmong(items, catalog, id, i)
    {
      sets, missing := ConvertItem(sets, missing, items, catalog, i);
      i := i + 1;
    }
    return Some(Conversion(sets, missing));
  }

  /** One turn of the conversion loop: meal `i`'s dishes go into its slot, and the ids the
      catalog lacks are recorded. */
  method ConvertItem(sets: seq<MealSet>, missing: seq<int>, items: seq<PlanItem>, catalog: seq<Recipe>, i: int)
    returns (sets': seq<MealSet>, missing': seq<int>)
    requires WellFormedResponse(items)
    requires 0 <= i < |items| && |sets| == WEEKLY_PLAN_SLOTS
    requires MainsAfter(sets, items, catalog, i)
    requires SidesAfter(sets, items, catalog, i)
    requires forall id :: id in missing <==> MissingAmong(items, catalog, id, i)
    ensures |sets'| == WEEKLY_PLAN_SLOTS
    ensures MainsAfter(sets', items, catalog, i + 1)
    ensures SidesAfter(sets', items, catalog, i + 1)
    ensures forall id :: id in missing' <==> MissingAmong(items, catalog, id, i + 1)
  {
    var item := items[i];
    var slot := SlotOf(item);
    SlotIndexBijective(item.day, item.meal, item.day, item.meal, 0);
    sets', missing' := sets, missing;
    var mainRecipe := FindById(catalog, item.mainRecipeId);
    if mainRecipe.Some? {
      sets' := sets'[slot := sets'[slot].(main := Some(WithReason(mainRecipe.value, item.reasoning)))];
    } else {
      missing' := missing' + [item.mainRecipeId];
    }
    MainStep(sets, sets', items, catalog, i);
    var mid := sets';
    if item.sideRecipeId.Some? {
      var sideRecipe := FindById(catalog, item.sideRecipeId.value);
      if sideRecipe.Some? {
        sets' := sets'[slot := sets'[slot].(side := Some(WithReason(sideRecipe.value, item.reasoning)))];
      } else {
        missing' := missing' + [item.sideRecipeId.value];
      }
    }
    SideStep(sets, mid, sets', items, catalog, i);
    MissingStep(items, catalog, i);
  }

  /** Placing meal `i`'s main dish extends the main-dish description by one meal. */
  lemma MainStep(prev: seq<MealSet>, next: seq<MealSet>, items: seq<PlanItem>, catalog: seq<Recipe>, i: int)
    requires 0 <= i < |items| && |prev| == WEEKLY_PLAN_SLOTS && 0 <= SlotOf(items[i]) < WEEKLY_PLAN_SLOTS
    requires MainsAfter(prev, items, catalog, i)
    requires next == if HasId(catalog, items[i].mainRecipeId)
                     then prev[SlotOf(items[i]) := prev[SlotOf(items[i])].(main := Some(MainChoice(catalog, items[i])))]
                     else prev
    ensures |next| == WEEKLY_PLAN_SLOTS && MainsAfter(next, items, catalog, i + 1)
    ensures forall s :: 0 <= s < WEEKLY_PLAN_SLOTS ==> next[s].side == prev[s].side
  {
    MainPresence(prev, next, items, catalog, i);
    MainLast(prev, next, items, catalog, i);
  }

  /** After meal `i`, a slot has a main dish exactly when some meal so far hit it. */
  lemma MainPresence(prev: seq<MealSet>, next: seq<MealSet>, items: seq<PlanItem>, catalog: seq<Recipe>, i: int)
    requires 0 <= i < |items| && |prev| == WEEKLY_PLAN_SLOTS && 0 <= SlotOf(items[i]) < WEEKLY_PLAN_SLOTS
    requires MainsAfter(prev, items, catalog, i)
    requires next == if HasId(catalog, items[i].mainRecipeId)
                     then prev[SlotOf(items[i]) := prev[SlotOf(items[i])].(main := Some(MainChoice(catalog, items[i])))]
                     else prev
    ensures forall s :: 0 <= s < WEEKLY_PLAN_SLOTS ==>
              (next[s].main.Some? <==> exists k :: 0 <= k < i + 1 && MainHit(items, catalog, k, s))
  {
    forall s | 0 <= s < WEEKLY_PLAN_SLOTS
      ensures next[s].main.Some? <==> exists k :: 0 <= k < i + 1 && MainHit(items, catalog, k, s)
    {
      assert forall k :: 0 <= k < |items| ==> (Hit(items, catalog, k, s, MainPart) <==> MainHit(items, catalog, k, s));
      PresenceAt(prev, next, items, catalog, i, s, MainPart);
    }
  }


  /** After meal `i`, a slot holds the main dish of the last meal so far that hit it. */
  lemma MainLast(prev: seq<MealSet>, next: seq<MealSet>, items: seq<PlanItem>, catalog: seq<Recipe>, i: int)
    requires 0 <= i < |items| && |prev| == WEEKLY_PLAN_SLOTS && 0 <= SlotOf(items[i]) < WEEKLY_PLAN_SLOTS
    requires MainsAfter(prev, items, catalog, i)
    requires next == if HasId(catalog, items[i].mainRecipeId)
                     then prev[SlotOf(items[i]) := prev[SlotOf(items[i])].(main := Some(MainChoice(catalog, items[i])))]
                     else prev
    ensures forall s, k :: 0 <= s < WEEKLY_PLAN_SLOTS && 0 <= k < i + 1 && MainHit(items, catalog, k, s)
                           && (forall k2 :: k < k2 < i + 1 ==> !MainHit(items, catalog, k2, s))
                           ==> next[s].main == Some(MainChoice(catalog, items[k]))
  {
    forall s, k | 0 <= s < WEEKLY_PLAN_SLOTS && 0 <= k < i + 1 && MainHit(items, catalog, k, s)
                  && (forall k2 :: k < k2 < i + 1 ==> !MainHit(items, catalog, k2, s))
      ensures next[s].main == Some(MainChoice(catalog, items[k]))
    {
      if k < i {
        assert !MainHit(items, catalog, i, s);
        assert next[s].main == prev[s].main;
        assert forall k2 :: k < k2 < i ==> !MainHit(items, catalog, k2, s);
      } else {
        assert next[s].main == Some(MainChoice(catalog, items[i]));
      }
    }
  }

  /** Placing meal `i`'s side dish extends the side-dish description by one meal. */
  lemma SideStep(prev: seq<MealSet>, mid: seq<MealSet>, next: seq<MealSet>, items: seq<PlanItem>, catalog: seq<Recipe>, i: int)
    requires 0 <= i < |items| && |prev| == WEEKLY_PLAN_SLOTS && |mid| == WEEKLY_PLAN_SLOTS
    requires 0 <= SlotOf(items[i]) < WEEKLY_PLAN_SLOTS
    requires SidesAfter(prev, items, catalog, i)
    requires forall s :: 0 <= s < WEEKLY_PLAN_SLOTS ==> mid[s].side == prev[s].side
    requires next == if items[i].sideRecipeId.Some? && HasId(catalog, items[i].sideRecipeId.value)
                     then mid[SlotOf(items[i]) := mid[SlotOf(items[i])].(side := Some(SideChoice(catalog, items[i])))]
                     else mid
    ensures |next| == WEEKLY_PLAN_SLOTS && SidesAfter(next, items, catalog, i + 1)
    ensures forall s :: 0 <= s < WEEKLY_PLAN_SLOTS ==> next[s].main == mid[s].main
  {
    SidePresence(prev, mid, next, items, catalog, i);
    SideLast(prev, mid, next, items, catalog, i);
  }

  /** After meal `i`, a slot has a side dish exactly when some meal so far hit it. */
  lemma SidePresence(prev: seq<MealSet>, mid: seq<MealSet>, next: seq<MealSet>, items: seq<PlanItem>, catalog: seq<Recipe>, i: int)
    requires 0 <= i < |items| && |prev| == WEEKLY_PLAN_SLOTS && |mid| == WEEKLY_PLAN_SLOTS
    requires 0 <= SlotOf(items[i]) < WEEKLY_PLAN_SLOTS
    requires SidesAfter(prev, items, catalog, i)
    requires forall s :: 0 <= s < WEEKLY_PLAN_SLOTS ==> mid[s].side == prev[s].side
    requires next == if items[i].sideRecipeId.Some? && HasId(catalog, items[i].sideRecipeId.value)
                     then mid[SlotOf(items[i]) := mid[SlotOf(items[i])].(side := Some(SideChoice(catalog, items[i])))]
                     else mid
    ensures forall s :: 0 <= s < WEEKLY_PLAN_SLOTS ==>
              (next[s].side.Some? <==> exists k :: 0 <= k < i + 1 && SideHit(items, catalog, k, s))
  {
    forall s | 0 <= s < WEEKLY_PLAN_SLOTS
      ensures next[s].side.Some? <==> exists k :: 0 <= k < i + 1 && SideHit(items, catalog, k, s)
    {
      assert forall k :: 0 <= k < |items| ==> (Hit(items, catalog, k, s, SidePart) <==> SideHit(items, catalog, k, s));
      PresenceAt(prev, next, items, catalog, i, s, SidePart);
    }
  }


  /** After meal `i`, a slot holds the side dish of the last meal so far that hit it. */
  lemma SideLast(prev: seq<MealSet>, mid: seq<MealSet>, next: seq<MealSet>, items: seq<PlanItem>, catalog: seq<Recipe>, i: int)
    requires 0 <= i < |items| && |prev| == WEEKLY_PLAN_SLOTS && |mid| == WEEKLY_PLAN_SLOTS
    requires 0 <= SlotOf(items[i]) < WEEKLY_PLAN_SLOTS
    requires SidesAfter(prev, items, catalog, i)
    requires forall s :: 0 <= s < WEEKLY_PLAN_SLOTS ==> mid[s].side == prev[s].side
    requires next == if items[i].sideRecipeId.Some? && HasId(catalog, items[i].sideRecipeId.value)
                     then mid[SlotOf(items[i]) := mid[SlotOf(items[i])].(side := Some(SideChoice(catalog, items[i])))]
                     else mid
    ensures forall s, k :: 0 <= s < WEEKLY_PLAN_SLOTS && 0 <= k < i + 1 && SideHit(items, catalog, k, s)
                           && (forall k2 :: k < k2 < i + 1 ==> !SideHit(items, catalog, k2, s))
                           ==> next[s].side == Some(SideChoice(catalog, items[k]))
  {
    forall s, k | 0 <= s < WEEKLY_PLAN_SLOTS && 0 <= k < i + 1 && SideHit(items, catalog, k, s)
                  && (forall k2 :: k < k2 < i + 1 ==> !SideHit(items, catalog, k2, s))
      ensures next[s].side == Some(SideChoice(catalog, items[k]))
    {
      if k < i {
        assert !SideHit(items, catalog, i, s);
        assert next[s].side == prev[s].side;
        assert forall k2 :: k < k2 < i ==> !SideHit(items, catalog, k2, s);
      } else {
        assert next[s].side == Some(SideChoice(catalog, items[i]));
      }
    }
  }

  /** The ids missing after `i + 1` meals are those after `i` plus meal `i`'s unknown ids. */
  lemma MissingStep(items: seq<PlanItem>, catalog: seq<Recipe>, i: int)
    requires 0 <= i < |items|
    ensures forall id :: MissingAmong(items, catalog, id, i + 1) <==>
              MissingAmong(items, catalog, id, i)
              || (!HasId(catalog, id) && (items[i].mainRecipeId == id || items[i].sideRecipeId == Some(id)))
  {
    forall id | MissingAmong(items, catalog, id, i + 1) && !MissingAmong(items, catalog, id, i)
      ensures items[i].mainRecipeId == id || items[i].sideRecipeId == Some(id)
    {
      var k :| 0 <= k < i + 1 && (items[k].mainRecipeId == id || items[k].sideRecipeId == Some(id));
      assert k == i;
    }
  }

  // -------------------------------------------------------------- the fill

  datatype Part = MainPart | SidePart

  function Entry(ms: MealSet, p: Part): Option<Recipe>
  {
    if p == MainPart then ms.main else ms.side
  }

  /** Some dish of the plan has id `x` (the source's `usedRecipeIds`). */
  predicate Used(sets: seq<MealSet>, x: int)
  {
    exists j, p :: 0 <= j < |sets| && Entry(sets[j], p).Some? && Entry(sets[j], p).value.id == x
  }

  /** The ids of every dish of the plan, collected slot by slot. */
  function UsedIds(sets: seq<MealSet>): (ids: set<int>)
    ensures forall x :: x in ids <==> Used(sets, x)
  {
    if |sets| == 0 then {}
    else
      var last := sets[|sets| - 1];
      var rest := UsedIds(sets[..|sets| - 1]);
      var here := (if last.main.Some? then {last.main.value.id} else {})
                  + (if last.side.Some? then {last.side.value.id} else {});
      assert forall x :: Used(sets, x) <==> Used(sets[..|sets| - 1], x) || x in here by {
        forall x ensures Used(sets, x) <==> Used(sets[..|sets| - 1], x) || x in here {
          if Used(sets, x) && x !in here {
            var j, p :| 0 <= j < |sets| && Entry(sets[j], p).Some? && Entry(sets[j], p).value.id == x;
            assert j < |sets| - 1;
            assert Entry(sets[..|sets| - 1][j], p) == Entry(sets[j], p);
          }
          if Used(sets[..|sets| - 1], x) {
            var j, p :| 0 <= j < |sets| - 1 && Entry(sets[..|sets| - 1][j], p).Some?
                        && Entry(sets[..|sets| - 1][j], p).value.id == x;
            assert Entry(sets[j], p) == Entry(sets[..|sets| - 1][j], p);
          }
          if x in here {
            if last.main.Some? && last.main.value.id == x {
              assert Entry(sets[|sets| - 1], MainPart) == last.main;
            } else {
              assert Entry(sets[|sets| - 1], SidePart) == last.side;
            }
          }
        }
      }
      rest + here
  }

  /** The meal type a slot's meal accepts. */
  function MealTimeOf(meal: MealKind): MealTime
  {
    if meal == LunchMeal then Lunch else Dinner
  }

  /** A recipe may fill an empty main slot: a main dish or unclassified, and meant for this
      meal, for both, or unclassified. */
  predicate MainEligible(r: Recipe, meal: MealKind)
  {
    (r.dishType == Some(Main) || r.dishType.None?)
    && (r.mealType == Some(MealTimeOf(meal)) || r.mealType == Some(Both) || r.mealType.None?)
  }

  /** A recipe may fill an empty side slot: a side dish, or unclassified and under 300 kcal. */
  predicate SideEligible(r: Recipe)
  {
    r.dishType == Some(Side) || (r.dishType.None? && r.calories < SIDE_FILL_CALORIES)
  }

  function Eligible(r: Recipe, p: Part, meal: MealKind): bool
  {
    if p == MainPart then MainEligible(r, meal) else SideEligible(r)
  }

  /** The first candidate not yet used and eligible for the slot's part, if any. */
  function FirstAvailable(candidates: seq<Recipe>, used: set<int>, p: Part, meal: MealKind): (r: Option<Recipe>)
    ensures r.Some? ==> r.value in candidates && r.value.id !in used && Eligible(r.value, p, meal)
    ensures r.None? ==> forall c :: c in candidates && Eligible(c, p, meal) ==> c.id in used
    ensures r.Some? ==> exists k :: 0 <= k < |candidates| && candidates[k] == r.value
                                    && forall j :: 0 <= j < k ==> candidates[j].id in used || !Eligible(candidates[j], p, meal)
  {
    var ok := (c: Recipe) => c.id !in used && Eligible(c, p, meal);
    var available := Filter(candidates, ok);
    if |available| > 0 then
      FilterHeadIsFirst(candidates, ok);
      Some(available[0])
    else None
  }

  /** The plan with dish `r` in place `p` of slot `i`; every other place is unchanged. */
  function Put(sets: seq<MealSet>, i: int, p: Part, r: Recipe): (next: seq<MealSet>)
    requires 0 <= i < |sets|
    ensures |next| == |sets|
    ensures Entry(next[i], p) == Some(r)
    ensures forall j, q :: 0 <= j < |sets| && (j != i || q != p) ==> Entry(next[j], q) == Entry(sets[j], q)
    ensures forall j :: 0 <= j < |sets| && j != i ==> next[j] == sets[j]
  {
    sets[i := if p == MainPart then sets[i].(main := Some(r)) else sets[i].(side := Some(r))]
  }

  /** The fill put a dish where the plan had none. */
  predicate Filled(orig: seq<MealSet>, cur: seq<MealSet>, j: int, p: Part)
    requires |orig| == |cur| && 0 <= j < |cur|
  {
    Entry(orig[j], p).None? && Entry(cur[j], p).Some?
  }

  /** Every dish the fill added has an id no other dish of the plan has, and none of the
      original dishes had. */
  predicate FreshFills(orig: seq<MealSet>, cur: seq<MealSet>)
    requires |orig| == |cur|
  {
    forall j, p :: 0 <= j < |cur| && Filled(orig, cur, j, p) ==>
      !Used(orig, Entry(cur[j], p).value.id)
      && forall k, q :: (0 <= k < |cur| && (k != j || q != p) && Entry(cur[k], q).Some?)
                          ==> Entry(cur[k], q).value.id != Entry(cur[j], p).value.id
  }

  /** The fill never overwrites a dish. */
  predicate KeepsDishes(orig: seq<MealSet>, cur: seq<MealSet>)
    requires |orig| == |cur|
  {
    forall j, p :: 0 <= j < |cur| && Entry(orig[j], p).Some? ==> Entry(cur[j], p) == Entry(orig[j], p)
  }

  /** Putting a recipe with an unused id into an empty place keeps the added dishes fresh and
      adds exactly its id to the used ones. */
  lemma PutFresh(orig: seq<MealSet>, cur: seq<MealSet>, i: int, p: Part, r: Recipe)
    requires |orig| == |cur| && 0 <= i < |cur| && Entry(cur[i], p).None? && !Used(cur, r.id)
    requires KeepsDishes(orig, cur) && FreshFills(orig, cur)
    ensures KeepsDishes(orig, Put(cur, i, p, r)) && FreshFills(orig, Put(cur, i, p, r))
    ensures forall x :: Used(Put(cur, i, p, r), x) <==> Used(cur, x) || x == r.id
  {
    var next := Put(cur, i, p, r);
    assert Entry(next[i], p) == Some(r);
    assert forall j, q :: 0 <= j < |cur| && (j != i || q != p) ==> Entry(next[j], q) == Entry(cur[j], q);
    assert !Used(orig, r.id);
    forall x ensures Used(next, x) <==> Used(cur, x) || x == r.id {
      if Used(next, x) && x != r.id {
        var j, q :| 0 <= j < |next| && Entry(next[j], q).Some? && Entry(next[j], q).value.id == x;
        assert Entry(cur[j], q) == Entry(next[j], q);
      }
      if Used(cur, x) {
        var j, q :| 0 <= j < |cur| && Entry(cur[j], q).Some? && Entry(cur[j], q).value.id == x;
        assert Entry(next[j], q) == Entry(cur[j], q);
      }
    }
    forall j, q | 0 <= j < |next| && Filled(orig, next, j, q)
      ensures !Used(orig, Entry(next[j], q).value.id)
      ensures forall k, q2 :: (0 <= k < |next| && (k != j || q2 != q) && Entry(next[k], q2).Some?)
                               ==> Entry(next[k], q2).value.id != Entry(next[j], q).value.id
    {
      forall k, q2 | 0 <= k < |next| && (k != j || q2 != q) && Entry(next[k], q2).Some?
        ensures Entry(next[k], q2).value.id != Entry(next[j], q).value.id
      {
        if k == i && q2 == p {
          assert Entry(next[j], q) == Entry(cur[j], q);
          assert Used(cur, Entry(cur[j], q).value.id);
        } else if j == i && q == p {
          assert Entry(next[k], q2) == Entry(cur[k], q2);
          assert Used(cur, Entry(cur[k], q2).value.id);
        }
      }
    }
  }

  /** A filled dish is a candidate that suits its place. */
  predicate FilledEligible(orig: seq<MealSet>, cur: seq<MealSet>, candidates: seq<Recipe>)
    requires |orig| == |cur|
  {
    forall j, p :: 0 <= j < |cur| && Filled(orig, cur, j, p) ==>
      Entry(cur[j], p).value in candidates && Eligible(Entry(cur[j], p).value, p, MealOfSlot(j))
  }

  /** A place is settled once it holds a dish or every candidate suiting it is used. */
  predicate Settled(cur: seq<MealSet>, candidates: seq<Recipe>, used: set<int>, j: int, p: Part)
    requires 0 <= j < |cur|
  {
    Entry(cur[j], p).Some? || forall c :: c in candidates && Eligible(c, p, MealOfSlot(j)) ==> c.id in used
  }

  /** What the fill keeps true after every place it handles. */
  ghost predicate FillInvariant(orig: seq<MealSet>, cur: seq<MealSet>, candidates: seq<Recipe>, used: set<int>)
  {
    |orig| == |cur| && (forall x :: x in used <==> Used(cur, x))
    && KeepsDishes(orig, cur) && FreshFills(orig, cur) && FilledEligible(orig, cur, candidates)
  }

  /** Handles one place: an empty place takes the first unused candidate that suits it. */
  method FillPlace(orig: seq<MealSet>, cur: seq<MealSet>, candidates: seq<Recipe>, used: set<int>, i: int, p: Part)
    returns (next: seq<MealSet>, used2: set<int>)
    requires FillInvariant(orig, cur, candidates, used) && 0 <= i < |cur|
    ensures FillInvariant(orig, next, candidates, used2) && |next| == |cur|
    ensures Settled(next, candidates, used2, i, p) && used <= used2
    ensures forall j, q :: 0 <= j < |cur| && (j != i || q != p) ==> Entry(next[j], q) == Entry(cur[j], q)
    ensures forall j :: 0 <= j < |cur| && j != i ==> next[j] == cur[j]
  {
    next, used2 := cur, used;
    if Entry(cur[i], p).None? {
      var pick := FirstAvailable(candidates, used, p, MealOfSlot(i));
      if pick.Some? {
        PutFresh(orig, cur, i, p, pick.value);
        PutEligible(orig, cur, candidates, i, p, pick.value);
        next := Put(cur, i, p, pick.value);
        used2 := used + {pick.value.id};
      }
    }
  }

  /** Putting a candidate that suits the place keeps every filled dish eligible. */
  lemma PutEligible(orig: seq<MealSet>, cur: seq<MealSet>, candidates: seq<Recipe>, i: int, p: Part, r: Recipe)
    requires |orig| == |cur| && 0 <= i < |cur| && FilledEligible(orig, cur, candidates)
    requires r in candidates && Eligible(r, p, MealOfSlot(i))
    ensures FilledEligible(orig, Put(cur, i, p, r), candidates)
  {
    var next := Put(cur, i, p, r);
    forall j, q | 0 <= j < |next| && Filled(orig, next, j, q)
      ensures Entry(next[j], q).value in candidates && Eligible(Entry(next[j], q).value, q, MealOfSlot(j))
    {
      if j != i || q != p {
        assert Filled(orig, cur, j, q);
      }
    }
  }

  /** The fallback fill: for each slot in order, an empty main takes the first unused
      candidate that suits the slot's meal, then an empty side the first unused side-dish
      candidate; each placed id joins the used ids. Afterwards every place holds a dish or
      every candidate that would suit it is already in the plan. */
  method FillEmptySlots(sets: seq<MealSet>, candidates: seq<Recipe>) returns (r: seq<MealSet>)
    ensures |r| == |sets| && KeepsDishes(sets, r) && FreshFills(sets, r) && FilledEligible(sets, r, candidates)
    ensures forall j, p :: 0 <= j < |r| && Entry(r[j], p).None? ==>
              forall c :: c in candidates && Eligible(c, p, MealOfSlot(j)) ==> Used(r, c.id)
  {
    r := sets;
    var used := UsedIds(sets);
    var i := 0;
    while i < |sets|
      invariant 0 <= i <= |sets| && FillInvariant(sets, r, candidates, used)
      invariant forall j, p :: 0 <= j < i ==> Settled(r, candidates, used, j, p)
    {
      var r1, used1 := FillPlace(sets, r, candidates, used, i, MainPart);
      var r2, used2 := FillPlace(sets, r1, candidates, used1, i, SidePart);
      forall j, p | 0 <= j < i + 1 ensures Settled(r2, candidates, used2, j, p) {
        if j < i {
          assert Settled(r, candidates, used, j, p);
          assert r2[j] == r[j];
        } else if p == MainPart {
          assert Settled(r1, candidates, used1, i, MainPart);
          assert Entry(r2[i], MainPart) == Entry(r1[i], MainPart);
        }
      }
      r, used := r2, used2;
      i := i + 1;
    }
    forall j, p | 0 <= j < |r| && Entry(r[j], p).None?
      ensures forall c :: c in candidates && Eligible(c, p, MealOfSlot(j)) ==> Used(r, c.id)
    {
      assert Settled(r, candidates, used, j, p);
    }
  }

  // ------------------------------------------------------------ the whole

  /** The answer placed a dish of the catalog at this place. */
  predicate Answered(items: seq<PlanItem>, catalog: seq<Recipe>, s: int, p: Part)
  {
    exists k :: 0 <= k < |items| && Hit(items, catalog, k, s, p)
  }

  /** No other place of the plan holds a dish with the same id. */
  predicate UniqueAt(plan: seq<MealSet>, j: int, p: Part)
    requires 0 <= j < |plan| && Entry(plan[j], p).Some?
  {
    forall k, q :: (0 <= k < |plan| && (k != j || q != p) && Entry(plan[k], q).Some?)
                     ==> Entry(plan[k], q).value.id != Entry(plan[j], p).value.id
  }

  /** The plan built from the model's answer `items`: rejected when malformed; otherwise the
      answer's dishes, the last meal for a slot winning, with every place the answer left
      empty patched from the safe candidates. */
  method PlanFromResponse(catalog: seq<Recipe>, prefs: Option<UserPreferences>, disliked: seq<Recipe>,
                          items: seq<PlanItem>) returns (plan: Option<seq<MealSet>>)
    ensures plan.None? <==> !WellFormedResponse(items)
    ensures plan.Some? ==> |plan.value| == WEEKLY_PLAN_SLOTS
    ensures plan.Some? ==>
              forall s, k :: 0 <= s < WEEKLY_PLAN_SLOTS && 0 <= k < |items| && MainHit(items, catalog, k, s)
                             && (forall k2 :: k < k2 < |items| ==> !MainHit(items, catalog, k2, s))
                             ==> plan.value[s].main == Some(MainChoice(catalog, items[k]))
    ensures plan.Some? ==>
              forall s, k :: 0 <= s < WEEKLY_PLAN_SLOTS && 0 <= k < |items| && SideHit(items, catalog, k, s)
                             && (forall k2 :: k < k2 < |items| ==> !SideHit(items, catalog, k2, s))
                             ==> plan.value[s].side == Some(SideChoice(catalog, items[k]))
    ensures plan.Some? ==>
              forall s, p :: 0 <= s < WEEKLY_PLAN_SLOTS && !Answered(items, catalog, s, p) && Entry(plan.value[s], p).Some? ==>
                Entry(plan.value[s], p).value in CandidateRecipes(catalog, prefs, disliked)
                && Eligible(Entry(plan.value[s], p).value, p, MealOfSlot(s))
                && UniqueAt(plan.value, s, p)
    ensures plan.Some? ==>
              forall s, p :: 0 <= s < WEEKLY_PLAN_SLOTS && Entry(plan.value[s], p).None? ==>
                !Answered(items, catalog, s, p)
                && forall c :: c in CandidateRecipes(catalog, prefs, disliked) && Eligible(c, p, MealOfSlot(s)) ==> Used(plan.value, c.id)
  {
    var candidates := CandidateRecipes(catalog, prefs, disliked);
    var conv := ConvertResponse(items, catalog);
    if conv.None? {
      return None;
    }
    var sets := conv.value.sets;
    var filled := FillEmptySlots(sets, candidates);
    forall s, p | 0 <= s < WEEKLY_PLAN_SLOTS
      ensures Entry(sets[s], p).None? <==> !Answered(items, catalog, s, p)
    {
      if p == MainPart {
        assert sets[s].main.Some? <==> exists k :: 0 <= k < |items| && MainHit(items, catalog, k, s);
        assert forall k :: 0 <= k < |items| ==> (Hit(items, catalog, k, s, p) <==> MainHit(items, catalog, k, s));
      } else {
        assert sets[s].side.Some? <==> exists k :: 0 <= k < |items| && SideHit(items, catalog, k, s);
        assert forall k :: 0 <= k < |items| ==> (Hit(items, catalog, k, s, p) <==> SideHit(items, catalog, k, s));
      }
    }
    forall s, k | 0 <= s < WEEKLY_PLAN_SLOTS && 0 <= k < |items| && MainHit(items, catalog, k, s)
                  && (forall k2 :: k < k2 < |items| ==> !MainHit(items, catalog, k2, s))
      ensures filled[s].main == Some(MainChoice(catalog, items[k]))
    {
      assert Entry(sets[s], MainPart).Some?;
    }
    forall s, k | 0 <= s < WEEKLY_PLAN_SLOTS && 0 <= k < |items| && SideHit(items, catalog, k, s)
                  && (forall k2 :: k < k2 < |items| ==> !SideHit(items, catalog, k2, s))
      ensures filled[s].side == Some(SideChoice(catalog, items[k]))
    {
      assert Entry(sets[s], SidePart).Some?;
    }
    forall s, p | 0 <= s < WEEKLY_PLAN_SLOTS && !Answered(items, catalog, s, p) && Entry(filled[s], p).Some?
      ensures UniqueAt(filled, s, p)
    {
      assert Filled(sets, filled, s, p);
    }
    return Some(filled);
  }
}
