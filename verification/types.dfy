/** The records the planner works on (types.ts) and the engine-wide constants (constants.ts). */
module Types {
  import opened Seqs

  datatype Option<T> = None | Some(value: T)

  /** Dish role derived from tags and calories. */
  datatype DishType = Main | Side

  /** Meal-time suitability derived from tags and calories. */
  datatype MealTime = Lunch | Dinner | Both

  /** A catalog recipe. The image URL is display-only and not modelled; `dishType` and
      `mealType` are optional because the catalog entries do not carry them. */
  datatype Recipe = Recipe(
    id: int,
    name: string,
    ingredients: seq<string>,
    tags: seq<string>,
    time: string,
    calories: int,
    reason: Option<string>,
    dishType: Option<DishType>,
    mealType: Option<MealTime>)

  /** Dietary settings; `spicinessLevel` is 1 (mild), 2 (medium) or 3 (hot), or 0 when unset. */
  datatype UserPreferences = UserPreferences(
    allergies: seq<string>,
    dislikedFoods: seq<string>,
    spicinessLevel: int,
    cookingSkill: string)

  /** The two meals of a day (`'lunch' | 'dinner'`). */
  datatype MealKind = LunchMeal | DinnerMeal

  /** A lunch or dinner slot: a main dish and an optional side dish. */
  datatype MealSet = MealSet(main: Option<Recipe>, side: Option<Recipe>)

  function Ids(rs: seq<Recipe>): (ids: seq<int>)
    ensures |ids| == |rs|
    ensures forall i :: 0 <= i < |rs| ==> ids[i] == rs[i].id
    ensures forall r :: r in rs ==> r.id in ids
  {
    if |rs| == 0 then [] else [rs[0].id] + Ids(rs[1..])
  }

  /** No two recipes of `rs` share an id. */
  predicate DistinctIds(rs: seq<Recipe>)
  {
    forall i, j :: 0 <= i < j < |rs| ==> rs[i].id != rs[j].id
  }

  /** Distinct ids are the same thing as a duplicate-free id list. */
  lemma DistinctIdsMeansNoDup(rs: seq<Recipe>)
    ensures DistinctIds(rs) <==> NoDup(Ids(rs))
  {
  }

  /** In a list with distinct ids, an id determines the recipe. */
  lemma SameIdSameRecipe(rs: seq<Recipe>, a: Recipe, b: Recipe)
    requires DistinctIds(rs) && a in rs && b in rs && a.id == b.id
    ensures a == b
  {
    var i :| 0 <= i < |rs| && rs[i] == a;
    var j :| 0 <= j < |rs| && rs[j] == b;
  }

  /** Distinct ids make the recipes distinct. */
  lemma DistinctIdsNoDup(rs: seq<Recipe>)
    requires DistinctIds(rs)
    ensures NoDup(rs)
  {
  }

  /** Some recipe of `rs` has id `id` (the source's `rs.some(r => r.id === id)`). */
  predicate HasId(rs: seq<Recipe>, id: int)
  {
    exists i :: 0 <= i < |rs| && rs[i].id == id
  }

  /** The `j`-th draw of the random source, standing for `Math.floor(Math.random() * n)`
      once reduced modulo `n`; draws beyond the supplied ones read as 0. */
  function Choice(choices: seq<nat>, j: nat): nat
  {
    if j < |choices| then choices[j] else 0
  }
}

/** Constants of the application (constants.ts). */
module Constants {

  /** Seven days times lunch and dinner. */
  const WEEKLY_PLAN_SLOTS: nat := 14

  /** Basic seasonings assumed always on hand: excluded from matching, chaining and shopping. */
  const STAPLES: seq<string> := [
    "소금", "설탕", "물", "파", "마늘", "밥", "김치", "간장", "고춧가루",
    "후추", "식용유", "참기름", "깨", "식초", "맛술", "올리고당",
    "다진마늘", "부침가루", "전분", "깨소금", "다시다", "미림"
  ]

  /** The fridge a new user starts with. */
  const MOCK_FRIDGE: seq<string> := [
    "계란", "김치", "양파", "스팸", "두부", "감자", "돼지고기", "파스타면"
  ]

  predicate IsStaple(ingredient: string)
  {
    ingredient in STAPLES
  }
}
