/** The scored weekly planner `generateScoredWeeklyPlan` (services/recipeService.ts):
    safety filtering, per-recipe scoring, a stable sort into a top-30 pool, a 14-slot greedy
    selection with a duplicate ban, a per-tag cap and a random pick among the top five,
    fallbacks, and the reason label. `Math.random` is replaced by the draws in `choices`. */
module ScoredPlan {
  import opened Seqs
  import opened Types
  import opened Constants
  import opened Sorting
  import opened RecipeService

  const MAX_TAG_REPEAT: nat := 3
  const POOL_SIZE: nat := 30
  const TOP_PICKS: nat := 5
  const DEFAULT_SPICINESS: int := 2
  const LIKED_BONUS: real := 1000.0
  const SPICY_PENALTY: real := 50.0
  const MISSING_PENALTY: real := 10.0
  const SPICY_TAG_KEYS: seq<string> := ["#매콤", "#얼큰", "#불닭", "#청양", "#매운"]
  const SIGNIFICANT_TAG_KEYS: seq<string> := ["#면", "#고기", "#국물", "#분식", "#빵", "#튀김"]
  const LIKED_REASON: string := "직접 선택한 선호 메뉴"
  const MATCH_REASON: string := "재료 매칭 및 선호도 분석 결과"

  // ------------------------------------------------------------- preferences

  function Allergies(prefs: Option<UserPreferences>): seq<string>
  {
    if prefs.Some? then prefs.value.allergies else []
  }

  function DislikedFoods(prefs: Option<UserPreferences>): seq<string>
  {
    if prefs.Some? then prefs.value.dislikedFoods else []
  }

  /** `preferences?.spicinessLevel || 2`: an absent or zero level reads as medium. */
  function EffectiveSpiciness(prefs: Option<UserPreferences>): (level: int)
    ensures level != 0
    ensures prefs.Some? && prefs.value.spicinessLevel != 0 ==> level == prefs.value.spicinessLevel
    ensures prefs.None? || prefs.value.spicinessLevel == 0 ==> level == DEFAULT_SPICINESS
  {
    if prefs.Some? && prefs.value.spicinessLevel != 0 then prefs.value.spicinessLevel else DEFAULT_SPICINESS
  }

  // ---------------------------------------------------------------- filtering

  /** The recipe uses one of `foods`. */
  predicate UsesAny(r: Recipe, foods: seq<string>)
  {
    exists ing :: ing in r.ingredients && ing in foods
  }

  /** Neither allergenic, nor using a disliked food, nor a disliked recipe. */
  predicate IsSafe(r: Recipe, allergens: seq<string>, dislikedFoods: seq<string>, disliked: seq<Recipe>)
  {
    !UsesAny(r, allergens) && !UsesAny(r, dislikedFoods) && !HasId(disliked, r.id)
  }

  /** The safe pool: catalog recipes passing every filter, in catalog order. */
  function SafePool(catalog: seq<Recipe>, allergens: seq<string>, dislikedFoods: seq<string>, disliked: seq<Recipe>): (safe: seq<Recipe>)
    ensures forall r :: r in safe <==> r in catalog && IsSafe(r, allergens, dislikedFoods, disliked)
    ensures forall r :: multiset(safe)[r] <= multiset(catalog)[r]
  {
    Filter(catalog, r => IsSafe(r, allergens, dislikedFoods, disliked))
  }

  /** The fallback pool: the safe pool, or when that is empty, every allergen-free recipe. */
  function FallbackPool(catalog: seq<Recipe>, allergens: seq<string>, dislikedFoods: seq<string>, disliked: seq<Recipe>): (pool: seq<Recipe>)
    ensures forall r :: r in pool ==> r in catalog && !UsesAny(r, allergens)
    ensures |SafePool(catalog, allergens, dislikedFoods, disliked)| > 0 ==>
              pool == SafePool(catalog, allergens, dislikedFoods, disliked)
    ensures |pool| > 0 <==> exists r :: r in catalog && !UsesAny(r, allergens)
  {
    var safe := SafePool(catalog, allergens, dislikedFoods, disliked);
    if |safe| > 0 then
      assert safe[0] in safe;
      safe
    else
      var free := Filter(catalog, r => !UsesAny(r, allergens));
      assert |free| > 0 ==> free[0] in free;
      free
  }

  // ------------------------------------------------------------------ scoring

  /** Non-staple ingredient count, with 1 standing in for none. */
  function Total(recipe: Recipe): (t: nat)
    ensures t >= 1 && t >= |NonStaples(recipe.ingredients)|
  {
    var n := |NonStaples(recipe.ingredients)|;
    if n == 0 then 1 else n
  }

  /** Non-staple ingredients already in the fridge. */
  function Matches(recipe: Recipe, fridge: seq<string>): (m: nat)
    ensures m <= |NonStaples(recipe.ingredients)|
  {
    |Filter(NonStaples(recipe.ingredients), x => x in fridge)|
  }

  /** A tag of the recipe contains one of the spicy keywords. */
  predicate IsSpicy(recipe: Recipe)
  {
    exists t :: t in recipe.tags && ContainsAny(t, SPICY_TAG_KEYS)
  }

  /** The match part of a score: the percentage of the `t` ingredients on hand, minus 10 for
      each of the `t - m` missing ones. */
  function BaseScore(m: nat, t: nat): (s: real)
    requires 0 < t && m <= t
    ensures -MISSING_PENALTY * (t as real) <= s <= 100.0
  {
    var q := 100.0 * (m as real) / (t as real);
    assert q * (t as real) == 100.0 * (m as real);
    assert (100.0 - q) * (t as real) == 100.0 * ((t - m) as real);
    NonNegativeFactor(100.0 - q, t as real);
    q - MISSING_PENALTY * ((t - m) as real)
  }

  /** One more ingredient on hand never lowers the match part. */
  lemma BaseScoreMonotone(m1: nat, m2: nat, t: nat)
    requires 0 < t && m1 <= m2 <= t
    ensures BaseScore(m1, t) <= BaseScore(m2, t)
  {
    var tr := t as real;
    var q1 := 100.0 * (m1 as real) / tr;
    var q2 := 100.0 * (m2 as real) / tr;
    assert q1 * tr == 100.0 * (m1 as real);
    assert q2 * tr == 100.0 * (m2 as real);
    assert (q2 - q1) * tr == 100.0 * ((m2 - m1) as real);
    NonNegativeFactor(q2 - q1, tr);
    assert BaseScore(m1, t) == q1 - MISSING_PENALTY * ((t - m1) as real);
    assert BaseScore(m2, t) == q2 - MISSING_PENALTY * ((t - m2) as real);
  }

  /** A product that is not negative, with a positive right factor, has a left factor that is
      not negative. */
  lemma NonNegativeFactor(x: real, y: real)
    requires 0.0 < y && 0.0 <= x * y
    ensures 0.0 <= x
  {
  }

  /** The desirability of a recipe: the percentage of non-staple ingredients on hand, minus 10
      per missing one, minus 50 for a spicy recipe when the user wants mild food, plus 1000 for
      a liked recipe. */
  function Score(recipe: Recipe, fridge: seq<string>, spiciness: int, liked: seq<Recipe>): (s: real)
    ensures !HasId(liked, recipe.id) ==> s <= 100.0
    ensures !HasId(liked, recipe.id) ==> s >= -SPICY_PENALTY - MISSING_PENALTY * (Total(recipe) as real)
    ensures HasId(liked, recipe.id) ==> s >= LIKED_BONUS - SPICY_PENALTY - MISSING_PENALTY * (Total(recipe) as real)
  {
    var spicinessPenalty := if spiciness == 1 && IsSpicy(recipe) then SPICY_PENALTY else 0.0;
    var likedBonus := if HasId(liked, recipe.id) then LIKED_BONUS else 0.0;
    BaseScore(Matches(recipe, fridge), Total(recipe)) - spicinessPenalty + likedBonus
  }

  /** The liked bonus is a flat 1000 on top of the score the recipe would get unliked. */
  lemma LikedBonusIsFlat(recipe: Recipe, fridge: seq<string>, spiciness: int, liked: seq<Recipe>)
    ensures Score(recipe, fridge, spiciness, liked)
         == Score(recipe, fridge, spiciness, []) + (if HasId(liked, recipe.id) then LIKED_BONUS else 0.0)
  {
  }

  /** Only a mild preference changes a score, and only of a spicy recipe, by 50. */
  lemma SpicinessPenaltyOnlyWhenMild(recipe: Recipe, fridge: seq<string>, spiciness: int, liked: seq<Recipe>)
    ensures Score(recipe, fridge, spiciness, liked)
         == Score(recipe, fridge, DEFAULT_SPICINESS, liked) - (if spiciness == 1 && IsSpicy(recipe) then SPICY_PENALTY else 0.0)
  {
  }

  /** With at most 84 non-staple ingredients, a liked recipe outscores every recipe that is not. */
  lemma LikedOutranksUnliked(a: Recipe, b: Recipe, fridge: seq<string>, spiciness: int, liked: seq<Recipe>)
    requires HasId(liked, a.id) && !HasId(liked, b.id)
    requires Total(a) <= 84
    ensures Score(a, fridge, spiciness, liked) > Score(b, fridge, spiciness, liked)
  {
  }

  /** Having more in the fridge never lowers a score. */
  lemma ScoreMonotoneInFridge(recipe: Recipe, fridge: seq<string>, more: seq<string>, spiciness: int, liked: seq<Recipe>)
    requires forall x :: x in fridge ==> x in more
    ensures Score(recipe, fridge, spiciness, liked) <= Score(recipe, more, spiciness, liked)
  {
    FilterLengthMonotone(NonStaples(recipe.ingredients), x => x in fridge, x => x in more);
    BaseScoreMonotone(Matches(recipe, fridge), Matches(recipe, more), Total(recipe));
  }

  // ---------------------------------------------------------------- the pool

  datatype Scored = Scored(recipe: Recipe, score: real)

  function ByScore(): Scored -> real
  {
    (c: Scored) => c.score
  }

  /** Every safe recipe with its score, in catalog order. */
  function ScoredCandidates(catalog: seq<Recipe>, fridge: seq<string>, prefs: Option<UserPreferences>,
                            disliked: seq<Recipe>, liked: seq<Recipe>): (scored: seq<Scored>)
    ensures |scored| == |SafePool(catalog, Allergies(prefs), DislikedFoods(prefs), disliked)|
    ensures forall i :: 0 <= i < |scored| ==>
              scored[i].recipe == SafePool(catalog, Allergies(prefs), DislikedFoods(prefs), disliked)[i]
    ensures forall c :: c in scored ==> c.score == Score(c.recipe, fridge, EffectiveSpiciness(prefs), liked)
  {
    var safe := SafePool(catalog, Allergies(prefs), DislikedFoods(prefs), disliked);
    var spiciness := EffectiveSpiciness(prefs);
    seq(|safe|, i requires 0 <= i < |safe| => Scored(safe[i], Score(safe[i], fridge, spiciness, liked)))
  }

  /** Every scored entry is a safe recipe. */
  lemma ScoredAreSafe(catalog: seq<Recipe>, fridge: seq<string>, prefs: Option<UserPreferences>,
                      disliked: seq<Recipe>, liked: seq<Recipe>)
    ensures forall c :: c in ScoredCandidates(catalog, fridge, prefs, disliked, liked) ==>
              c.recipe in SafePool(catalog, Allergies(prefs), DislikedFoods(prefs), disliked)
  {
    var safe := SafePool(catalog, Allergies(prefs), DislikedFoods(prefs), disliked);
    var scored := ScoredCandidates(catalog, fridge, prefs, disliked, liked);
    forall c | c in scored ensures c.recipe in safe {
      var i :| 0 <= i < |scored| && scored[i] == c;
      assert safe[i] in safe;
    }
  }

  /** The top of the scored candidates: the first 30 after a stable sort by descending score. */
  function Pool(catalog: seq<Recipe>, fridge: seq<string>, prefs: Option<UserPreferences>,
                disliked: seq<Recipe>, liked: seq<Recipe>): (pool: seq<Scored>)
    ensures |pool| == Min(POOL_SIZE, |SafePool(catalog, Allergies(prefs), DislikedFoods(prefs), disliked)|)
    ensures forall c :: c in pool ==> c.recipe in SafePool(catalog, Allergies(prefs), DislikedFoods(prefs), disliked)
    ensures forall c :: c in pool ==> c.score == Score(c.recipe, fridge, EffectiveSpiciness(prefs), liked)
    ensures SortedDesc(pool, ByScore())
    ensures forall c, d :: c in ScoredCandidates(catalog, fridge, prefs, disliked, liked) && c !in pool && d in pool
              ==> d.score >= c.score
  {
    var scored := ScoredCandidates(catalog, fridge, prefs, disliked, liked);
    var k := Min(POOL_SIZE, |scored|);
    ScoredAreSafe(catalog, fridge, prefs, disliked, liked);
    TopPrefix(scored, k);
    SortDesc(scored, ByScore())[..k]
  }

  /** The first `k` of the score-sorted entries are entries of the input, in non-increasing
      score order, and none of the entries left out scores higher than one kept. */
  lemma TopPrefix(scored: seq<Scored>, k: nat)
    requires k <= |scored|
    ensures |SortDesc(scored, ByScore())[..k]| == k
    ensures forall c :: c in SortDesc(scored, ByScore())[..k] ==> c in scored
    ensures SortedDesc(SortDesc(scored, ByScore())[..k], ByScore())
    ensures forall c, d :: c in scored && c !in SortDesc(scored, ByScore())[..k] && d in SortDesc(scored, ByScore())[..k]
              ==> d.score >= c.score
  {
    var sorted := SortDesc(scored, ByScore());
    PrefixIncluded(sorted, k);
    SortedPrefix(sorted, ByScore(), k);
    PoolIsTop(scored, k);
  }

  lemma PoolIsTop(scored: seq<Scored>, k: nat)
    requires k <= |scored|
    ensures forall c, d :: c in scored && c !in SortDesc(scored, ByScore())[..k] && d in SortDesc(scored, ByScore())[..k]
              ==> d.score >= c.score
  {
    forall c, d | c in scored && c !in SortDesc(scored, ByScore())[..k] && d in SortDesc(scored, ByScore())[..k]
      ensures d.score >= c.score
    {
      TopOfSorted(scored, ByScore(), k, c, d);
    }
  }

  /** The pool holds the recipe. */
  predicate InPool(pool: seq<Scored>, r: Recipe)
  {
    exists c :: c in pool && c.recipe == r
  }

  // ---------------------------------------------------------------- tag caps

  predicate IsSignificantTag(t: string)
  {
    ContainsAny(t, SIGNIFICANT_TAG_KEYS)
  }

  function TagCount(counts: map<string, nat>, t: string): nat
  {
    if t in counts then counts[t] else 0
  }

  /** No significant tag of the recipe has reached the cap. */
  predicate UnderTagCap(r: Recipe, counts: map<string, nat>)
  {
    forall t :: t in r.tags && IsSignificantTag(t) ==> TagCount(counts, t) < MAX_TAG_REPEAT
  }

  /** Counts every significant tag of `tags`, once per occurrence. */
  function CountTags(counts: map<string, nat>, tags: seq<string>): (r: map<string, nat>)
    decreases |tags|
    ensures forall t :: TagCount(r, t) == TagCount(counts, t) + (if IsSignificantTag(t) then multiset(tags)[t] else 0)
  {
    if |tags| == 0 then counts
    else
      var t0 := tags[0];
      var next := if IsSignificantTag(t0) then counts[t0 := TagCount(counts, t0) + 1] else counts;
      assert tags == [t0] + tags[1..];
      CountTags(next, tags[1..])
  }

  // ---------------------------------------------------------------- one slot

  /** Pool entries whose recipe is not yet selected and is under the tag cap, in pool order. */
  function ValidCandidates(pool: seq<Scored>, selected: seq<Recipe>, counts: map<string, nat>): (valid: seq<Scored>)
    ensures forall c :: c in valid <==> c in pool && !HasId(selected, c.recipe.id) && UnderTagCap(c.recipe, counts)
  {
    Filter(pool, (c: Scored) => !HasId(selected, c.recipe.id) && UnderTagCap(c.recipe, counts))
  }

  /** The first pool entry whose recipe is not yet selected (`pool.find`). */
  function FirstUnused(pool: seq<Scored>, selected: seq<Recipe>): (r: Option<Scored>)
    ensures r.Some? ==> r.value in pool && !HasId(selected, r.value.recipe.id)
    ensures r.None? <==> forall c :: c in pool ==> HasId(selected, c.recipe.id)
    ensures r.Some? ==> exists k :: 0 <= k < |pool| && pool[k] == r.value
                                    && forall j :: 0 <= j < k ==> HasId(selected, pool[j].recipe.id)
  {
    if |pool| == 0 then None
    else if !HasId(selected, pool[0].recipe.id) then Some(pool[0])
    else
      var r := FirstUnused(pool[1..], selected);
      assert pool == [pool[0]] + pool[1..];
      assert r.Some? ==> exists k :: 0 <= k < |pool| && pool[k] == r.value
                                     && forall j :: 0 <= j < k ==> HasId(selected, pool[j].recipe.id) by {
        if r.Some? {
          var k :| 0 <= k < |pool[1..]| && pool[1..][k] == r.value
                   && forall j :: 0 <= j < k ==> HasId(selected, pool[1..][j].recipe.id);
          assert pool[k + 1] == r.value;
          forall j | 0 <= j < k + 1 ensures HasId(selected, pool[j].recipe.id) {
            if j > 0 { assert pool[j] == pool[1..][j - 1]; }
          }
        }
      }
      r
  }

  /** The recipe chosen for the next slot: one of the first five valid candidates, picked by
      `choice`; when none is valid, the first unselected pool entry; failing that, the head of
      the fallback pool, or of the catalog when that is empty. */
  function PickForSlot(pool: seq<Scored>, fallbackPool: seq<Recipe>, catalog: seq<Recipe>,
                       selected: seq<Recipe>, counts: map<string, nat>, choice: nat): (r: Recipe)
    requires |catalog| > 0
    ensures |ValidCandidates(pool, selected, counts)| > 0 ==>
              !HasId(selected, r.id) && UnderTagCap(r, counts)
              && exists k :: 0 <= k < TOP_PICKS && k < |ValidCandidates(pool, selected, counts)|
                             && ValidCandidates(pool, selected, counts)[k].recipe == r
    ensures (exists c :: c in pool && !HasId(selected, c.recipe.id)) ==> !HasId(selected, r.id) && InPool(pool, r)
    ensures (|ValidCandidates(pool, selected, counts)| == 0 && exists c :: c in pool && !HasId(selected, c.recipe.id))
              ==> exists k :: 0 <= k < |pool| && pool[k].recipe == r
                             && forall j :: 0 <= j < k ==> HasId(selected, pool[j].recipe.id)
    ensures (|ValidCandidates(pool, selected, counts)| == 0 && forall c :: c in pool ==> HasId(selected, c.recipe.id))
              ==> r == if |fallbackPool| > 0 then fallbackPool[0] else catalog[0]
    ensures InPool(pool, r) || (|fallbackPool| > 0 && r == fallbackPool[0]) || (|fallbackPool| == 0 && r == catalog[0])
  {
    var valid := ValidCandidates(pool, selected, counts);
    if |valid| > 0 then
      var k := choice % Min(|valid|, TOP_PICKS);
      assert valid[k] in valid;
      valid[k].recipe
    else
      match FirstUnused(pool, selected)
      case Some(c) => c.recipe
      case None => if |fallbackPool| > 0 then fallbackPool[0] else catalog[0]
  }

  // ---------------------------------------------------------------- the loops

  /** The 14-slot selection loop; it stops at once when the pool is empty. */
  function SlotLoop(pool: seq<Scored>, fallbackPool: seq<Recipe>, catalog: seq<Recipe>, choices: seq<nat>,
                    selected: seq<Recipe>, counts: map<string, nat>): (r: seq<Recipe>)
    requires |catalog| > 0 && |selected| <= WEEKLY_PLAN_SLOTS
    requires forall c :: c in pool ==> c.recipe in fallbackPool
    ensures |pool| == 0 ==> r == selected
    ensures |pool| > 0 ==> |r| == WEEKLY_PLAN_SLOTS
    ensures |r| >= |selected|
    ensures forall i :: 0 <= i < |selected| ==> r[i] == selected[i]
    ensures forall i :: |selected| <= i < |r| ==> r[i] in fallbackPool
    decreases WEEKLY_PLAN_SLOTS - |selected|
  {
    if |selected| == WEEKLY_PLAN_SLOTS || |pool| == 0 then selected
    else
      var picked := PickForSlot(pool, fallbackPool, catalog, selected, counts, Choice(choices, |selected|));
      assert pool[0] in pool;
      assert picked in fallbackPool;
      var next := selected + [picked];
      var r := SlotLoop(pool, fallbackPool, catalog, choices, next, CountTags(counts, picked.tags));
      assert r[|selected|] == next[|selected|] == picked;
      r
  }

  /** The tag counts after counting the tags of every pick, in order. */
  function Tally(counts: map<string, nat>, picks: seq<Recipe>): (r: map<string, nat>)
    ensures forall t :: TagCount(r, t) >= TagCount(counts, t)
    ensures forall t :: !IsSignificantTag(t) ==> TagCount(r, t) == TagCount(counts, t)
    decreases |picks|
  {
    if |picks| == 0 then counts else Tally(CountTags(counts, picks[0].tags), picks[1..])
  }

  /** From position `lo` on, each element of `r` is the slot pick made against the elements
      before it, with `counts` plus the tags of the picks from `lo` up to it. */
  predicate PicksFrom(pool: seq<Scored>, fallbackPool: seq<Recipe>, catalog: seq<Recipe>, choices: seq<nat>,
                      r: seq<Recipe>, lo: nat, counts: map<string, nat>)
    requires |catalog| > 0
  {
    forall i :: lo <= i < |r| ==> PickAt(pool, fallbackPool, catalog, choices, r, lo, counts, i)
  }

  /** Element `i` of `r` is the slot pick made against the elements before it, with `counts`
      plus the tags of the picks from `lo` up to it. */
  predicate PickAt(pool: seq<Scored>, fallbackPool: seq<Recipe>, catalog: seq<Recipe>, choices: seq<nat>,
                   r: seq<Recipe>, lo: nat, counts: map<string, nat>, i: nat)
    requires |catalog| > 0 && lo <= i < |r|
  {
    r[i] == PickForSlot(pool, fallbackPool, catalog, r[..i], Tally(counts, r[lo..i]), Choice(choices, i))
  }

  /** The slot loop makes each pick against all the picks before it and their tag tally. */
  lemma {:induction false} SlotLoopPicks(pool: seq<Scored>, fallbackPool: seq<Recipe>, catalog: seq<Recipe>,
                                         choices: seq<nat>, selected: seq<Recipe>, counts: map<string, nat>)
    requires |catalog| > 0 && |selected| <= WEEKLY_PLAN_SLOTS
    requires forall c :: c in pool ==> c.recipe in fallbackPool
    ensures PicksFrom(pool, fallbackPool, catalog, choices, SlotLoop(pool, fallbackPool, catalog, choices, selected, counts),
                      |selected|, counts)
    decreases WEEKLY_PLAN_SLOTS - |selected|, 1
  {
    if |selected| < WEEKLY_PLAN_SLOTS && |pool| > 0 {
      SlotLoopPicksStep(pool, fallbackPool, catalog, choices, selected, counts);
    }
  }

  /** The inductive step of `SlotLoopPicks`: the rule for the loop's first pick joined to the
      rule for the rest of the loop. */
  lemma SlotLoopPicksStep(pool: seq<Scored>, fallbackPool: seq<Recipe>, catalog: seq<Recipe>,
                          choices: seq<nat>, selected: seq<Recipe>, counts: map<string, nat>)
    requires |catalog| > 0 && |selected| < WEEKLY_PLAN_SLOTS && |pool| > 0
    requires forall c :: c in pool ==> c.recipe in fallbackPool
    ensures PicksFrom(pool, fallbackPool, catalog, choices, SlotLoop(pool, fallbackPool, catalog, choices, selected, counts),
                      |selected|, counts)
    decreases WEEKLY_PLAN_SLOTS - |selected|, 0
  {
    var r := SlotLoop(pool, fallbackPool, catalog, choices, selected, counts);
    SlotLoopUnfold(pool, fallbackPool, catalog, choices, selected, counts);
    var p := r[|selected|];
    SlotLoopPicks(pool, fallbackPool, catalog, choices, selected + [p], CountTags(counts, p.tags));
    PicksShift(pool, fallbackPool, catalog, choices, r, |selected|, counts);
  }

  /** Picks from `lo` on follow from the pick at `lo` and the picks from `lo + 1` on, made
      with the pick at `lo`'s tags counted. */
  lemma PicksShift(pool: seq<Scored>, fallbackPool: seq<Recipe>, catalog: seq<Recipe>, choices: seq<nat>,
                   r: seq<Recipe>, lo: nat, counts: map<string, nat>)
    requires |catalog| > 0 && lo < |r|
    requires r[lo] == PickForSlot(pool, fallbackPool, catalog, r[..lo], counts, Choice(choices, lo))
    requires PicksFrom(pool, fallbackPool, catalog, choices, r, lo + 1, CountTags(counts, r[lo].tags))
    ensures PicksFrom(pool, fallbackPool, catalog, choices, r, lo, counts)
  {
    forall i | lo <= i < |r| ensures PickAt(pool, fallbackPool, catalog, choices, r, lo, counts, i) {
      if i > lo {
        assert PickAt(pool, fallbackPool, catalog, choices, r, lo + 1, CountTags(counts, r[lo].tags), i);
        TallyStep(counts, r, lo, i);
      } else {
        assert r[lo..i] == [];
      }
    }
  }

  /** One turn of the slot loop: the pick for the next slot, then the loop on the rest. */
  lemma SlotLoopUnfold(pool: seq<Scored>, fallbackPool: seq<Recipe>, catalog: seq<Recipe>,
                       choices: seq<nat>, selected: seq<Recipe>, counts: map<string, nat>)
    requires |catalog| > 0 && |selected| < WEEKLY_PLAN_SLOTS && |pool| > 0
    requires forall c :: c in pool ==> c.recipe in fallbackPool
    ensures var r := SlotLoop(pool, fallbackPool, catalog, choices, selected, counts);
            && |r| > |selected| && r[..|selected|] == selected
            && r[|selected|] == PickForSlot(pool, fallbackPool, catalog, selected, counts, Choice(choices, |selected|))
            && r == SlotLoop(pool, fallbackPool, catalog, choices, selected + [r[|selected|]], CountTags(counts, r[|selected|].tags))
  {
    var picked := PickForSlot(pool, fallbackPool, catalog, selected, counts, Choice(choices, |selected|));
    var r := SlotLoop(pool, fallbackPool, catalog, choices, selected, counts);
    assert pool[0] in pool;
    assert r[|selected|] == (selected + [picked])[|selected|];
  }

  /** Tallying from position `lo` is tallying the pick at `lo` first, then the rest. */
  lemma TallyStep(counts: map<string, nat>, r: seq<Recipe>, lo: nat, i: nat)
    requires lo < i <= |r|
    ensures Tally(counts, r[lo..i]) == Tally(CountTags(counts, r[lo].tags), r[lo + 1..i])
  {
    var w := r[lo..i];
    assert w[0] == r[lo];
    assert w[1..] == r[lo + 1..i];
  }

  /** Pick `i` of `r` obeys the slot rule against the picks before it and the tag counts
      `counts`: when some pool entry is valid, the pick is not yet selected, under the tag cap
      and one of the first five valid entries. */
  predicate FollowsSlotRule(pool: seq<Scored>, r: seq<Recipe>, i: nat, counts: map<string, nat>)
    requires i < |r|
  {
    var valid := ValidCandidates(pool, r[..i], counts);
    |valid| > 0 ==> !HasId(r[..i], r[i].id) && UnderTagCap(r[i], counts)
                    && exists k :: 0 <= k < TOP_PICKS && k < |valid| && valid[k].recipe == r[i]
  }

  /** Every pick of the slot loop obeys the slot rule, judged against the tag counts of all
      the picks made before it: no repeated recipe, no significant tag past the cap, and a
      choice among the top five valid entries. */
  lemma SlotLoopFollowsRule(pool: seq<Scored>, fallbackPool: seq<Recipe>, catalog: seq<Recipe>,
                            choices: seq<nat>, selected: seq<Recipe>, counts: map<string, nat>)
    requires |catalog| > 0 && |selected| <= WEEKLY_PLAN_SLOTS
    requires forall c :: c in pool ==> c.recipe in fallbackPool
    ensures var r := SlotLoop(pool, fallbackPool, catalog, choices, selected, counts);
            forall i :: |selected| <= i < |r| ==> FollowsSlotRule(pool, r, i, Tally(counts, r[|selected|..i]))
  {
    var r := SlotLoop(pool, fallbackPool, catalog, choices, selected, counts);
    SlotLoopPicks(pool, fallbackPool, catalog, choices, selected, counts);
    forall i | |selected| <= i < |r| ensures FollowsSlotRule(pool, r, i, Tally(counts, r[|selected|..i])) {
      assert PickAt(pool, fallbackPool, catalog, choices, r, |selected|, counts, i);
    }
  }

  /** Tops the selection up to 14 with random draws from the fallback pool (or the catalog). */
  function FillRemaining(selected: seq<Recipe>, fallbackPool: seq<Recipe>, catalog: seq<Recipe>, choices: seq<nat>): (r: seq<Recipe>)
    requires |catalog| > 0 && |selected| <= WEEKLY_PLAN_SLOTS
    ensures |r| == WEEKLY_PLAN_SLOTS
    ensures forall i :: 0 <= i < |selected| ==> r[i] == selected[i]
    ensures forall i :: |selected| <= i < |r| ==> r[i] in Drawable(fallbackPool, catalog)
    decreases WEEKLY_PLAN_SLOTS - |selected|
  {
    if |selected| == WEEKLY_PLAN_SLOTS then selected
    else
      var c := Choice(choices, |selected|);
      var drawn := if |fallbackPool| > 0 then fallbackPool[c % |fallbackPool|] else catalog[c % |catalog|];
      assert drawn in Drawable(fallbackPool, catalog);
      var next := selected + [drawn];
      var r := FillRemaining(next, fallbackPool, catalog, choices);
      assert r[|selected|] == next[|selected|] == drawn;
      r
  }

  /** Where the filler draws from: the fallback pool, or the whole catalog when that is empty. */
  function Drawable(fallbackPool: seq<Recipe>, catalog: seq<Recipe>): seq<Recipe>
  {
    if |fallbackPool| > 0 then fallbackPool else catalog
  }

  /** The selection loop followed by the filler, on a given pool and fallback pool. */
  function Select(pool: seq<Scored>, fallbackPool: seq<Recipe>, catalog: seq<Recipe>, choices: seq<nat>): (r: seq<Recipe>)
    requires |catalog| > 0
    requires forall c :: c in pool ==> c.recipe in fallbackPool
    ensures |r| == WEEKLY_PLAN_SLOTS
    ensures forall i :: 0 <= i < |r| ==> r[i] in Drawable(fallbackPool, catalog)
    ensures |pool| >= WEEKLY_PLAN_SLOTS ==> r == SlotLoop(pool, fallbackPool, catalog, choices, [], map[])
  {
    var picked := SlotLoop(pool, fallbackPool, catalog, choices, [], map[]);
    assert forall i :: 0 <= i < |picked| ==> picked[i] in Drawable(fallbackPool, catalog) by {
      if |pool| > 0 {
        assert pool[0] in pool;
      }
    }
    var r := FillRemaining(picked, fallbackPool, catalog, choices);
    assert |pool| >= WEEKLY_PLAN_SLOTS ==> r == picked;
    r
  }

  /** Every pool recipe is in the fallback pool. */
  lemma PoolInFallback(catalog: seq<Recipe>, fridge: seq<string>, prefs: Option<UserPreferences>,
                       disliked: seq<Recipe>, liked: seq<Recipe>)
    ensures forall c :: c in Pool(catalog, fridge, prefs, disliked, liked) ==>
              c.recipe in FallbackPool(catalog, Allergies(prefs), DislikedFoods(prefs), disliked)
  {
    var pool := Pool(catalog, fridge, prefs, disliked, liked);
    if |pool| > 0 {
      assert pool[0] in pool;
    }
  }

  /** The 14 recipes chosen, before the reason label is attached; each is drawn from the
      fallback pool, or from the catalog when that is empty. */
  function SelectRecipes(catalog: seq<Recipe>, fridge: seq<string>, prefs: Option<UserPreferences>,
                         disliked: seq<Recipe>, liked: seq<Recipe>, choices: seq<nat>): (r: seq<Recipe>)
    requires |catalog| > 0
    ensures |r| == WEEKLY_PLAN_SLOTS
    ensures forall i :: 0 <= i < |r| ==>
              r[i] in Drawable(FallbackPool(catalog, Allergies(prefs), DislikedFoods(prefs), disliked), catalog)
  {
    PoolInFallback(catalog, fridge, prefs, disliked, liked);
    Select(Pool(catalog, fridge, prefs, disliked, liked),
           FallbackPool(catalog, Allergies(prefs), DislikedFoods(prefs), disliked), catalog, choices)
  }

  /** What a draw guarantees: a catalog recipe; allergen-free whenever the catalog has an
      allergen-free recipe; safe whenever anything is safe. */
  lemma DrawnIsSafe(catalog: seq<Recipe>, allergens: seq<string>, dislikedFoods: seq<string>,
                    disliked: seq<Recipe>, x: Recipe)
    requires x in Drawable(FallbackPool(catalog, allergens, dislikedFoods, disliked), catalog)
    ensures x in catalog
    ensures (exists c :: c in catalog && !UsesAny(c, allergens)) ==> !UsesAny(x, allergens)
    ensures |SafePool(catalog, allergens, dislikedFoods, disliked)| > 0 ==> IsSafe(x, allergens, dislikedFoods, disliked)
  {
  }

  // ---------------------------------------------------------- distinct ids

  function Recipes(pool: seq<Scored>): (rs: seq<Recipe>)
    ensures |rs| == |pool|
    ensures forall i :: 0 <= i < |pool| ==> rs[i] == pool[i].recipe
  {
    seq(|pool|, i requires 0 <= i < |pool| => pool[i].recipe)
  }

  /** With a catalog of distinct ids, the pool's recipes have distinct ids. */
  lemma PoolDistinct(catalog: seq<Recipe>, fridge: seq<string>, prefs: Option<UserPreferences>,
                     disliked: seq<Recipe>, liked: seq<Recipe>)
    requires DistinctIds(catalog)
    ensures DistinctIds(Recipes(Pool(catalog, fridge, prefs, disliked, liked)))
  {
    var scored := ScoredCandidates(catalog, fridge, prefs, disliked, liked);
    var sorted := SortDesc(scored, ByScore());
    var pool := Pool(catalog, fridge, prefs, disliked, liked);
    ScoredNoDup(catalog, fridge, prefs, disliked, liked);
    NoDupPermutation(scored, sorted);
    assert pool == sorted[..|pool|];
    assert forall c :: c in pool ==> c.recipe in catalog;
    DistinctPrefixIds(sorted, |pool|, catalog);
  }

  /** Scored entries of a catalog with distinct ids are pairwise different. */
  lemma ScoredNoDup(catalog: seq<Recipe>, fridge: seq<string>, prefs: Option<UserPreferences>,
                    disliked: seq<Recipe>, liked: seq<Recipe>)
    requires DistinctIds(catalog)
    ensures NoDup(ScoredCandidates(catalog, fridge, prefs, disliked, liked))
  {
    var safe := SafePool(catalog, Allergies(prefs), DislikedFoods(prefs), disliked);
    var scored := ScoredCandidates(catalog, fridge, prefs, disliked, liked);
    DistinctIdsNoDup(catalog);
    NoDupFilter(catalog, r => IsSafe(r, Allergies(prefs), DislikedFoods(prefs), disliked));
    forall i, j | 0 <= i < j < |scored| ensures scored[i] != scored[j] {
      assert scored[i].recipe == safe[i] && scored[j].recipe == safe[j];
    }
  }

  /** A prefix of duplicate-free entries whose recipes come from a catalog with distinct ids
      has distinct recipe ids. */
  lemma DistinctPrefixIds(sorted: seq<Scored>, k: nat, catalog: seq<Recipe>)
    requires k <= |sorted| && NoDup(sorted) && DistinctIds(catalog)
    requires forall c :: c in sorted[..k] ==> c.recipe in catalog
    requires forall c, d :: c in sorted[..k] && d in sorted[..k] && c.recipe == d.recipe ==> c.score == d.score
    ensures DistinctIds(Recipes(sorted[..k]))
  {
    var pool := sorted[..k];
    forall i, j | 0 <= i < j < |pool| ensures pool[i].recipe.id != pool[j].recipe.id {
      assert pool[i] != pool[j];
      assert pool[i] in pool && pool[j] in pool;
      if pool[i].recipe.id == pool[j].recipe.id {
        SameIdSameRecipe(catalog, pool[i].recipe, pool[j].recipe);
        assert false;
      }
    }
  }

  /** With at least 14 distinct pool recipes, the selection loop never repeats an id: some
      pool recipe is always unselected, so each pick is a fresh one. */
  lemma {:induction false} SlotLoopDistinct(pool: seq<Scored>, fallbackPool: seq<Recipe>, catalog: seq<Recipe>,
                                             choices: seq<nat>, selected: seq<Recipe>, counts: map<string, nat>)
    requires |catalog| > 0 && |selected| <= WEEKLY_PLAN_SLOTS
    requires forall c :: c in pool ==> c.recipe in fallbackPool
    requires DistinctIds(Recipes(pool)) && |pool| >= WEEKLY_PLAN_SLOTS
    requires DistinctIds(selected)
    ensures DistinctIds(SlotLoop(pool, fallbackPool, catalog, choices, selected, counts))
    decreases WEEKLY_PLAN_SLOTS - |selected|
  {
    if |selected| < WEEKLY_PLAN_SLOTS {
      var picked := PickForSlot(pool, fallbackPool, catalog, selected, counts, Choice(choices, |selected|));
      SomeUnused(pool, selected);
      AppendFresh(selected, picked);
      SlotLoopDistinct(pool, fallbackPool, catalog, choices, selected + [picked], CountTags(counts, picked.tags));
    }
  }

  /** More distinct pool recipes than selected ones leaves a pool recipe unselected. */
  lemma SomeUnused(pool: seq<Scored>, selected: seq<Recipe>)
    requires DistinctIds(Recipes(pool)) && |pool| > |selected|
    ensures exists c :: c in pool && !HasId(selected, c.recipe.id)
  {
    var rs := Recipes(pool);
    var ids := Ids(rs);
    var sids := Ids(selected);
    DistinctIdsMeansNoDup(rs);
    Pigeonhole(ids, sids);
    var id :| id in ids && id !in sids;
    var k :| 0 <= k < |ids| && ids[k] == id;
    assert pool[k].recipe.id == id by {
      assert rs[k] == pool[k].recipe;
    }
    forall j | 0 <= j < |selected| ensures selected[j].id != id {
      assert sids[j] == selected[j].id;
    }
    assert pool[k] in pool;
  }


  /** Appending a recipe with a fresh id keeps ids distinct. */
  lemma AppendFresh(selected: seq<Recipe>, x: Recipe)
    requires DistinctIds(selected) && !HasId(selected, x.id)
    ensures DistinctIds(selected + [x])
  {
  }

  /** When the catalog's ids are distinct and at least 14 recipes are safe, the 14 selected
      recipes have distinct ids. */
  lemma SelectRecipesDistinct(catalog: seq<Recipe>, fridge: seq<string>, prefs: Option<UserPreferences>,
                              disliked: seq<Recipe>, liked: seq<Recipe>, choices: seq<nat>)
    requires |catalog| > 0 && DistinctIds(catalog)
    requires |SafePool(catalog, Allergies(prefs), DislikedFoods(prefs), disliked)| >= WEEKLY_PLAN_SLOTS
    ensures DistinctIds(SelectRecipes(catalog, fridge, prefs, disliked, liked, choices))
  {
    var fallback := FallbackPool(catalog, Allergies(prefs), DislikedFoods(prefs), disliked);
    var pool := Pool(catalog, fridge, prefs, disliked, liked);
    PoolInFallback(catalog, fridge, prefs, disliked, liked);
    PoolDistinct(catalog, fridge, prefs, disliked, liked);
    SlotLoopDistinct(pool, fallback, catalog, choices, [], map[]);
  }

  // ---------------------------------------------------------------- reasons

  /** The source's `{...r, reason}`: the selection with the reason label attached. */
  function AttachReasons(selected: seq<Recipe>, liked: seq<Recipe>): (r: seq<Recipe>)
    ensures |r| == |selected|
    ensures forall i :: 0 <= i < |r| ==> r[i].(reason := selected[i].reason) == selected[i]
    ensures forall i :: 0 <= i < |r| ==> (r[i].reason == Some(LIKED_REASON) <==> HasId(liked, r[i].id))
    ensures forall i :: 0 <= i < |r| ==> (r[i].reason == Some(MATCH_REASON) <==> !HasId(liked, r[i].id))
  {
    seq(|selected|, i requires 0 <= i < |selected| =>
      selected[i].(reason := Some(if HasId(liked, selected[i].id) then LIKED_REASON else MATCH_REASON)))
  }

  /** `x` is a catalog recipe, up to its reason label. */
  predicate FromCatalog(x: Recipe, catalog: seq<Recipe>)
  {
    exists c :: c in catalog && x == c.(reason := x.reason)
  }

  /** The weekly plan: always 14 catalog recipes; allergen-free whenever the catalog allows;
      free of disliked foods and disliked recipes whenever the safe pool is non-empty; with
      distinct ids when the catalog's ids are distinct and at least 14 recipes are safe; each
      labelled as a liked pick exactly when its id is liked. `catalog` stands for the built-in
      recipe list, which is never empty. */
  function GenerateScoredWeeklyPlan(catalog: seq<Recipe>, fridge: seq<string>, prefs: Option<UserPreferences>,
                                    disliked: seq<Recipe>, liked: seq<Recipe>, choices: seq<nat>): (r: seq<Recipe>)
    requires |catalog| > 0
    ensures |r| == WEEKLY_PLAN_SLOTS
    ensures forall i :: 0 <= i < |r| ==> FromCatalog(r[i], catalog)
    ensures (exists c :: c in catalog && !UsesAny(c, Allergies(prefs))) ==>
              forall i :: 0 <= i < |r| ==> !UsesAny(r[i], Allergies(prefs))
    ensures |SafePool(catalog, Allergies(prefs), DislikedFoods(prefs), disliked)| > 0 ==>
              forall i :: 0 <= i < |r| ==> IsSafe(r[i], Allergies(prefs), DislikedFoods(prefs), disliked)
    ensures (DistinctIds(catalog) && |SafePool(catalog, Allergies(prefs), DislikedFoods(prefs), disliked)| >= WEEKLY_PLAN_SLOTS)
              ==> DistinctIds(r)
    ensures forall i :: 0 <= i < |r| ==> (r[i].reason == Some(LIKED_REASON) <==> HasId(liked, r[i].id))
    ensures forall i :: 0 <= i < |r| ==> (r[i].reason == Some(MATCH_REASON) <==> !HasId(liked, r[i].id))
  {
    var selected := SelectRecipes(catalog, fridge, prefs, disliked, liked, choices);
    LabelledAreSafe(catalog, Allergies(prefs), DislikedFoods(prefs), disliked, selected, liked);
    if DistinctIds(catalog) && |SafePool(catalog, Allergies(prefs), DislikedFoods(prefs), disliked)| >= WEEKLY_PLAN_SLOTS then
      SelectRecipesDistinct(catalog, fridge, prefs, disliked, liked, choices);
      AttachReasons(selected, liked)
    else
      AttachReasons(selected, liked)
  }

  /** Attaching labels to drawn recipes keeps them catalog recipes, keeps their safety and
      keeps their ids. */
  lemma LabelledAreSafe(catalog: seq<Recipe>, allergens: seq<string>, dislikedFoods: seq<string>,
                        disliked: seq<Recipe>, selected: seq<Recipe>, liked: seq<Recipe>)
    requires forall i :: 0 <= i < |selected| ==>
               selected[i] in Drawable(FallbackPool(catalog, allergens, dislikedFoods, disliked), catalog)
    ensures forall i :: 0 <= i < |selected| ==> FromCatalog(AttachReasons(selected, liked)[i], catalog)
    ensures (exists c :: c in catalog && !UsesAny(c, allergens)) ==>
              forall i :: 0 <= i < |selected| ==> !UsesAny(AttachReasons(selected, liked)[i], allergens)
    ensures |SafePool(catalog, allergens, dislikedFoods, disliked)| > 0 ==>
              forall i :: 0 <= i < |selected| ==> IsSafe(AttachReasons(selected, liked)[i], allergens, dislikedFoods, disliked)
    ensures DistinctIds(selected) ==> DistinctIds(AttachReasons(selected, liked))
  {
    var r := AttachReasons(selected, liked);
    forall i | 0 <= i < |selected|
      ensures FromCatalog(r[i], catalog)
      ensures r[i].ingredients == selected[i].ingredients && r[i].id == selected[i].id
    {
      DrawnIsSafe(catalog, allergens, dislikedFoods, disliked, selected[i]);
      assert r[i] == selected[i].(reason := r[i].reason);
    }
    forall i | 0 <= i < |selected|
      ensures (exists c :: c in catalog && !UsesAny(c, allergens)) ==> !UsesAny(r[i], allergens)
      ensures |SafePool(catalog, allergens, dislikedFoods, disliked)| > 0 ==> IsSafe(r[i], allergens, dislikedFoods, disliked)
    {
      DrawnIsSafe(catalog, allergens, dislikedFoods, disliked, selected[i]);
    }
  }
}
