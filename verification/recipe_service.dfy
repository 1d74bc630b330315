/** Chain-cooking helpers, the shopping-list aggregator and the legacy plan filler
    (services/recipeService.ts). The scored weekly planner is in module ScoredPlan. */
module RecipeService {
  import opened Seqs
  import opened Types
  import opened Constants
  import opened Sorting

  /** The ingredients of a list that are not staples, in order. */
  function NonStaples(ingredients: seq<string>): (r: seq<string>)
    ensures forall x :: x in r <==> x in ingredients && !IsStaple(x)
    ensures IsSubsequence(r, ingredients)
  {
    Filter(ingredients, x => !IsStaple(x))
  }

  // ------------------------------------------------------------ chain cooking

  /** Ingredients of `a` that also occur in `b` and are not staples, in `a`'s order. */
  function SharedIngredients(a: Recipe, b: Recipe): (r: seq<string>)
    ensures forall x :: x in r <==> x in a.ingredients && x in b.ingredients && !IsStaple(x)
    ensures forall x :: x in r ==> multiset(r)[x] == multiset(a.ingredients)[x]
    ensures IsSubsequence(r, a.ingredients)
  {
    Filter(a.ingredients, x => x in b.ingredients && !IsStaple(x))
  }

  function SharedCount(a: Recipe, b: Recipe): nat
  {
    |SharedIngredients(a, b)|
  }

  /** Candidates are ranked by the number of ingredients they share with `prev`. */
  function ChainKey(prev: Recipe): Recipe -> real
  {
    c => SharedCount(prev, c) as real
  }

  /** Number of the recipe's ingredients present in the fridge. */
  function CalculateChainScore(current: Recipe, fridge: seq<string>): (n: nat)
    ensures n == CountIn(current.ingredients, fridge)
    ensures n <= |current.ingredients|
    ensures n == |current.ingredients| <==> forall x :: x in current.ingredients ==> x in fridge
    ensures n == 0 <==> forall x :: x in current.ingredients ==> x !in fridge
  {
    var hits := Filter(current.ingredients, x => x in fridge);
    FilterKeepsAll(current.ingredients, x => x in fridge);
    FridgeHitsAreCounted(current.ingredients, fridge);
    assert |hits| > 0 ==> hits[0] in hits;
    |hits|
  }

  /** Reference count: the ingredient positions whose name is in the fridge, duplicates
      counted once per position. */
  function CountIn(ingredients: seq<string>, fridge: seq<string>): nat
  {
    if |ingredients| == 0 then 0
    else (if ingredients[0] in fridge then 1 else 0) + CountIn(ingredients[1..], fridge)
  }

  /** Filtering by fridge membership keeps exactly `CountIn` many ingredients. */
  lemma {:induction false} FridgeHitsAreCounted(ingredients: seq<string>, fridge: seq<string>)
    ensures |Filter(ingredients, x => x in fridge)| == CountIn(ingredients, fridge)
  {
    if |ingredients| > 0 {
      FridgeHitsAreCounted(ingredients[1..], fridge);
    }
  }

  /** The best-chaining successor of `prev`: none when no candidate shares a non-staple
      ingredient with it, otherwise one of the candidates sharing the most, chosen by `choice`
      among the tied ones. */
  function SuggestNextMeal(prev: Recipe, candidates: seq<Recipe>, choice: nat): (r: Option<Recipe>)
    ensures r.None? <==> forall c :: c in candidates ==> SharedCount(prev, c) == 0
    ensures r.Some? ==> r.value in candidates
    ensures r.Some? ==> forall c :: c in candidates ==> SharedCount(prev, c) <= SharedCount(prev, r.value)
  {
    var key := ChainKey(prev);
    var scored := SortDesc(candidates, key);
    // `scored[0]?.score || 0`: an empty list has top score 0
    if |scored| == 0 then None
    else
      SortedHeadIsMax(candidates, key);
      assert scored[0] in candidates;
      var topScore := SharedCount(prev, scored[0]);
      if topScore == 0 then None
      else
        var top := WithKey(scored, key, topScore as real);
        assert scored[0] in top;
        Some(top[choice % |top|])
  }

  /** Every candidate with the highest positive shared count can be the suggestion. */
  lemma SuggestNextMealReachesEveryBest(prev: Recipe, candidates: seq<Recipe>, c: Recipe)
    requires c in candidates && SharedCount(prev, c) > 0
    requires forall d :: d in candidates ==> SharedCount(prev, d) <= SharedCount(prev, c)
    ensures exists k: nat :: SuggestNextMeal(prev, candidates, k) == Some(c)
  {
    var key := ChainKey(prev);
    var scored := SortDesc(candidates, key);
    TopScoreOfBest(prev, candidates, c);
    var top := WithKey(scored, key, SharedCount(prev, c) as real);
    assert c in top;
    var k :| 0 <= k < |top| && top[k] == c;
    ModOfSmaller(k, |top|);
    assert SuggestNextMeal(prev, candidates, k) == Some(c);
  }

  /** A best candidate's shared count is the top of the sorted candidates. */
  lemma TopScoreOfBest(prev: Recipe, candidates: seq<Recipe>, c: Recipe)
    requires c in candidates
    requires forall d :: d in candidates ==> SharedCount(prev, d) <= SharedCount(prev, c)
    ensures |SortDesc(candidates, ChainKey(prev))| > 0
    ensures SharedCount(prev, SortDesc(candidates, ChainKey(prev))[0]) == SharedCount(prev, c)
  {
    var scored := SortDesc(candidates, ChainKey(prev));
    SortedHeadIsMax(candidates, ChainKey(prev));
    assert scored[0] in candidates;
  }

  // ------------------------------------------------------ alternative recipes

  /** The id the paired slot blocks: its recipe's id, or -1 when the slot is empty. */
  function OtherSlotId(other: Option<Recipe>): int
  {
    if other.Some? then other.value.id else -1
  }

  /** A recipe may replace the current one: it is not the current recipe, not disliked,
      and not the recipe of the paired slot. */
  predicate IsAlternative(r: Recipe, currentId: Option<int>, otherId: int, dislikedIds: seq<int>)
  {
    (currentId.None? || r.id != currentId.value) && r.id !in dislikedIds && r.id != otherId
  }

  /** Up to three replacement candidates for one slot: ranked by shared ingredients with the
      previous recipe when there is one, otherwise in the shuffled order given by `choices`. */
  function GetAlternativeRecipes(currentId: Option<int>, prev: Option<Recipe>, other: Option<Recipe>,
                                 all: seq<Recipe>, disliked: seq<Recipe>, choices: seq<nat>): (r: seq<Recipe>)
    ensures |r| <= 3
    ensures multiset(r) <= multiset(all)
    ensures forall x :: x in r ==> IsAlternative(x, currentId, OtherSlotId(other), Ids(disliked))
    ensures |r| < 3 ==> forall x :: x in all && IsAlternative(x, currentId, OtherSlotId(other), Ids(disliked)) ==> x in r
    ensures prev.Some? ==> SortedDesc(r, ChainKey(prev.value))
    ensures prev.Some? ==>
              forall x, y :: x in all && IsAlternative(x, currentId, OtherSlotId(other), Ids(disliked)) && x !in r && y in r
                ==> SharedCount(prev.value, y) >= SharedCount(prev.value, x)
  {
    var candidates := AlternativeCandidates(all, currentId, OtherSlotId(other), Ids(disliked));
    var ordered := OrderAlternatives(candidates, prev, choices);
    var k := Min(3, |ordered|);
    PrefixIncluded(ordered, k);
    if prev.Some? then
      SortedPrefix(ordered, ChainKey(prev.value), k);
      AlternativesAreTop(candidates, prev.value, k);
      ordered[..k]
    else
      ordered[..k]
  }

  /** The recipes eligible as replacements, in catalog order. */
  function AlternativeCandidates(all: seq<Recipe>, currentId: Option<int>, otherId: int, dislikedIds: seq<int>): (c: seq<Recipe>)
    ensures multiset(c) <= multiset(all)
    ensures forall x :: x in c <==> x in all && IsAlternative(x, currentId, otherId, dislikedIds)
  {
    Filter(all, x => IsAlternative(x, currentId, otherId, dislikedIds))
  }

  /** Candidates ranked by chaining with the previous recipe, or shuffled when there is none. */
  function OrderAlternatives(candidates: seq<Recipe>, prev: Option<Recipe>, choices: seq<nat>): (o: seq<Recipe>)
    ensures multiset(o) == multiset(candidates)
    ensures forall x :: x in o <==> x in candidates
    ensures prev.Some? ==> o == SortDesc(candidates, ChainKey(prev.value))
  {
    if prev.Some? then SortDesc(candidates, ChainKey(prev.value))
    else
      var o := Shuffle(candidates, choices);
      assert forall x :: x in o <==> x in multiset(o);
      o
  }

  lemma AlternativesAreTop(candidates: seq<Recipe>, prev: Recipe, k: nat)
    requires k <= |candidates|
    ensures forall x, y :: x in candidates && x !in SortDesc(candidates, ChainKey(prev))[..k] && y in SortDesc(candidates, ChainKey(prev))[..k]
              ==> SharedCount(prev, y) >= SharedCount(prev, x)
  {
    forall x, y | x in candidates && x !in SortDesc(candidates, ChainKey(prev))[..k] && y in SortDesc(candidates, ChainKey(prev))[..k]
      ensures SharedCount(prev, y) >= SharedCount(prev, x)
    {
      TopOfSorted(candidates, ChainKey(prev), k, x, y);
    }
  }

  // ------------------------------------------------------------ shopping list

  datatype ShoppingItem = ShoppingItem(name: string, count: nat)

  /** Occurrences of `x` across the ingredient lists of the planned recipes. */
  function Occurrences(planned: seq<Recipe>, x: string): nat
  {
    if |planned| == 0 then 0
    else Occurrences(planned[..|planned| - 1], x) + multiset(planned[|planned| - 1].ingredients)[x]
  }

  lemma {:induction false} OccurrencesPositive(planned: seq<Recipe>, r: Recipe, x: string)
    requires r in planned && x in r.ingredients
    ensures Occurrences(planned, x) >= 1
  {
    var last := planned[|planned| - 1];
    if r != last {
      var i :| 0 <= i < |planned| && planned[i] == r;
      assert planned[..|planned| - 1][i] == r;
      OccurrencesPositive(planned[..|planned| - 1], r, x);
    }
  }

  /** The ingredients still to buy for the planned recipes: each non-staple ingredient not in
      the fridge, once, with the number of times the plan uses it. */
  method GenerateShoppingList(planned: seq<Recipe>, fridge: seq<string>) returns (list: seq<ShoppingItem>)
    ensures forall i :: 0 <= i < |list| ==> !IsStaple(list[i].name) && list[i].name !in fridge
    ensures forall i :: 0 <= i < |list| ==> list[i].count == Occurrences(planned, list[i].name) >= 1
    ensures forall i, j :: 0 <= i < j < |list| ==> list[i].name != list[j].name
    ensures forall r, x :: r in planned && x in r.ingredients && !IsStaple(x) && x !in fridge
              ==> exists i :: 0 <= i < |list| && list[i].name == x
  {
    var all := CollectNonStaples(planned);
    list := TallyMissing(all, fridge);
    forall r, x | r in planned && x in r.ingredients && !IsStaple(x) && x !in fridge
      ensures exists i :: 0 <= i < |list| && list[i].name == x
    {
      OccurrencesPositive(planned, r, x);
      assert x in all;
    }
  }

  /** The non-staple ingredients of every planned recipe, in plan order. */
  method CollectNonStaples(planned: seq<Recipe>) returns (all: seq<string>)
    ensures forall x :: x in all ==> !IsStaple(x)
    ensures forall x :: !IsStaple(x) ==> multiset(all)[x] == Occurrences(planned, x)
  {
    all := [];
    var i := 0;
    while i < |planned|
      invariant 0 <= i <= |planned|
      invariant forall x :: x in all ==> !IsStaple(x)
      invariant forall x :: !IsStaple(x) ==> multiset(all)[x] == Occurrences(planned[..i], x)
    {
      assert planned[..i + 1][..i] == planned[..i];
      all := AppendNonStaples(all, planned[i].ingredients);
      i := i + 1;
    }
    assert planned[..i] == planned;
  }

  /** `all` followed by the non-staple ingredients of one recipe, in order. */
  method AppendNonStaples(all: seq<string>, ingredients: seq<string>) returns (all': seq<string>)
    requires forall x :: x in all ==> !IsStaple(x)
    ensures forall x :: x in all' ==> !IsStaple(x)
    ensures forall x :: !IsStaple(x) ==> multiset(all')[x] == multiset(all)[x] + multiset(ingredients)[x]
  {
    all' := all;
    var j := 0;
    while j < |ingredients|
      invariant 0 <= j <= |ingredients|
      invariant forall x :: x in all' ==> !IsStaple(x)
      invariant forall x :: !IsStaple(x) ==> multiset(all')[x] == multiset(all)[x] + multiset(ingredients[..j])[x]
    {
      assert ingredients[..j + 1] == ingredients[..j] + [ingredients[j]];
      if !IsStaple(ingredients[j]) {
        all' := all' + [ingredients[j]];
      }
      j := j + 1;
    }
    assert ingredients[..j] == ingredients;
  }

  /** The first pass of `TallyMissing`: the distinct ingredients of `all` not in the fridge,
      each with its number of occurrences. */
  method CountMissing(all: seq<string>, fridge: seq<string>) returns (names: seq<string>, counts: map<string, nat>)
    ensures forall x :: x in counts <==> x in names
    ensures forall a, b :: 0 <= a < b < |names| ==> names[a] != names[b]
    ensures forall x :: x in counts ==> x !in fridge && counts[x] == multiset(all)[x] >= 1
    ensures forall x :: x in all && x !in fridge ==> x in counts
  {
    names, counts := [], map[];
    var k := 0;
    while k < |all|
      invariant 0 <= k <= |all|
      invariant forall x :: x in counts <==> x in names
      invariant forall a, b :: 0 <= a < b < |names| ==> names[a] != names[b]
      invariant forall x :: x in counts ==> x !in fridge && counts[x] == multiset(all[..k])[x] >= 1
      invariant forall x :: x in all[..k] && x !in fridge ==> x in counts
    {
      var ing := all[k];
      assert all[..k + 1] == all[..k] + [ing];
      assert forall x :: multiset(all[..k + 1])[x] == multiset(all[..k])[x] + if x == ing then 1 else 0;
      if ing !in fridge {
        if ing in counts {
          counts := counts[ing := counts[ing] + 1];
        } else {
          counts := counts[ing := 1];
          names := names + [ing];
        }
      }
      k := k + 1;
    }
    assert all[..k] == all;
  }

  /** Counts the ingredients of `all` that are not in the fridge: one item per distinct
      ingredient, carrying its number of occurrences. */
  method TallyMissing(all: seq<string>, fridge: seq<string>) returns (list: seq<ShoppingItem>)
    ensures forall i :: 0 <= i < |list| ==> list[i].name !in fridge && list[i].name in all
    ensures forall i :: 0 <= i < |list| ==> list[i].count == multiset(all)[list[i].name] >= 1
    ensures forall i, j :: 0 <= i < j < |list| ==> list[i].name != list[j].name
    ensures forall x :: x in all && x !in fridge ==> exists i :: 0 <= i < |list| && list[i].name == x
  {
    var names, counts := CountMissing(all, fridge);
    list := [];
    var n := 0;
    while n < |names|
      invariant 0 <= n <= |names|
      invariant |list| == n
      invariant forall a :: 0 <= a < n ==> list[a] == ShoppingItem(names[a], counts[names[a]])
    {
      list := list + [ShoppingItem(names[n], counts[names[n]])];
      n := n + 1;
    }
    forall x | x in all && x !in fridge
      ensures exists i :: 0 <= i < |list| && list[i].name == x
    {
      var a :| 0 <= a < |names| && names[a] == x;
      assert list[a].name == x;
    }
  }

  // ---------------------------------------------------- legacy random planner

  /** The recipes of `rs` whose id is not disliked. */
  function WithoutDisliked(rs: seq<Recipe>, disliked: seq<Recipe>): (r: seq<Recipe>)
    ensures forall x :: x in r <==> x in rs && !HasId(disliked, x.id)
  {
    Filter(rs, (x: Recipe) => !HasId(disliked, x.id))
  }

  /** Slot `i` is one of the lunch slots the liked recipes are placed in first. */
  predicate LikedSlot(i: int, likedCount: nat)
  {
    0 <= i && i % 2 == 0 && i / 2 < likedCount
  }

  /** At least two recipes with different ids. */
  predicate TwoDistinctIds(rs: seq<Recipe>)
  {
    exists a, b :: a in rs && b in rs && a.id != b.id
  }

  /** The chain-cooking rule for the slot after `prev`: when another valid recipe shares a
      non-staple ingredient with `prev`, the slot holds a valid recipe with a different id that
      shares at least as many as any other such recipe. */
  ghost predicate ChainRule(prev: Recipe, validAll: seq<Recipe>, slot: Option<Recipe>)
  {
    (exists c :: c in validAll && c.id != prev.id && SharedCount(prev, c) > 0)
    ==> && slot.Some? && slot.value in validAll && slot.value.id != prev.id
        && forall c :: c in validAll && c.id != prev.id ==> SharedCount(prev, c) <= SharedCount(prev, slot.value)
  }

  /** The legacy planner: non-disliked liked recipes go to the lunch slots in order; every
      other slot gets the best-chaining successor of the previous slot, or else a random
      non-disliked recipe different from the previous one (none when there is no such recipe). */
  method GenerateFullWeekPlan(liked: seq<Recipe>, disliked: seq<Recipe>, all: seq<Recipe>, choices: seq<nat>)
    returns (plan: seq<Option<Recipe>>)
    ensures |plan| == WEEKLY_PLAN_SLOTS
    ensures forall j :: 0 <= j < 7 && j < |WithoutDisliked(liked, disliked)|
              ==> plan[2 * j] == Some(WithoutDisliked(liked, disliked)[j])
    ensures forall i :: 0 <= i < |plan| && plan[i].Some? ==> !HasId(disliked, plan[i].value.id)
    ensures forall i :: 0 <= i < |plan| && plan[i].Some? ==> plan[i].value in all || plan[i].value in liked
    ensures forall i :: (0 < i < |plan| && !LikedSlot(i, |WithoutDisliked(liked, disliked)|)
                         && plan[i].Some? && plan[i - 1].Some?) ==> plan[i].value.id != plan[i - 1].value.id
    ensures TwoDistinctIds(WithoutDisliked(all, disliked)) ==> forall i :: 0 <= i < |plan| ==> plan[i].Some?
    ensures forall i :: (0 < i < |plan| && !LikedSlot(i, |WithoutDisliked(liked, disliked)|) && plan[i - 1].Some?)
              ==> ChainRule(plan[i - 1].value, WithoutDisliked(all, disliked), plan[i])
  {
    var validAll := WithoutDisliked(all, disliked);
    var validLiked := WithoutDisliked(liked, disliked);
    var n := |validLiked|;
    plan := PlaceLiked(validLiked);
    ghost var placed := plan;
    var i := 0;
    while i < 14
      invariant 0 <= i <= 14
      invariant FillProgress(placed, plan, i, validAll)
    {
      plan := FillStep(placed, plan, i, validAll, Choice(choices, i));
      i := i + 1;
    }
    FilledLikedSlots(placed, plan, validLiked, validAll);
    FilledSlotsValid(placed, plan, validLiked, validAll);
    FilledSlotsChain(placed, plan, validLiked, validAll);
  }

  /** After the fill, the lunch slots still hold the liked recipes in order. */
  lemma FilledLikedSlots(placed: seq<Option<Recipe>>, plan: seq<Option<Recipe>>, validLiked: seq<Recipe>, validAll: seq<Recipe>)
    requires FillShape(placed, plan, 14, validAll)
    requires forall s :: 0 <= s < 14 ==> placed[s] == if LikedSlot(s, |validLiked|) then Some(validLiked[s / 2]) else None
    ensures forall j :: 0 <= j < 7 && j < |validLiked| ==> plan[2 * j] == Some(validLiked[j])
  {
    forall j | 0 <= j < 7 && j < |validLiked| ensures plan[2 * j] == Some(validLiked[j]) {
      assert (2 * j) % 2 == 0 && (2 * j) / 2 == j;
      assert LikedSlot(2 * j, |validLiked|);
    }
  }

  /** After the fill, every filled slot holds a valid recipe, liked or chosen. */
  lemma FilledSlotsValid(placed: seq<Option<Recipe>>, plan: seq<Option<Recipe>>, validLiked: seq<Recipe>, validAll: seq<Recipe>)
    requires FillShape(placed, plan, 14, validAll)
    requires forall s :: 0 <= s < 14 ==> placed[s] == if LikedSlot(s, |validLiked|) then Some(validLiked[s / 2]) else None
    ensures forall s :: 0 <= s < 14 && plan[s].Some? ==> plan[s].value in validAll || plan[s].value in validLiked
  {
    forall s | 0 <= s < 14 && plan[s].Some? ensures plan[s].value in validAll || plan[s].value in validLiked {
      if placed[s].Some? {
        assert plan[s].value == validLiked[s / 2];
      }
    }
  }

  /** After the fill, every slot the fill chose differs in id from its predecessor and follows
      the chain-cooking rule. */
  lemma FilledSlotsChain(placed: seq<Option<Recipe>>, plan: seq<Option<Recipe>>, validLiked: seq<Recipe>, validAll: seq<Recipe>)
    requires FillProgress(placed, plan, 14, validAll)
    requires forall s :: 0 <= s < 14 ==> placed[s] == if LikedSlot(s, |validLiked|) then Some(validLiked[s / 2]) else None
    ensures forall s :: (0 < s < 14 && !LikedSlot(s, |validLiked|) && plan[s].Some? && plan[s - 1].Some?)
              ==> plan[s].value.id != plan[s - 1].value.id
    ensures forall s :: (0 < s < 14 && !LikedSlot(s, |validLiked|) && plan[s - 1].Some?)
              ==> ChainRule(plan[s - 1].value, validAll, plan[s])
  {
    forall s | 0 < s < 14 && !LikedSlot(s, |validLiked|) && plan[s - 1].Some?
      ensures ChainRule(plan[s - 1].value, validAll, plan[s])
    {
      assert placed[s].None?;
      assert ChainAt(placed, plan, s, validAll);
    }
  }

  /** After the first `i` slots of the liked placement `placed` have been filled into `plan`:
      liked slots are kept, later empty slots are still empty, filled slots hold non-disliked
      recipes differing in id from their predecessor, filled slots before `i` follow the
      chain-cooking rule, and, when two ids are available, every slot before `i` is filled. */
  ghost predicate FillProgress(placed: seq<Option<Recipe>>, plan: seq<Option<Recipe>>, i: nat, validAll: seq<Recipe>)
  {
    FillShape(placed, plan, i, validAll) && ChainedBefore(placed, plan, i, validAll)
  }

  /** The part of `FillProgress` that does not involve the chain-cooking rule. */
  ghost predicate FillShape(placed: seq<Option<Recipe>>, plan: seq<Option<Recipe>>, i: nat, validAll: seq<Recipe>)
  {
    && |placed| == 14 && |plan| == 14 && i <= 14
    && (forall s :: 0 <= s < 14 && placed[s].Some? ==> plan[s] == placed[s])
    && (forall s :: i <= s < 14 && placed[s].None? ==> plan[s].None?)
    && (forall s :: 0 <= s < 14 && placed[s].None? && plan[s].Some? ==> plan[s].value in validAll)
    && (forall s :: (0 < s < i && placed[s].None? && plan[s].Some? && plan[s - 1].Some?)
          ==> plan[s].value.id != plan[s - 1].value.id)
    && (TwoDistinctIds(validAll) ==> forall s :: 0 <= s < i ==> plan[s].Some?)
  }

  /** Every slot before `i` that the fill chose follows the chain-cooking rule. */
  ghost predicate ChainedBefore(placed: seq<Option<Recipe>>, plan: seq<Option<Recipe>>, i: nat, validAll: seq<Recipe>)
  {
    && |placed| == 14 && |plan| == 14 && i <= 14
    && forall s :: 0 < s < i ==> ChainAt(placed, plan, s, validAll)
  }

  /** Slot `s`, when the fill chose it after a filled slot, follows the chain-cooking rule. */
  ghost predicate ChainAt(placed: seq<Option<Recipe>>, plan: seq<Option<Recipe>>, s: nat, validAll: seq<Recipe>)
    requires 0 < s < |placed| && s < |plan|
  {
    placed[s].None? && plan[s - 1].Some? ==> ChainRule(plan[s - 1].value, validAll, plan[s])
  }

  /** One iteration of the fill loop: an empty slot `i` gets `FillSlot`'s recipe. */
  method FillStep(ghost placed: seq<Option<Recipe>>, plan: seq<Option<Recipe>>, i: nat, validAll: seq<Recipe>, choice: nat)
    returns (next: seq<Option<Recipe>>)
    requires i < 14 && FillProgress(placed, plan, i, validAll)
    ensures FillProgress(placed, next, i + 1, validAll)
  {
    next := plan;
    if plan[i].None? {
      var r := FillSlot(plan, i, validAll, choice);
      next := plan[i := r];
      FillPlaceKeeps(placed, plan, i, validAll, r);
    }
  }

  /** Placing a recipe that satisfies `FillSlot`'s guarantees into empty slot `i` keeps the
      fill invariant one slot further on. */
  lemma FillPlaceKeeps(placed: seq<Option<Recipe>>, plan: seq<Option<Recipe>>, i: nat, validAll: seq<Recipe>, r: Option<Recipe>)
    requires i < 14 && FillProgress(placed, plan, i, validAll) && plan[i].None?
    requires r.Some? ==> r.value in validAll
    requires r.Some? && i > 0 && plan[i - 1].Some? ==> r.value.id != plan[i - 1].value.id
    requires TwoDistinctIds(validAll) ==> r.Some?
    requires i > 0 && plan[i - 1].Some? ==> ChainRule(plan[i - 1].value, validAll, r)
    ensures FillProgress(placed, plan[i := r], i + 1, validAll)
  {
    FillShapeKeeps(placed, plan, i, validAll, r);
    ChainedKeeps(placed, plan, i, validAll, r);
  }

  /** `FillPlaceKeeps` for the chain-cooking part of the invariant. */
  lemma ChainedKeeps(placed: seq<Option<Recipe>>, plan: seq<Option<Recipe>>, i: nat, validAll: seq<Recipe>, r: Option<Recipe>)
    requires i < 14 && ChainedBefore(placed, plan, i, validAll) && plan[i].None?
    requires i > 0 && plan[i - 1].Some? ==> ChainRule(plan[i - 1].value, validAll, r)
    ensures ChainedBefore(placed, plan[i := r], i + 1, validAll)
  {
    var next := plan[i := r];
    forall s | 0 < s < i + 1 ensures ChainAt(placed, next, s, validAll) {
      if s < i {
        assert ChainAt(placed, plan, s, validAll);
        assert next[s] == plan[s] && next[s - 1] == plan[s - 1];
      }
    }
  }

  /** `FillPlaceKeeps` for the rest of the invariant. */
  lemma FillShapeKeeps(placed: seq<Option<Recipe>>, plan: seq<Option<Recipe>>, i: nat, validAll: seq<Recipe>, r: Option<Recipe>)
    requires i < 14 && FillShape(placed, plan, i, validAll) && plan[i].None?
    requires r.Some? ==> r.value in validAll
    requires r.Some? && i > 0 && plan[i - 1].Some? ==> r.value.id != plan[i - 1].value.id
    requires TwoDistinctIds(validAll) ==> r.Some?
    ensures FillShape(placed, plan[i := r], i + 1, validAll)
  {
    var next := plan[i := r];
    assert placed[i].None?;
    forall s | (0 < s < i + 1 && placed[s].None? && next[s].Some? && next[s - 1].Some?)
      ensures next[s].value.id != next[s - 1].value.id
    {
      if s < i { assert next[s] == plan[s] && next[s - 1] == plan[s - 1]; }
    }
  }

  /** The liked recipes placed in the lunch slots, in order, while they last. */
  method PlaceLiked(validLiked: seq<Recipe>) returns (plan: seq<Option<Recipe>>)
    ensures |plan| == WEEKLY_PLAN_SLOTS
    ensures forall s :: 0 <= s < 14 ==> plan[s] == if LikedSlot(s, |validLiked|) then Some(validLiked[s / 2]) else None
  {
    var n := |validLiked|;
    plan := seq(WEEKLY_PLAN_SLOTS, _ => None);
    var likedIdx := 0;
    if n > 0 {
      var i := 0;
      while i < 14
        invariant 0 <= i <= 14 && i % 2 == 0
        invariant |plan| == 14
        invariant likedIdx == Min(i / 2, n)
        invariant forall s :: 0 <= s < 14 ==> plan[s] == if s < i && LikedSlot(s, n) then Some(validLiked[s / 2]) else None
      {
        if likedIdx < n {
          plan := plan[i := Some(validLiked[likedIdx])];
          likedIdx := likedIdx + 1;
        }
        i := i + 2;
      }
    }
  }

  /** The recipe an empty slot `i` receives: the best-chaining successor of the previous slot's
      recipe among the other non-disliked recipes, or else a random non-disliked recipe whose id
      differs from the previous slot's (from -1 at the first slot); none when no recipe qualifies. */
  function FillSlot(plan: seq<Option<Recipe>>, i: nat, validAll: seq<Recipe>, choice: nat): (r: Option<Recipe>)
    requires i < |plan|
    ensures r.Some? ==> r.value in validAll
    ensures r.Some? && i > 0 && plan[i - 1].Some? ==> r.value.id != plan[i - 1].value.id
    ensures TwoDistinctIds(validAll) ==> r.Some?
    ensures i > 0 && plan[i - 1].Some? ==> ChainRule(plan[i - 1].value, validAll, r)
  {
    var next := if i > 0 && plan[i - 1].Some? then ChainNext(plan[i - 1].value, validAll, choice) else None;
    if next.Some? then next
    else
      var prevId: Option<int> := if i == 0 then Some(-1) else if plan[i - 1].Some? then Some(plan[i - 1].value.id) else None;
      RandomOther(validAll, prevId, choice)
  }

  /** The chaining step of `FillSlot`: the suggested successor of `prev` among the recipes
      whose id differs from it. */
  function ChainNext(prev: Recipe, validAll: seq<Recipe>, choice: nat): (r: Option<Recipe>)
    ensures r.Some? ==> r.value in validAll && r.value.id != prev.id
    ensures ChainRule(prev, validAll, r)
  {
    var others := Filter(validAll, (c: Recipe) => c.id != prev.id);
    assert (exists c :: c in validAll && c.id != prev.id && SharedCount(prev, c) > 0) ==> exists c :: c in others && SharedCount(prev, c) > 0 by {
      if exists c :: c in validAll && c.id != prev.id && SharedCount(prev, c) > 0 {
        var c :| c in validAll && c.id != prev.id && SharedCount(prev, c) > 0;
        assert c in others;
      }
    }
    SuggestNextMeal(prev, others, choice)
  }

  /** The random step of `FillSlot`: any recipe whose id differs from `prevId` (every recipe
      when there is no previous id). */
  function RandomOther(validAll: seq<Recipe>, prevId: Option<int>, choice: nat): (r: Option<Recipe>)
    ensures r.Some? ==> r.value in validAll && (prevId.Some? ==> r.value.id != prevId.value)
    ensures TwoDistinctIds(validAll) ==> r.Some?
  {
    var pool := Filter(validAll, (c: Recipe) => prevId.None? || c.id != prevId.value);
    assert TwoDistinctIds(validAll) ==> |pool| > 0 by {
      if TwoDistinctIds(validAll) {
        var a, b :| a in validAll && b in validAll && a.id != b.id;
        assert a in pool || b in pool;
      }
    }
    if |pool| > 0 then Some(pool[choice % |pool|]) else None
  }
}
