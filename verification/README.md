# Eatconomy recipe planning, modelled in Dafny

Eatconomy plans a week of home cooking: 14 meals, lunch and dinner for seven days. The plans are
built from a fixed recipe catalog, the user's fridge, their allergies, disliked foods and
spiciness level, and the recipes they swiped as liked or disliked. This project models the
planning core and its local store as pure Dafny functions and methods.

- `Seqs`: generic helpers.
  - Order-preserving filtering, duplicate-free sequences and a pigeonhole lemma.
  - Substring search, decimal digit strings and splitting on a separator.
- `Types` and `Constants`: the data model.
  - Recipes, with an optional dish type (main or side) and meal type (lunch, dinner or both).
  - User preferences and the lunch/dinner meal set of one slot.
  - The 14-slot week, the staple seasonings and the starter fridge.
- `Sorting`: JavaScript's stable `Array.prototype.sort` under a descending numeric comparator, as
  a stable insertion sort by a real key. Also a choice-driven shuffle.
- `RecipeService`: the chain-cooking helpers, the replacement suggestions for one slot, the
  shopping list and the legacy random week planner.
- `ScoredPlan`: the scored weekly planner.
  - The three safety filters and the relaxed fallback pool.
  - The score: fridge match, a penalty for missing ingredients, a spicy penalty and a liked bonus.
  - The top-30 pool, picking among the top five with a cap of three uses per significant tag,
    the fallbacks, and the reason label on each pick.
- `LlmPlan`: the deterministic work around the language-model planner.
  - The candidate filter.
  - The recipe summary shown to the model: match ratio, dish and meal classification, and the
    liked-first order.
  - The schema check of the model's 14 answers and their conversion into meal sets.
  - The fallback fill of the slots the answer left empty.
  - The answer may name any catalog recipe, including one the safety filter removed. The
    conversion looks ids up in the whole catalog, exactly as the source does.
- `DbService`: the per-user local store as a value of type `DB`.
  - Every operation returns the new store. Reads that also write return a pair.
- `Errors`: classifying a thrown value as a network, authentication, validation, server or
  unknown error.
- `Dates`: mapping today's weekday to its two plan slots, and the `YYYY-MM-DD` key with its
  parser.

The random source is a sequence of natural numbers `choices`. Draw `j` stands for
`Math.floor(Math.random() * n)` once it is reduced modulo `n`. The recipe catalog is a
parameter: a non-empty sequence standing for the built-in seed list. Scores are exact reals.

## Model

| member | source | states |
|---|---|---|
| ScoredPlan.EffectiveSpiciness | services/recipeService.ts:161 | The level used is never 0: the stored level when one is set, otherwise medium (2). |
| ScoredPlan.SafePool | services/recipeService.ts:164-168 | A recipe is in the pool exactly when it is in the catalog, uses no allergen, uses no disliked food and its id is not disliked. The pool never repeats a recipe more often than the catalog does. |
| ScoredPlan.FallbackPool | services/recipeService.ts:171 | Equals the safe pool when that is non-empty. Otherwise it holds catalog recipes free of allergens. It is non-empty exactly when some catalog recipe is allergen-free. |
| ScoredPlan.Total | services/recipeService.ts:186-187 | The divisor is at least 1 and at least the number of non-staple ingredients. |
| ScoredPlan.Matches | services/recipeService.ts:189 | The fridge matches never exceed the non-staple ingredients. |
| ScoredPlan.BaseScore | services/recipeService.ts:190-194 | The fridge part of the score lies between -10 per ingredient and 100. |
| ScoredPlan.BaseScoreMonotone | services/recipeService.ts:189-194 | More fridge matches never lower the fridge part of the score. |
| ScoredPlan.Score | services/recipeService.ts:174-211 | A recipe that is not liked scores at most 100 and at least -50 - 10 per ingredient. A liked recipe scores at least 1000 - 50 - 10 per ingredient. |
| ScoredPlan.LikedBonusIsFlat | services/recipeService.ts:204-209 | Liking a recipe adds exactly 1000 to its score. |
| ScoredPlan.SpicinessPenaltyOnlyWhenMild | services/recipeService.ts:197-201 | The 50-point spicy penalty applies only to spicy recipes, and only at level 1. |
| ScoredPlan.LikedOutranksUnliked | services/recipeService.ts:203-209 | A liked recipe with at most 84 non-staple ingredients outranks every recipe that is not liked. |
| ScoredPlan.ScoreMonotoneInFridge | services/recipeService.ts:189-209 | Adding items to the fridge never lowers a recipe's score. |
| ScoredPlan.ScoredCandidates | services/recipeService.ts:174-212 | One scored entry per safe recipe, in catalog order, each carrying that recipe's score. |
| ScoredPlan.Pool | services/recipeService.ts:214-219 | The pool holds min(30, safe count) safe recipes with their scores, in non-increasing score order. Every scored recipe left out scores no higher than any recipe kept. |
| ScoredPlan.PoolIsTop | services/recipeService.ts:215-219 | The first k of a score-sorted list outrank everything outside them. |
| ScoredPlan.CountTags | services/recipeService.ts:264-269 | Each significant tag's count grows by the number of its occurrences among the picked recipe's tags. Other tags are unchanged. |
| ScoredPlan.ValidCandidates | services/recipeService.ts:229-241 | A pool entry is valid exactly when its id is not yet selected and none of its significant tags has reached the cap of 3. |
| ScoredPlan.FirstUnused | services/recipeService.ts:253 | Returns the first unselected pool entry: every entry before it is already selected. Returns nothing exactly when every pool entry is already selected. |
| ScoredPlan.PickForSlot | services/recipeService.ts:243-260 | With valid candidates, the pick is unselected, under the tag cap and among the first five valid candidates. Without valid candidates, the pick is the first unselected pool entry when one exists. When every pool entry is selected, the pick is the first fallback-pool recipe, or the first catalog recipe when that pool is empty. |
| ScoredPlan.SlotLoop | services/recipeService.ts:225-270 | With an empty pool, nothing is picked. Otherwise the picks reach 14 and keep the earlier picks, and each new pick lies in the fallback pool. |
| ScoredPlan.Tally | services/recipeService.ts:264-269 | Counting the tags of a run of picks never lowers a count, and leaves the count of a tag that is not significant unchanged. |
| ScoredPlan.SlotLoopPicks | services/recipeService.ts:225-270 | Each pick of the slot loop is the slot pick made against all the earlier picks, with the tag counts of every pick made so far. |
| ScoredPlan.SlotLoopFollowsRule | services/recipeService.ts:225-270 | Whenever some pool entry is valid for a slot, that slot's pick is not among the earlier picks, has no significant tag at the cap given the earlier picks' tags, and is among the first five valid entries. |
| ScoredPlan.FillRemaining | services/recipeService.ts:272-280 | Pads to 14 slots, keeping the earlier picks. Each added recipe comes from the fallback pool, or from the catalog when that pool is empty. |
| ScoredPlan.Select | services/recipeService.ts:219-280 | Exactly 14 recipes, each drawable. With at least 14 pool entries, the slot loop alone fills the week. |
| ScoredPlan.PoolInFallback | services/recipeService.ts:164-171 | Every pool recipe lies in the fallback pool. |
| ScoredPlan.SelectRecipes | services/recipeService.ts:156-280 | Exactly 14 recipes, each from the fallback pool, or from the catalog when that pool is empty. |
| ScoredPlan.DrawnIsSafe | services/recipeService.ts:164-171 | A drawable recipe is from the catalog. It is allergen-free when any catalog recipe is, and passes all three filters when any catalog recipe does. |
| ScoredPlan.PoolDistinct | services/recipeService.ts:174-219 | With a catalog of distinct ids, the pool's recipes have distinct ids. |
| ScoredPlan.SlotLoopDistinct | services/recipeService.ts:225-262 | While the pool has more entries than picks so far, the slot loop never picks an id twice. |
| ScoredPlan.SomeUnused | services/recipeService.ts:253 | A pool with distinct ids and more entries than picks has an unpicked entry. |
| ScoredPlan.AppendFresh | services/recipeService.ts:262 | Appending a recipe whose id is not yet picked keeps the ids distinct. |
| ScoredPlan.SelectRecipesDistinct | services/recipeService.ts:219-280 | With distinct catalog ids and at least 14 safe recipes, the week repeats no recipe. |
| ScoredPlan.AttachReasons | services/recipeService.ts:282-286 | Only the reason changes. The reason is the liked label exactly when the id is liked, and the match label exactly when it is not. |
| ScoredPlan.LabelledAreSafe | services/recipeService.ts:164-171 | Labelling preserves catalog origin, allergen safety, full safety and distinct ids. |
| ScoredPlan.GenerateScoredWeeklyPlan | services/recipeService.ts:150-287 | 14 catalog recipes with reasons. All are allergen-free when possible, and all pass the three filters when any recipe does. None repeats when the catalog ids are distinct and at least 14 recipes are safe. The reason label says whether the recipe was liked. |
| RecipeService.NonStaples | services/recipeService.ts:186 | Keeps exactly the non-staple ingredients, in order. |
| RecipeService.SharedIngredients | services/recipeService.ts:14-18 | An ingredient is shared exactly when both recipes use it and it is not a staple. It keeps the first recipe's order and multiplicity. |
| RecipeService.CalculateChainScore | services/recipeService.ts:20-24 | The count is the number of ingredient positions whose name is in the fridge, duplicates included, by an independent recursive count. It is at most the ingredient count. It is full exactly when every ingredient is in the fridge, and zero exactly when none is. |
| RecipeService.SuggestNextMeal | services/recipeService.ts:27-47 | Returns nothing exactly when no candidate shares a non-staple ingredient. Otherwise it returns a candidate with the highest shared count. |
| RecipeService.SuggestNextMealReachesEveryBest | services/recipeService.ts:43-46 | Every candidate tied for the best positive count can be the suggestion for some random draw. |
| RecipeService.GetAlternativeRecipes | services/recipeService.ts:50-81 | At most three eligible recipes, each neither the current, disliked nor the paired slot's recipe. All eligible recipes are returned when fewer than three exist. With a previous recipe they are the best chainers, in order. |
| RecipeService.AlternativeCandidates | services/recipeService.ts:57-65 | A recipe is a candidate exactly when it is eligible. |
| RecipeService.OrderAlternatives | services/recipeService.ts:67-77 | A permutation of the candidates: sorted by shared count when a previous recipe exists, otherwise shuffled. |
| RecipeService.AlternativesAreTop | services/recipeService.ts:69-80 | The first k sorted candidates share at least as much as any candidate left out. |
| RecipeService.GenerateShoppingList | services/recipeService.ts:83-103 | One entry per distinct non-staple ingredient the fridge lacks, with its number of uses across the plan. Every such ingredient appears. |
| RecipeService.CollectNonStaples | services/recipeService.ts:84-92 | Collects every non-staple ingredient exactly as often as the plan uses it. |
| RecipeService.TallyMissing | services/recipeService.ts:94-102 | One entry per distinct missing ingredient, with its exact multiplicity. |
| RecipeService.OccurrencesPositive | services/recipeService.ts:96-99 | An ingredient of a planned recipe is counted at least once. |
| RecipeService.WithoutDisliked | services/recipeService.ts:112-114 | Keeps exactly the recipes whose id is not disliked. |
| RecipeService.GenerateFullWeekPlan | services/recipeService.ts:106-147 | 14 slots. Liked recipes that are not disliked fill the lunch slots in order. No slot holds a disliked or foreign recipe. A slot the fill chose never repeats its predecessor's id. After a filled slot, a chosen slot follows the chain-cooking rule: when another valid recipe shares a non-staple ingredient with the previous recipe, the slot holds one with the highest shared count. With two distinct valid recipes every slot is filled. |
| RecipeService.PlaceLiked | services/recipeService.ts:116-126 | The j-th valid liked recipe sits in slot 2j while they last. Every other slot is empty. |
| RecipeService.FillSlot | services/recipeService.ts:128-143 | A filled recipe is valid and differs from the previous slot's id. It is always found when two distinct valid ids exist. After a filled slot it follows the chain-cooking rule. |
| RecipeService.ChainNext | services/recipeService.ts:130-138 | The chained suggestion is a valid recipe with another id than the previous one. When some such recipe shares a non-staple ingredient with the previous one, the suggestion exists and shares the most. |
| RecipeService.RandomOther | services/recipeService.ts:140-142 | A random valid recipe whose id differs from the previous slot's. It is found whenever two distinct valid ids exist. |
| RecipeService.FillStep | services/recipeService.ts:128-144 | One loop pass keeps the fill invariant, including the chain-cooking rule for every chosen slot so far. |
| Sorting.SortDesc | services/recipeService.ts:215 | A permutation of the input in non-increasing key order. |
| Sorting.SortDescStable | services/recipeService.ts:215 | Elements with equal keys keep their input order. |
| Sorting.Shuffle | services/recipeService.ts:76 | The shuffle is a permutation. |
| LlmPlan.CandidateRecipes | services/openaiService.ts:56-75 | A recipe is a candidate exactly when it is in the catalog, uses no allergen, uses no disliked food and its id is not disliked. Catalog order is kept. |
| LlmPlan.RoundedPercent | services/openaiService.ts:81-109 | The nearest whole percentage of m/n, halves rounded up. It is never above 100. |
| LlmPlan.RoundedPercentBounds | services/openaiService.ts:81-109 | The rounded quotient is bracketed by the exact value and capped at 100. |
| LlmPlan.MatchRatio | services/openaiService.ts:79-109 | 0 without non-staple ingredients. Otherwise the rounded share of non-staple ingredients found in the fridge, at most 100. |
| LlmPlan.DishTypeOf | services/openaiService.ts:84-88 | Side exactly when a side tag is present, or when there is no main tag and under 300 kcal. Main exactly in the remaining cases. |
| LlmPlan.MealTypeOf | services/openaiService.ts:91-101 | Lunch exactly for lunch-only tags, or for neither kind of tag and under 400 kcal. Dinner exactly for dinner-only tags, or for neither and over 550 kcal. Both kinds of tag give both. |
| LlmPlan.Summarize | services/openaiService.ts:103-111 | The summary line carries the recipe's id, name and calories, its classification and match ratio, and whether it is liked. |
| LlmPlan.SortedSummary | services/openaiService.ts:78-116 | A permutation of the candidates' summaries. Every liked recipe comes before every recipe that is not liked. Within each group, match ratios do not increase. |
| LlmPlan.RankOrder | services/openaiService.ts:112-116 | The single sort key agrees with the two-level comparator. |
| LlmPlan.SortedSummaryStable | services/openaiService.ts:112-116 | Summaries that the comparator ties keep candidate order. |
| LlmPlan.SlotIndexBijective | services/openaiService.ts:247-295 | Slot numbering maps day 0-6 and meal one-to-one onto slots 0-13. Even slots are lunch and odd slots dinner, as the fill assumes. |
| LlmPlan.FindById | services/openaiService.ts:250-267 | Finds a recipe exactly when the catalog has that id, and returns the first recipe with it. |
| LlmPlan.ConvertResponse | services/openaiService.ts:22-285 | Rejects any answer without exactly 14 meals on days 0-6. Otherwise a slot has a main or side dish exactly when some meal names a known recipe for it, and the last such meal wins. The missing list holds exactly the named ids the catalog lacks. |
| LlmPlan.MainStep | services/openaiService.ts:249-261 | One meal extends the main-dish description by one answer and leaves the sides alone. |
| LlmPlan.SideStep | services/openaiService.ts:263-279 | One meal extends the side-dish description by one answer and leaves the mains alone. |
| LlmPlan.PresenceAt | services/openaiService.ts:246-280 | After one more meal, a place is filled exactly when an earlier meal or the new one hit it. |
| LlmPlan.MissingStep | services/openaiService.ts:259-276 | One meal adds exactly its unknown ids to the missing list. |
| LlmPlan.UsedIds | services/openaiService.ts:287-291 | The used ids are exactly the ids of the dishes already in the plan. |
| LlmPlan.FirstAvailable | services/openaiService.ts:299-321 | Picks the first unused candidate that suits the place: every candidate before it is used or does not suit. Nothing is picked exactly when every suiting candidate is used. |
| LlmPlan.PutFresh | services/openaiService.ts:305-320 | Placing an unused id in an empty place keeps every filled id unique and adds exactly that id to the used set. |
| LlmPlan.FillPlace | services/openaiService.ts:297-322 | Handling one place keeps the fill invariant and settles the place. Only that place changes. |
| LlmPlan.FillEmptySlots | services/openaiService.ts:287-323 | Never overwrites a dish. Every added dish is an eligible candidate whose id no other dish of the plan has. A place stays empty only when every suiting candidate is already used. |
| LlmPlan.PlanFromResponse | services/openaiService.ts:62-323 | Rejects a malformed answer. Otherwise the last answer per slot and part stands. Places the answer left empty get eligible safe candidates with plan-unique ids. A place stays empty only when every suiting safe candidate is in use. |
| DbService.InitUserData | services/dbService.ts:75-95 | Stores the user while keeping any stored preferences. A new account gets the starter fridge, 14 empty slots and empty lists. A known account keeps its data. Every other account keeps its entry, or its lack of one, in all nine tables. |
| DbService.GetUser | services/dbService.ts:97-99 | Returns the stored account exactly when one exists. |
| DbService.UpdateUserPreferences | services/dbService.ts:101-107 | Replaces only the preferences of an existing account. Nothing else changes, and nothing happens for an unknown account. |
| DbService.InitTwiceKeepsData | services/dbService.ts:75-95 | A second sign-in changes nothing. |
| DbService.InitKeepsPreferences | services/dbService.ts:75-107 | Preferences saved before a sign-in survive it. |
| DbService.GetFridge | services/dbService.ts:110-112 | The stored fridge, or empty. |
| DbService.ToggleFridgeItem | services/dbService.ts:113-122 | Flips the item's presence: a missing item is appended, and other items are kept. Other users are unchanged. |
| DbService.ToggleFridgeTwice | services/dbService.ts:113-122 | Toggling twice restores the fridge's contents, and restores the exact list when the item was missing. |
| DbService.GetLikedRecipes | services/dbService.ts:125-128 | Exactly the catalog recipes whose id is liked. |
| DbService.GetDislikedRecipes | services/dbService.ts:137-140 | Exactly the catalog recipes whose id is disliked. |
| DbService.AddId | services/dbService.ts:129-135 | Adds the id once: a known id changes nothing, and a duplicate-free list stays duplicate-free. |
| DbService.AddLikedRecipe | services/dbService.ts:129-135 | Records the like for this user only. Repeating a like changes nothing. |
| DbService.AddDislikedRecipe | services/dbService.ts:141-147 | Records the dislike for this user only. Repeating a dislike changes nothing. |
| DbService.AddLikedIdempotent | services/dbService.ts:129-135 | Liking twice equals liking once and keeps the list duplicate-free. |
| DbService.AddDislikedIdempotent | services/dbService.ts:141-147 | Disliking twice equals disliking once and keeps the list duplicate-free. |
| DbService.LikedRecipesAfterAdd | services/dbService.ts:125-135 | After a like, the liked recipes are the earlier ones plus the catalog recipes with the new id. |
| DbService.GetPlan | services/dbService.ts:150-152 | The stored legacy plan, or 14 empty slots. |
| DbService.SavePlan | services/dbService.ts:153-156 | Stores this user's legacy plan only. |
| DbService.SaveThenGetPlan | services/dbService.ts:150-156 | Reading a saved plan returns it. |
| DbService.SetSlot | services/dbService.ts:157-162 | Sets one index and leaves the others alone. An index past the end extends the plan with empty slots, and a negative index changes nothing. |
| DbService.UpdatePlanSlot | services/dbService.ts:157-162 | The slot holds the recipe. Other slots and other users are unchanged. |
| DbService.UpdateSlotChangesOneSlot | services/dbService.ts:157-162 | Updating an in-range slot is a point update of the plan. |
| DbService.GetWeeklyPlan | services/dbService.ts:165-187 | Returns the stored meal-set plan. A user with only a non-empty legacy plan gets an explicit "no plan" recorded. |
| DbService.SaveWeeklyPlan | services/dbService.ts:188-194 | Stores this user's meal-set plan only. |
| DbService.SaveThenGetWeeklyPlan | services/dbService.ts:165-194 | Reading a saved meal-set plan returns it and changes nothing. |
| DbService.GetWeeklyPlanStable | services/dbService.ts:165-187 | A second read gives the same plan as the first. |
| DbService.GetShoppingChecks | services/dbService.ts:197-199 | The stored checks of the user, or no checks when nothing was stored. |
| DbService.ToggleShoppingCheck | services/dbService.ts:200-208 | Flips one check for one user and leaves the other checks and users alone. |
| DbService.ToggleShoppingTwice | services/dbService.ts:200-208 | Toggling twice restores the check. |
| DbService.GetTodayFinished | services/dbService.ts:211-213 | The stored flag of the user, or false when nothing was stored. |
| DbService.ToggleTodayFinished | services/dbService.ts:214-218 | Flips this user's flag only. |
| DbService.ToggleTodayTwice | services/dbService.ts:214-218 | Toggling twice restores the flag, and the second toggle returns the original value. |
| DbService.MealKey | services/dbService.ts:221-237 | The key is the date key followed by the meal name. |
| DbService.MealKeyInjective | services/dbService.ts:221-237 | Different dates or meals give different keys. |
| DbService.GetMealFinished | services/dbService.ts:221-226 | False when the user has no completion record or the record lacks the meal's key. Otherwise the stored flag for that key. |
| DbService.ToggleMealFinished | services/dbService.ts:227-237 | Flips exactly one meal of one user. |
| DbService.ToggleMealTwice | services/dbService.ts:227-237 | Toggling twice restores the flag. |
| DbService.ResetSession | services/dbService.ts:240-245 | Clears this user's likes, dislikes and today flag, and nothing else. |
| DbService.DeleteAccount | services/dbService.ts:248-261 | Removes every trace of the user. Every other account keeps its entry, or its lack of one, in all nine tables, the meal-set plans included. |
| DbService.DeleteThenInitIsFresh | services/dbService.ts:75-261 | Signing in after deletion starts a fresh account. |
| Errors.GetErrorInfo | utils/errors.ts:25-82 | The first matching test decides, in the order network, authentication, validation, server, unknown. Each kind gets its status code and message, and the message is never empty. |
| Errors.GetErrorMessage | utils/errors.ts:87-89 | The classified message, never empty. |
| Errors.ExactUnauthorizedIsContained | utils/errors.ts:40-45 | The exact-match alternative for "Unauthorized" is already covered by the substring test. |
| Errors.NetworkWinsOverAuth | utils/errors.ts:27-51 | A message that mentions a failed fetch is a network error, whatever else it says. |
| Errors.OrDefault | utils/errors.ts:54-75 | An empty message falls back to the default text. |
| Dates.DayIndex | utils/date.ts:27-29 | Maps a Sunday-first weekday to its Monday-first day number. |
| Dates.GetTodayMealIndices | utils/date.ts:25-35 | Lunch is the even slot 2d and dinner the next slot, for day number d. |
| Dates.MealIndicesBijective | utils/date.ts:25-35 | Different weekdays get different slots, and every slot belongs to some weekday. |
| Dates.FormatDateKey | utils/date.ts:8-11 | Three dash-separated digit runs: the year, then the month and day padded to two digits. |
| Dates.ParseDateKey | utils/date.ts:16-19 | Splits on dashes and reads numbers. The month becomes 0-based, and absent parts read as NaN. |
| Dates.FormatParseRoundTrip | utils/date.ts:8-19 | Parsing a formatted key returns the year, the 0-based month and the day. |

## Left out

- Randomness: every `Math.random()` is a draw from `choices`. The shuffle at services/recipeService.ts:76 is an unweighted random-comparator sort, `sort(() => 0.5 - Math.random())`. It is modelled as a choice-driven selection shuffle, so only the fact that its result is a permutation carries over.
- The catalog is a parameter rather than the 50 built-in recipes, so no fact about their content (ids, tags) is assumed.
- Floating point: scores, match ratios and `Math.round` use exact arithmetic. Rounding errors of binary floating point are not modelled.
- The model call itself: API key lookup, client construction, prompt text, JSON parsing and the logging around it. The answer is a parameter that the schema check accepts or rejects.
- All of services/geminiService.ts, whose filter repeats the OpenAI one.
- The UI pages, the HTTP client, authentication and the backend.
- `dbService`'s asynchronous delay and its persistence to `localStorage`. Loading a stored store that predates the meal-set table is also left out.
- `logError` in utils/errors.ts, which only logs.
- JavaScript `Number` beyond plain digit strings: signs, decimals, spaces and exponents all read as NaN here. The normalisation the `Date` constructor applies to its arguments is also left out.
- The `WeeklyPlan` type of the store is not part of the shipped types file. It is modelled as a sequence of meal sets.
- JavaScript arrays are capped at 2^32 - 1 elements. `SetSlot` models an index past the end as growing the plan, and a negative index as a no-op, because JavaScript stores a negative index as a property that no array read sees.
- JavaScript objects used as maps. The model's maps are plain finite maps, so three object behaviours are not modelled. `Object.entries` lists integer-like keys such as "1" or "42" first, in numeric order, so the shopping list's order is not modelled (services/recipeService.ts:102). Names inherited from `Object.prototype` such as `constructor` or `toString` read as functions, so `needToBuy[ing] || 0` and `!checks[item]` misbehave for them (services/recipeService.ts:98, services/dbService.ts:203). The key `__proto__` is never stored as an own entry. The model counts, lists and toggles every name exactly.
- Shared references in the store. `savePlan` keeps the caller's array and `getPlan` hands out the stored one, so `updatePlanSlot`'s in-place write also changes a plan the caller still holds (services/dbService.ts:150-161). The model's store is a value, and no caller-held plan changes.
- `undefined` plan slots. `generateFullWeekPlan` stores `undefined` when its random pool is empty (services/recipeService.ts:141). The model writes an empty slot (`None`), while `getWeeklyPlan`'s `r !== null` test counts an `undefined` slot as filled (services/dbService.ts:178).
- ScoredPlan.LikedOutranksUnliked: stated only for liked recipes with at most 84 non-staple ingredients. A recipe with more missing ingredients could lose more than the liked bonus.
- ScoredPlan.SelectRecipesDistinct: distinctness is proved only when at least 14 recipes are safe. Below that the fill deliberately repeats recipes.
- LlmPlan.ConvertResponse: the missing list is described by its members, not by its order or repetitions.
