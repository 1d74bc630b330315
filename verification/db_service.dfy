/** The per-user store of services/dbService.ts as a pure state machine: every operation
    takes the whole state and returns the next one (and its result). Persistence to browser
    storage and the simulated network delay are not modelled. */
module DbService {
  import opened Seqs
  import opened Types
  import opened Constants

  /** An account; `preferences` is absent until onboarding stores them. */
  datatype User = User(id: string, email: string, nickname: string, avatarUrl: string,
                       preferences: Option<UserPreferences>)

  /** The meal-set plan of the newer planner: one lunch or dinner set per slot. */
  type WeeklyPlan = seq<MealSet>

  /** The whole store, one map per table, each keyed by user id. A legacy plan slot that
      holds `null` (or was never written) is `None`. */
  datatype DB = DB(
    users: map<string, User>,
    fridgeItems: map<string, seq<string>>,
    weeklyPlans: map<string, seq<Option<Recipe>>>,
    weeklyPlansV2: map<string, Option<WeeklyPlan>>,
    likedRecipes: map<string, seq<int>>,
    dislikedRecipes: map<string, seq<int>>,
    shoppingChecks: map<string, map<string, bool>>,
    todayMealFinished: map<string, bool>,
    mealFinished: map<string, map<string, bool>>)

  /** `k` has the same entry, or lack of one, in both tables. */
  predicate SameEntry<V(==)>(a: map<string, V>, b: map<string, V>, k: string)
  {
    (k in a <==> k in b) && (k in a ==> a[k] == b[k])
  }

  /** Account `k` has the same entry, or lack of one, in every table of both stores. */
  predicate SameAccount(a: DB, b: DB, k: string)
  {
    && SameEntry(a.users, b.users, k) && SameEntry(a.fridgeItems, b.fridgeItems, k)
    && SameEntry(a.weeklyPlans, b.weeklyPlans, k) && SameEntry(a.weeklyPlansV2, b.weeklyPlansV2, k)
    && SameEntry(a.likedRecipes, b.likedRecipes, k) && SameEntry(a.dislikedRecipes, b.dislikedRecipes, k)
    && SameEntry(a.shoppingChecks, b.shoppingChecks, k) && SameEntry(a.todayMealFinished, b.todayMealFinished, k)
    && SameEntry(a.mealFinished, b.mealFinished, k)
  }

  /** The state of a store that holds nothing yet. */
  function EmptyDB(): DB
  {
    DB(map[], map[], map[], map[], map[], map[], map[], map[], map[])
  }

  /** `m[k] || fallback` for a table whose stored values are always truthy. */
  function Get<V>(m: map<string, V>, k: string, fallback: V): (v: V)
    ensures k in m ==> v == m[k]
    ensures k !in m ==> v == fallback
  {
    if k in m then m[k] else fallback
  }

  /** `flags[k] || false`: a missing key reads as false. */
  function Flag(flags: map<string, bool>, k: string): (b: bool)
    ensures b <==> k in flags && flags[k]
  {
    k in flags && flags[k]
  }

  /** `Array(n).fill(null)`. */
  function Nulls(n: nat): (r: seq<Option<Recipe>>)
    ensures |r| == n && forall i :: 0 <= i < n ==> r[i].None?
  {
    seq(n, i => None)
  }

  /** The user id is unknown to every table. */
  predicate Absent(db: DB, u: string)
  {
    u !in db.users && u !in db.fridgeItems && u !in db.weeklyPlans && u !in db.weeklyPlansV2
    && u !in db.likedRecipes && u !in db.dislikedRecipes && u !in db.shoppingChecks
    && u !in db.todayMealFinished && u !in db.mealFinished
  }

  // ------------------------------------------------------------------ users

  /** Stores the account, keeping any preferences already stored for it and dropping any it
      carries; an account seen for the first time (no fridge yet) gets the starter fridge,
      14 empty legacy slots, no meal-set plan, empty like and dislike lists, no shopping
      checks and nothing finished. An account seen before keeps all its data. */
  function InitUserData(db: DB, user: User): (r: DB)
    ensures user.id in r.users
    ensures r.users[user.id].(preferences := user.preferences) == user
    ensures r.users[user.id].preferences == (if user.id in db.users then db.users[user.id].preferences else None)
    ensures forall k :: k != user.id ==> (k in r.users <==> k in db.users) && (k in r.users ==> r.users[k] == db.users[k])
    ensures user.id !in db.fridgeItems ==>
              Get(r.fridgeItems, user.id, []) == MOCK_FRIDGE && Get(r.weeklyPlans, user.id, []) == Nulls(WEEKLY_PLAN_SLOTS)
              && Get(r.weeklyPlansV2, user.id, Some([])) == None
              && Get(r.likedRecipes, user.id, [0]) == [] && Get(r.dislikedRecipes, user.id, [0]) == []
              && Get(r.shoppingChecks, user.id, map["" := true]) == map[]
              && Get(r.todayMealFinished, user.id, true) == false
              && Get(r.mealFinished, user.id, map["" := true]) == map[]
    ensures user.id in db.fridgeItems ==> r == db.(users := r.users)
    ensures forall k :: k != user.id ==> SameAccount(r, db, k)
  {
    var stored := if user.id in db.users then db.users[user.id].preferences else None;
    var db1 := db.(users := db.users[user.id := user.(preferences := stored)]);
    PutKeepsOthers(db.users, user.id, user.(preferences := stored), db1.users);
    if user.id in db.fridgeItems then db1
    else
      var u := user.id;
      var r := db1.(fridgeItems := db1.fridgeItems[u := MOCK_FRIDGE],
                    weeklyPlans := db1.weeklyPlans[u := Nulls(WEEKLY_PLAN_SLOTS)],
                    weeklyPlansV2 := db1.weeklyPlansV2[u := None],
                    likedRecipes := db1.likedRecipes[u := []],
                    dislikedRecipes := db1.dislikedRecipes[u := []],
                    shoppingChecks := db1.shoppingChecks[u := map[]],
                    todayMealFinished := db1.todayMealFinished[u := false],
                    mealFinished := db1.mealFinished[u := map[]]);
      PutKeepsOthers(db.fridgeItems, u, MOCK_FRIDGE, r.fridgeItems);
      PutKeepsOthers(db.weeklyPlans, u, Nulls(WEEKLY_PLAN_SLOTS), r.weeklyPlans);
      PutKeepsOthers(db.weeklyPlansV2, u, None, r.weeklyPlansV2);
      PutKeepsOthers(db.likedRecipes, u, [], r.likedRecipes);
      PutKeepsOthers(db.dislikedRecipes, u, [], r.dislikedRecipes);
      PutKeepsOthers(db.shoppingChecks, u, map[], r.shoppingChecks);
      PutKeepsOthers(db.todayMealFinished, u, false, r.todayMealFinished);
      PutKeepsOthers(db.mealFinished, u, map[], r.mealFinished);
      r
  }

  function GetUser(db: DB, u: string): (r: Option<User>)
    ensures r.Some? <==> u in db.users
    ensures r.Some? ==> r.value == db.users[u]
  {
    if u in db.users then Some(db.users[u]) else None
  }

  /** Stores the preferences of a known account; an unknown account is ignored. */
  function UpdateUserPreferences(db: DB, u: string, prefs: UserPreferences): (r: DB)
    ensures u in db.users ==> GetUser(r, u) == Some(db.users[u].(preferences := Some(prefs)))
    ensures u !in db.users ==> r == db
    ensures forall k :: k != u ==> GetUser(r, k) == GetUser(db, k)
    ensures r.(users := db.users) == db
  {
    if u in db.users then db.(users := db.users[u := db.users[u].(preferences := Some(prefs))]) else db
  }

  /** Initialising an account a second time changes nothing but the stored profile. */
  lemma InitTwiceKeepsData(db: DB, user: User)
    ensures InitUserData(InitUserData(db, user), user) == InitUserData(db, user)
  {
  }

  /** Preferences survive a later re-initialisation of the account (the login path). */
  lemma InitKeepsPreferences(db: DB, u: string, prefs: UserPreferences, user: User)
    requires u in db.users && user.id == u
    ensures GetUser(InitUserData(UpdateUserPreferences(db, u, prefs), user), u).value.preferences == Some(prefs)
  {
  }

  // ------------------------------------------------------------------ fridge

  function GetFridge(db: DB, u: string): (r: seq<string>)
    ensures u !in db.fridgeItems ==> r == []
    ensures u in db.fridgeItems ==> r == db.fridgeItems[u]
  {
    Get(db.fridgeItems, u, [])
  }

  /** Removes every copy of `item` from the fridge when it is there, appends it otherwise;
      returns the new fridge. Only this user's fridge changes. */
  function ToggleFridgeItem(db: DB, u: string, item: string): (r: (DB, seq<string>))
    ensures r.1 == GetFridge(r.0, u)
    ensures item in r.1 <==> item !in GetFridge(db, u)
    ensures forall x :: x != item ==> (x in r.1 <==> x in GetFridge(db, u))
    ensures item !in GetFridge(db, u) ==> r.1 == GetFridge(db, u) + [item]
    ensures IsSubsequence(r.1, GetFridge(db, u)) || r.1[..|r.1| - 1] == GetFridge(db, u)
    ensures r.0 == db.(fridgeItems := r.0.fridgeItems)
    ensures forall k :: k != u ==> GetFridge(r.0, k) == GetFridge(db, k) && (k in r.0.fridgeItems <==> k in db.fridgeItems)
  {
    var current := GetFridge(db, u);
    var next := if item in current then Filter(current, (i: string) => i != item) else current + [item];
    assert item !in current ==> next[..|next| - 1] == current;
    (db.(fridgeItems := db.fridgeItems[u := next]), next)
  }

  /** Toggling an item twice restores whether it is in the fridge; when it was missing, the
      fridge is exactly as before. */
  lemma {:induction false} ToggleFridgeTwice(db: DB, u: string, item: string)
    ensures var twice := ToggleFridgeItem(ToggleFridgeItem(db, u, item).0, u, item).1;
            (item in twice <==> item in GetFridge(db, u))
            && (forall x :: x in twice <==> x in GetFridge(db, u))
            && (item !in GetFridge(db, u) ==> twice == GetFridge(db, u))
  {
    var current := GetFridge(db, u);
    if item !in current {
      FilterAppend(current, [item], (i: string) => i != item);
      FilterKeepsAll(current, (i: string) => i != item);
      IsSubsequenceOfSameLength(Filter(current, (i: string) => i != item), current);
    }
  }

  /** A subsequence as long as the sequence is the sequence itself. */
  lemma {:induction false} IsSubsequenceOfSameLength<T>(r: seq<T>, s: seq<T>)
    requires IsSubsequence(r, s) && |r| == |s|
    ensures r == s
    decreases |s|
  {
    if |r| > 0 {
      if r[0] == s[0] {
        IsSubsequenceOfSameLength(r[1..], s[1..]);
        assert r == [r[0]] + r[1..];
        assert s == [s[0]] + s[1..];
      } else {
        SubsequenceLength(r, s[1..]);
      }
    }
  }

  lemma {:induction false} SubsequenceLength<T>(r: seq<T>, s: seq<T>)
    requires IsSubsequence(r, s)
    ensures |r| <= |s|
    decreases |s|
  {
    if |r| > 0 {
      if r[0] == s[0] {
        SubsequenceLength(r[1..], s[1..]);
      } else {
        SubsequenceLength(r, s[1..]);
      }
    }
  }

  // ---------------------------------------------------------- likes/dislikes

  /** The catalog recipes whose ids are in `ids`, in catalog order. */
  function RecipesWithIds(catalog: seq<Recipe>, ids: seq<int>): (r: seq<Recipe>)
    ensures forall x :: x in r <==> x in catalog && x.id in ids
    ensures IsSubsequence(r, catalog)
  {
    Filter(catalog, (x: Recipe) => x.id in ids)
  }

  function GetLikedRecipes(db: DB, u: string, catalog: seq<Recipe>): (r: seq<Recipe>)
    ensures forall x :: x in r <==> x in catalog && x.id in Get(db.likedRecipes, u, [])
  {
    RecipesWithIds(catalog, Get(db.likedRecipes, u, []))
  }

  function GetDislikedRecipes(db: DB, u: string, catalog: seq<Recipe>): (r: seq<Recipe>)
    ensures forall x :: x in r <==> x in catalog && x.id in Get(db.dislikedRecipes, u, [])
  {
    RecipesWithIds(catalog, Get(db.dislikedRecipes, u, []))
  }

  /** Appends `id` to an id list unless it is already there. */
  function AddId(ids: seq<int>, id: int): (r: seq<int>)
    ensures id in r && forall x :: x in r <==> x in ids || x == id
    ensures id in ids ==> r == ids
    ensures NoDup(ids) ==> NoDup(r)
    ensures IsSubsequence(ids, r) || ids == r
  {
    if id in ids then ids
    else
      assert forall i :: 0 <= i < |ids| ==> (ids + [id])[i] == ids[i];
      PrefixIsSubsequence(ids, [id]);
      ids + [id]
  }

  lemma {:induction false} PrefixIsSubsequence<T>(a: seq<T>, b: seq<T>)
    ensures IsSubsequence(a, a + b)
    decreases |a|
  {
    if |a| > 0 {
      PrefixIsSubsequence(a[1..], b);
      assert (a + b)[1..] == a[1..] + b;
    }
  }

  /** Records a like; an id liked before leaves the store unchanged. */
  function AddLikedRecipe(db: DB, u: string, id: int): (r: DB)
    ensures u in r.likedRecipes && r.likedRecipes[u] == AddId(Get(db.likedRecipes, u, []), id)
    ensures id in Get(db.likedRecipes, u, []) ==> r == db
    ensures r == db.(likedRecipes := r.likedRecipes)
    ensures forall k :: k != u ==> (k in r.likedRecipes <==> k in db.likedRecipes)
                                   && Get(r.likedRecipes, k, []) == Get(db.likedRecipes, k, [])
  {
    var current := Get(db.likedRecipes, u, []);
    if id in current then db else db.(likedRecipes := db.likedRecipes[u := current + [id]])
  }

  /** Records a dislike; an id disliked before leaves the store unchanged. */
  function AddDislikedRecipe(db: DB, u: string, id: int): (r: DB)
    ensures u in r.dislikedRecipes && r.dislikedRecipes[u] == AddId(Get(db.dislikedRecipes, u, []), id)
    ensures id in Get(db.dislikedRecipes, u, []) ==> r == db
    ensures r == db.(dislikedRecipes := r.dislikedRecipes)
    ensures forall k :: k != u ==> (k in r.dislikedRecipes <==> k in db.dislikedRecipes)
                                   && Get(r.dislikedRecipes, k, []) == Get(db.dislikedRecipes, k, [])
  {
    var current := Get(db.dislikedRecipes, u, []);
    if id in current then db else db.(dislikedRecipes := db.dislikedRecipes[u := current + [id]])
  }

  /** Liking twice is liking once, and a duplicate-free like list stays duplicate-free. */
  lemma AddLikedIdempotent(db: DB, u: string, id: int)
    ensures AddLikedRecipe(AddLikedRecipe(db, u, id), u, id) == AddLikedRecipe(db, u, id)
    ensures NoDup(Get(db.likedRecipes, u, [])) ==> NoDup(Get(AddLikedRecipe(db, u, id).likedRecipes, u, []))
  {
  }

  /** Disliking twice is disliking once, and a duplicate-free dislike list stays duplicate-free. */
  lemma AddDislikedIdempotent(db: DB, u: string, id: int)
    ensures AddDislikedRecipe(AddDislikedRecipe(db, u, id), u, id) == AddDislikedRecipe(db, u, id)
    ensures NoDup(Get(db.dislikedRecipes, u, [])) ==> NoDup(Get(AddDislikedRecipe(db, u, id).dislikedRecipes, u, []))
  {
  }

  /** After a like, the liked recipes are those liked before plus the catalog recipes with the
      new id. */
  lemma LikedRecipesAfterAdd(db: DB, u: string, id: int, catalog: seq<Recipe>)
    ensures forall x :: x in GetLikedRecipes(AddLikedRecipe(db, u, id), u, catalog)
              <==> x in GetLikedRecipes(db, u, catalog) || (x in catalog && x.id == id)
  {
  }

  // ------------------------------------------------------------ legacy plan

  /** The stored plan, or 14 empty slots. */
  function GetPlan(db: DB, u: string): (r: seq<Option<Recipe>>)
    ensures u in db.weeklyPlans ==> r == db.weeklyPlans[u]
    ensures u !in db.weeklyPlans ==> |r| == WEEKLY_PLAN_SLOTS && forall i :: 0 <= i < |r| ==> r[i].None?
  {
    Get(db.weeklyPlans, u, Nulls(WEEKLY_PLAN_SLOTS))
  }

  function SavePlan(db: DB, u: string, plan: seq<Option<Recipe>>): (r: DB)
    ensures r == db.(weeklyPlans := r.weeklyPlans)
    ensures forall k :: k != u ==> (k in r.weeklyPlans <==> k in db.weeklyPlans)
                                   && (k in r.weeklyPlans ==> r.weeklyPlans[k] == db.weeklyPlans[k])
    ensures u in r.weeklyPlans
  {
    db.(weeklyPlans := db.weeklyPlans[u := plan])
  }

  /** Saving a plan and reading it back gives the saved plan. */
  lemma SaveThenGetPlan(db: DB, u: string, plan: seq<Option<Recipe>>)
    ensures GetPlan(SavePlan(db, u, plan), u) == plan
  {
  }

  /** `plan[index] = recipe` on a JavaScript array: an index inside the array replaces that
      slot, an index past the end grows the array with empty slots up to it, and a negative
      index is a property, not an element, so the slots stay as they are. */
  function SetSlot(plan: seq<Option<Recipe>>, index: int, recipe: Recipe): (r: seq<Option<Recipe>>)
    ensures index < 0 ==> r == plan
    ensures index >= 0 ==> |r| == if index < |plan| then |plan| else index + 1
    ensures index >= 0 ==> r[index] == Some(recipe)
    ensures forall i :: 0 <= i < |r| && i != index ==> r[i] == if i < |plan| then plan[i] else None
  {
    if index < 0 then plan
    else if index < |plan| then plan[index := Some(recipe)]
    else plan + Nulls(index - |plan|) + [Some(recipe)]
  }

  /** Puts `recipe` in slot `index` of the user's plan (14 empty slots when none is stored). */
  function UpdatePlanSlot(db: DB, u: string, index: int, recipe: Recipe): (r: DB)
    ensures 0 <= index ==> index < |GetPlan(r, u)| && GetPlan(r, u)[index] == Some(recipe)
    ensures 0 <= index < WEEKLY_PLAN_SLOTS && u !in db.weeklyPlans ==> |GetPlan(r, u)| == WEEKLY_PLAN_SLOTS
    ensures forall i :: 0 <= i < |GetPlan(r, u)| && i != index ==>
              GetPlan(r, u)[i] == if i < |GetPlan(db, u)| then GetPlan(db, u)[i] else None
    ensures r == db.(weeklyPlans := r.weeklyPlans)
    ensures forall k :: k != u ==> GetPlan(r, k) == GetPlan(db, k)
  {
    SavePlan(db, u, SetSlot(GetPlan(db, u), index, recipe))
  }

  /** Updating a slot inside the plan changes that slot only. */
  lemma UpdateSlotChangesOneSlot(db: DB, u: string, index: int, recipe: Recipe)
    requires 0 <= index < |GetPlan(db, u)|
    ensures GetPlan(UpdatePlanSlot(db, u, index, recipe), u) == GetPlan(db, u)[index := Some(recipe)]
  {
  }

  // ------------------------------------------------------------ meal-set plan

  /** The stored meal-set plan. A user without one, but with a legacy plan that has a filled
      slot, gets an explicit "no plan" entry recorded (the legacy shape cannot be migrated);
      either way the result is then "no plan". */
  function GetWeeklyPlan(db: DB, u: string): (r: (DB, Option<WeeklyPlan>))
    ensures u in db.weeklyPlansV2 ==> r == (db, db.weeklyPlansV2[u])
    ensures u !in db.weeklyPlansV2 ==> r.1.None?
    ensures (u !in db.weeklyPlansV2 && u in db.weeklyPlans && exists i :: 0 <= i < |db.weeklyPlans[u]| && db.weeklyPlans[u][i].Some?)
              ==> r.0 == db.(weeklyPlansV2 := db.weeklyPlansV2[u := None])
    ensures r.0 == db || r.0 == db.(weeklyPlansV2 := db.weeklyPlansV2[u := None])
  {
    if u in db.weeklyPlansV2 then (db, db.weeklyPlansV2[u])
    else if u in db.weeklyPlans && exists i :: 0 <= i < |db.weeklyPlans[u]| && db.weeklyPlans[u][i].Some? then
      (db.(weeklyPlansV2 := db.weeklyPlansV2[u := None]), None)
    else (db, None)
  }

  function SaveWeeklyPlan(db: DB, u: string, plan: Option<WeeklyPlan>): (r: DB)
    ensures u in r.weeklyPlansV2
    ensures r == db.(weeklyPlansV2 := r.weeklyPlansV2)
    ensures forall k :: k != u ==> (k in r.weeklyPlansV2 <==> k in db.weeklyPlansV2)
                                   && (k in r.weeklyPlansV2 ==> r.weeklyPlansV2[k] == db.weeklyPlansV2[k])
  {
    db.(weeklyPlansV2 := db.weeklyPlansV2[u := plan])
  }

  /** Saving a meal-set plan and reading it back gives the saved plan and changes nothing. */
  lemma SaveThenGetWeeklyPlan(db: DB, u: string, plan: Option<WeeklyPlan>)
    ensures GetWeeklyPlan(SaveWeeklyPlan(db, u, plan), u) == (SaveWeeklyPlan(db, u, plan), plan)
  {
  }

  /** Reading the meal-set plan twice gives the same answer. */
  lemma GetWeeklyPlanStable(db: DB, u: string)
    ensures GetWeeklyPlan(GetWeeklyPlan(db, u).0, u).1 == GetWeeklyPlan(db, u).1
  {
  }

  // --------------------------------------------------------- shopping checks

  /** The user's shopping checks, or none when nothing was stored. */
  function GetShoppingChecks(db: DB, u: string): (checks: map<string, bool>)
    ensures u in db.shoppingChecks ==> checks == db.shoppingChecks[u]
    ensures u !in db.shoppingChecks ==> checks == map[]
  {
    Get(db.shoppingChecks, u, map[])
  }

  /** Flips the check of one shopping item (a missing check reads as unchecked) and returns
      the user's checks. */
  function ToggleShoppingCheck(db: DB, u: string, item: string): (r: (DB, map<string, bool>))
    ensures r.1 == GetShoppingChecks(r.0, u)
    ensures Flag(r.1, item) == !Flag(GetShoppingChecks(db, u), item)
    ensures item in r.1
    ensures forall k :: k != item ==> (k in r.1 <==> k in GetShoppingChecks(db, u))
                                      && (k in r.1 ==> r.1[k] == GetShoppingChecks(db, u)[k])
    ensures r.0 == db.(shoppingChecks := r.0.shoppingChecks)
    ensures forall k :: k != u ==> GetShoppingChecks(r.0, k) == GetShoppingChecks(db, k)
  {
    var checks := GetShoppingChecks(db, u);
    var next := checks[item := !Flag(checks, item)];
    (db.(shoppingChecks := db.shoppingChecks[u := next]), next)
  }

  /** Checking an item twice restores its state. */
  lemma ToggleShoppingTwice(db: DB, u: string, item: string)
    ensures Flag(ToggleShoppingCheck(ToggleShoppingCheck(db, u, item).0, u, item).1, item)
         == Flag(GetShoppingChecks(db, u), item)
  {
  }

  // ------------------------------------------------------------ finished meals

  /** The legacy "today finished" flag; false when nothing was stored. */
  function GetTodayFinished(db: DB, u: string): (b: bool)
    ensures u in db.todayMealFinished ==> b == db.todayMealFinished[u]
    ensures u !in db.todayMealFinished ==> !b
  {
    Get(db.todayMealFinished, u, false)
  }

  /** Flips the legacy "today finished" flag and returns its new value. */
  function ToggleTodayFinished(db: DB, u: string): (r: (DB, bool))
    ensures r.1 == GetTodayFinished(r.0, u) == !GetTodayFinished(db, u)
    ensures r.0 == db.(todayMealFinished := r.0.todayMealFinished)
    ensures forall k :: k != u ==> GetTodayFinished(r.0, k) == GetTodayFinished(db, k)
  {
    var next := !GetTodayFinished(db, u);
    (db.(todayMealFinished := db.todayMealFinished[u := next]), next)
  }

  /** Flipping the "today finished" flag twice restores it. */
  lemma ToggleTodayTwice(db: DB, u: string)
    ensures GetTodayFinished(ToggleTodayFinished(ToggleTodayFinished(db, u).0, u).0, u) == GetTodayFinished(db, u)
    ensures ToggleTodayFinished(ToggleTodayFinished(db, u).0, u).1 == GetTodayFinished(db, u)
  {
  }

  function MealName(meal: MealKind): string
  {
    match meal
    case LunchMeal => "lunch"
    case DinnerMeal => "dinner"
  }

  /** The completion key `<dateKey>-<meal>`. */
  function MealKey(dateKey: string, meal: MealKind): (k: string)
    ensures |k| == |dateKey| + 1 + |MealName(meal)|
    ensures k[..|dateKey|] == dateKey
  {
    dateKey + "-" + MealName(meal)
  }

  /** Distinct (date, meal) pairs get distinct keys, so toggling one meal never touches
      another. */
  lemma MealKeyInjective(d1: string, m1: MealKind, d2: string, m2: MealKind)
    requires MealKey(d1, m1) == MealKey(d2, m2)
    ensures d1 == d2 && m1 == m2
  {
    var k := MealKey(d1, m1);
    LastOfMealKey(d1, m1);
    LastOfMealKey(d2, m2);
    assert |d1| == |d2|;
    assert d1 == k[..|d1|] == d2;
  }

  /** The key's last letter tells the meal apart. */
  lemma LastOfMealKey(d: string, m: MealKind)
    ensures MealKey(d, m)[|MealKey(d, m)| - 1] == if m == LunchMeal then 'h' else 'r'
  {
    var k := MealKey(d, m);
    var name := MealName(m);
    assert k == (d + "-") + name;
    assert k[|k| - 1] == name[|name| - 1];
  }

  /** Whether a meal was marked finished; false when nothing was recorded. */
  function GetMealFinished(db: DB, u: string, dateKey: string, meal: MealKind): (b: bool)
    ensures u !in db.mealFinished ==> !b
    ensures u in db.mealFinished ==> (b <==> MealKey(dateKey, meal) in db.mealFinished[u]
                                              && db.mealFinished[u][MealKey(dateKey, meal)])
  {
    u in db.mealFinished && Flag(db.mealFinished[u], MealKey(dateKey, meal))
  }

  /** Flips whether one meal is finished and returns the new value. */
  function ToggleMealFinished(db: DB, u: string, dateKey: string, meal: MealKind): (r: (DB, bool))
    ensures r.1 == GetMealFinished(r.0, u, dateKey, meal) == !GetMealFinished(db, u, dateKey, meal)
    ensures forall d, m :: (d, m) != (dateKey, meal) ==> GetMealFinished(r.0, u, d, m) == GetMealFinished(db, u, d, m)
    ensures forall k, d, m :: k != u ==> GetMealFinished(r.0, k, d, m) == GetMealFinished(db, k, d, m)
    ensures r.0 == db.(mealFinished := r.0.mealFinished)
  {
    var flags := Get(db.mealFinished, u, map[]);
    var key := MealKey(dateKey, meal);
    var next := !Flag(flags, key);
    var r := db.(mealFinished := db.mealFinished[u := flags[key := next]]);
    assert forall d, m :: (d, m) != (dateKey, meal) ==> MealKey(d, m) != key by {
      forall d, m | (d, m) != (dateKey, meal) ensures MealKey(d, m) != key {
        if MealKey(d, m) == key {
          MealKeyInjective(d, m, dateKey, meal);
        }
      }
    }
    (r, next)
  }

  /** Toggling the same meal twice restores whether it is finished. */
  lemma ToggleMealTwice(db: DB, u: string, dateKey: string, meal: MealKind)
    ensures GetMealFinished(ToggleMealFinished(ToggleMealFinished(db, u, dateKey, meal).0, u, dateKey, meal).0, u, dateKey, meal)
         == GetMealFinished(db, u, dateKey, meal)
  {
  }

  // --------------------------------------------------------- session/account

  /** Clears the likes, dislikes and legacy "today finished" flag; fridge, plans and shopping
      checks are kept. */
  function ResetSession(db: DB, u: string): (r: DB)
    ensures Get(r.likedRecipes, u, [0]) == [] && Get(r.dislikedRecipes, u, [0]) == []
    ensures GetTodayFinished(r, u) == false
    ensures r.users == db.users && r.fridgeItems == db.fridgeItems && r.weeklyPlans == db.weeklyPlans
    ensures r.weeklyPlansV2 == db.weeklyPlansV2 && r.shoppingChecks == db.shoppingChecks
    ensures r.mealFinished == db.mealFinished
    ensures forall k :: k != u ==> Get(r.likedRecipes, k, []) == Get(db.likedRecipes, k, [])
                                   && Get(r.dislikedRecipes, k, []) == Get(db.dislikedRecipes, k, [])
                                   && GetTodayFinished(r, k) == GetTodayFinished(db, k)
  {
    db.(likedRecipes := db.likedRecipes[u := []],
        dislikedRecipes := db.dislikedRecipes[u := []],
        todayMealFinished := db.todayMealFinished[u := false])
  }

  /** Forgets the account in every table; other accounts are untouched. */
  function DeleteAccount(db: DB, u: string): (r: DB)
    ensures Absent(r, u)
    ensures GetUser(r, u).None? && GetFridge(r, u) == [] && GetPlan(r, u) == Nulls(WEEKLY_PLAN_SLOTS)
    ensures forall k :: k != u ==> GetUser(r, k) == GetUser(db, k) && GetFridge(r, k) == GetFridge(db, k)
                                   && GetPlan(r, k) == GetPlan(db, k)
                                   && Get(r.likedRecipes, k, []) == Get(db.likedRecipes, k, [])
                                   && Get(r.dislikedRecipes, k, []) == Get(db.dislikedRecipes, k, [])
                                   && GetShoppingChecks(r, k) == GetShoppingChecks(db, k)
                                   && GetTodayFinished(r, k) == GetTodayFinished(db, k)
                                   && (forall d, m :: GetMealFinished(r, k, d, m) == GetMealFinished(db, k, d, m))
    ensures forall k :: k != u ==> SameAccount(r, db, k)
  {
    var r := DB(db.users - {u}, db.fridgeItems - {u}, db.weeklyPlans - {u}, db.weeklyPlansV2 - {u},
                db.likedRecipes - {u}, db.dislikedRecipes - {u}, db.shoppingChecks - {u},
                db.todayMealFinished - {u}, db.mealFinished - {u});
    DropKeepsOthers(db.users, u);
    DropKeepsOthers(db.fridgeItems, u);
    DropKeepsOthers(db.weeklyPlans, u);
    DropKeepsOthers(db.weeklyPlansV2, u);
    DropKeepsOthers(db.likedRecipes, u);
    DropKeepsOthers(db.dislikedRecipes, u);
    DropKeepsOthers(db.shoppingChecks, u);
    DropKeepsOthers(db.todayMealFinished, u);
    DropKeepsOthers(db.mealFinished, u);
    OthersRead(r, db, u);
    r
  }

  /** Removing `u` from a table leaves every other entry as it was. */
  lemma DropKeepsOthers<V>(m: map<string, V>, u: string)
    ensures forall k :: k != u ==> SameEntry(m - {u}, m, k)
  {
  }

  /** Writing `u`'s entry of a table leaves every other entry as it was. */
  lemma PutKeepsOthers<V>(m: map<string, V>, u: string, v: V, m': map<string, V>)
    requires m' == m[u := v]
    ensures forall k :: k != u ==> SameEntry(m', m, k)
  {
  }

  /** Stores that agree on every account but `u` give the same reads for those accounts. */
  lemma OthersRead(a: DB, b: DB, u: string)
    requires forall k :: k != u ==> SameAccount(a, b, k)
    ensures forall k :: k != u ==> GetUser(a, k) == GetUser(b, k) && GetFridge(a, k) == GetFridge(b, k)
                                   && GetPlan(a, k) == GetPlan(b, k)
                                   && Get(a.likedRecipes, k, []) == Get(b.likedRecipes, k, [])
                                   && Get(a.dislikedRecipes, k, []) == Get(b.dislikedRecipes, k, [])
                                   && GetShoppingChecks(a, k) == GetShoppingChecks(b, k)
                                   && GetTodayFinished(a, k) == GetTodayFinished(b, k)
                                   && (forall d, m :: GetMealFinished(a, k, d, m) == GetMealFinished(b, k, d, m))
  {
    forall k | k != u
      ensures GetUser(a, k) == GetUser(b, k) && GetFridge(a, k) == GetFridge(b, k)
              && GetPlan(a, k) == GetPlan(b, k)
              && Get(a.likedRecipes, k, []) == Get(b.likedRecipes, k, [])
              && Get(a.dislikedRecipes, k, []) == Get(b.dislikedRecipes, k, [])
              && GetShoppingChecks(a, k) == GetShoppingChecks(b, k)
              && GetTodayFinished(a, k) == GetTodayFinished(b, k)
              && (forall d, m :: GetMealFinished(a, k, d, m) == GetMealFinished(b, k, d, m))
    {
      assert SameAccount(a, b, k);
    }
  }

  /** After deletion, signing in again starts from scratch: the account is new again. */
  lemma DeleteThenInitIsFresh(db: DB, user: User)
    ensures var r := InitUserData(DeleteAccount(db, user.id), user);
            GetFridge(r, user.id) == MOCK_FRIDGE && GetUser(r, user.id).value.preferences.None?
            && Get(r.likedRecipes, user.id, [0]) == [] && GetPlan(r, user.id) == Nulls(WEEKLY_PLAN_SLOTS)
  {
  }
}
