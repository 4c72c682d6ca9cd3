/**
 * The weekly meal planner component: a plan of one `[lunch, dinner]` row per
 * working day, drawn at random from a meal catalogue, that the user can
 * regenerate, edit slot by slot, and view either as a "generate" prompt
 * (while empty) or as a table.
 */
module MealPlanning {
  import opened Options

  /** The days the plan covers, in table order. */
  const WeekDays: seq<string> := ["Lunes", "Martes", "Miércoles", "Jueves", "Viernes"]

  /** Each row holds a lunch and a dinner. */
  const MealsPerDay: nat := 2

  /**
   * `getRandomMeal`: an index drawn uniformly from `[0, |availableMeals|)`
   * (chosen here nondeterministically) and the meal at it. On an empty list
   * the index is 0 and the lookup is `undefined`.
   */
  method RandomMeal(availableMeals: seq<string>) returns (randomIndex: nat, meal: Option<string>)
    ensures meal.None? <==> |availableMeals| == 0
    ensures |availableMeals| == 0 ==> randomIndex == 0
    ensures |availableMeals| > 0 ==> randomIndex < |availableMeals| && meal == Some(availableMeals[randomIndex])
  {
    if |availableMeals| == 0 {
      randomIndex, meal := 0, None;
    } else {
      randomIndex :| 0 <= randomIndex < |availableMeals|;
      meal := Some(availableMeals[randomIndex]);
    }
  }

  /** A plan has one row per week day and two slots per row. */
  predicate IsWeekShape(plan: seq<seq<string>>)
  {
    |plan| == |WeekDays| && forall d :: 0 <= d < |plan| ==> |plan[d]| == MealsPerDay
  }

  /** A full plan whose every slot holds a meal of the catalogue. */
  predicate IsWeekPlan(plan: seq<seq<string>>, meals: seq<string>)
  {
    IsWeekShape(plan)
    && forall d, m :: 0 <= d < |plan| && 0 <= m < |plan[d]| ==> plan[d][m] in meals
  }

  /** The plan with slot `m` of day `d` set to `meal`. */
  function WithMeal(plan: seq<seq<string>>, d: nat, m: nat, meal: string): (r: seq<seq<string>>)
    requires d < |plan| && m < |plan[d]|
    ensures |r| == |plan| && forall e :: 0 <= e < |r| ==> |r[e]| == |plan[e]|
    ensures r[d][m] == meal
    ensures forall e, n :: 0 <= e < |r| && 0 <= n < |r[e]| && (e != d || n != m) ==> r[e][n] == plan[e][n]
  {
    plan[d := plan[d][m := meal]]
  }

  /** Replacing one slot by a catalogue meal keeps a full plan full. */
  lemma WithMealKeepsWeekPlan(plan: seq<seq<string>>, meals: seq<string>, d: nat, m: nat, meal: string)
    requires IsWeekPlan(plan, meals) && d < |plan| && m < |plan[d]| && meal in meals
    ensures IsWeekPlan(WithMeal(plan, d, m, meal), meals)
  {
  }

  /**
   * Nothing ties the draws together: any meal of the catalogue may fill every
   * slot, so lunch may equal dinner and meals may repeat across days.
   */
  lemma SameMealEverywhereIsWeekPlan(meals: seq<string>, meal: string)
    requires meal in meals
    ensures IsWeekPlan(seq(|WeekDays|, _ => [meal, meal]), meals)
  {
  }

  /** Every draw is an index into the catalogue. */
  predicate DrawsIn(picks: seq<(nat, nat)>, meals: seq<string>)
  {
    forall d :: 0 <= d < |picks| ==> picks[d].0 < |meals| && picks[d].1 < |meals|
  }

  /** The plan that a lunch index and a dinner index per day select. */
  function PlanOf(meals: seq<string>, picks: seq<(nat, nat)>): (r: seq<seq<string>>)
    requires DrawsIn(picks, meals)
    ensures |r| == |picks|
    ensures forall d :: 0 <= d < |r| ==> r[d] == [meals[picks[d].0], meals[picks[d].1]]
  {
    seq(|picks|, d requires 0 <= d < |picks| => [meals[picks[d].0], meals[picks[d].1]])
  }

  /** Some index at which `meal` sits in the catalogue. */
  function Position(meals: seq<string>, meal: string): (i: nat)
    requires meal in meals
    ensures i < |meals| && meals[i] == meal
  {
    if meals[0] == meal then 0 else 1 + Position(meals[1..], meal)
  }

  /**
   * The draws are independent: a week of draws gives a full plan, and every
   * full plan of catalogue meals (repeats and equal lunch and dinner included)
   * is what some week of draws gives.
   */
  lemma PlansAreDraws(plan: seq<seq<string>>, meals: seq<string>)
    ensures forall picks :: |picks| == |WeekDays| && DrawsIn(picks, meals) ==> IsWeekPlan(PlanOf(meals, picks), meals)
    ensures IsWeekPlan(plan, meals) ==>
      exists picks :: |picks| == |WeekDays| && DrawsIn(picks, meals) && PlanOf(meals, picks) == plan
  {
    if IsWeekPlan(plan, meals) {
      var picks := seq(|plan|, d requires 0 <= d < |plan| =>
        (Position(meals, plan[d][0]), Position(meals, plan[d][1])));
      assert DrawsIn(picks, meals);
      assert forall d :: 0 <= d < |plan| ==> plan[d] == [plan[d][0], plan[d][1]];
      assert PlanOf(meals, picks) == plan;
    }
  }

  /** One table row: the day's name and its two meals. */
  datatype DayRow = DayRow(day: string, meals: seq<string>)

  /**
   * What the component shows: only the "generate" button while the plan is
   * empty; otherwise the "new plan" button, the edit (pencil) or save button
   * according to `editing`, and the table, whose cells carry a replace button
   * while `editing`.
   */
  datatype View = GeneratePrompt | PlanTable(rows: seq<DayRow>, editing: bool)

  /** The component's rendering, reduced to the choices it makes. */
  function Render(plan: seq<seq<string>>, isEditing: bool): (v: View)
    requires |plan| == 0 || IsWeekShape(plan)
    ensures v.GeneratePrompt? <==> |plan| == 0
    ensures v.PlanTable? ==> v.editing == isEditing && |v.rows| == |WeekDays|
    ensures v.PlanTable? ==> forall d :: 0 <= d < |v.rows| ==> v.rows[d] == DayRow(WeekDays[d], plan[d])
  {
    if |plan| == 0 then GeneratePrompt
    else
      var rows := seq(|WeekDays|, d requires 0 <= d < |WeekDays| => DayRow(WeekDays[d], [plan[d][0], plan[d][1]]));
      assert forall d :: 0 <= d < |rows| ==> rows[d].meals == plan[d] by {
        forall d | 0 <= d < |rows| ensures rows[d].meals == plan[d] {
          assert |plan[d]| == 2;
        }
      }
      PlanTable(rows, isEditing)
  }

  /** The buttons a user can press. */
  datatype Action = Generate | ToggleEditing | Replace(dayIndex: nat, mealIndex: nat)

  /**
   * Which buttons the view offers: "generate" in both views, the edit/save
   * toggle with the table, and a replace button on every cell while editing.
   */
  predicate Enabled(v: View, a: Action)
  {
    match a
    case Generate => true
    case ToggleEditing => v.PlanTable?
    case Replace(d, m) => v.PlanTable? && v.editing && d < |v.rows| && m < |v.rows[d].meals|
  }

  /**
   * The buttons of the rendered view, in terms of the state: "generate" is
   * always there, the edit/save toggle exactly when a plan exists, and a
   * replace button exactly on the cells of a full plan while editing.
   */
  lemma EnabledButtons(plan: seq<seq<string>>, isEditing: bool, d: nat, m: nat)
    requires |plan| == 0 || IsWeekShape(plan)
    ensures Enabled(Render(plan, isEditing), Generate)
    ensures Enabled(Render(plan, isEditing), ToggleEditing) <==> |plan| > 0
    ensures Enabled(Render(plan, isEditing), Replace(d, m))
        <==> isEditing && |plan| > 0 && d < |WeekDays| && m < MealsPerDay
  {
  }

  /** A replace button is only offered on a full plan, while editing, within the table. */
  lemma EnabledReplaceInRange(plan: seq<seq<string>>, isEditing: bool, d: nat, m: nat)
    requires |plan| == 0 || IsWeekShape(plan)
    requires Enabled(Render(plan, isEditing), Replace(d, m))
    ensures isEditing && |plan| == |WeekDays| && d < |WeekDays| && m < MealsPerDay
  {
  }

  /** The contents of the plan's rows, read through the row arrays. */
  function Contents(rows: seq<array<string>>): (r: seq<seq<string>>)
    reads rows
    ensures |r| == |rows| && forall d :: 0 <= d < |rows| ==> r[d] == rows[d][..]
  {
    seq(|rows|, d requires 0 <= d < |rows| reads rows => rows[d][..])
  }

  /**
   * The component's state. `mealPlan` is the outer list of row arrays: the
   * rows are objects, because `replaceMeal` copies only the outer list and
   * writes into the row it shares with the current state.
   */
  class MealPlanner {
    /** The meal catalogue. */
    const meals: seq<string>
    var mealPlan: seq<array<string>>
    var isEditing: bool

    /** The plan as values. */
    function Plan(): seq<seq<string>>
      reads this, mealPlan
    {
      Contents(mealPlan)
    }

    /**
     * The state is empty or a full plan of catalogue meals, and no two days
     * share a row array (so writing one slot changes one slot).
     */
    predicate Valid()
      reads this, mealPlan
    {
      && |meals| > 0
      && (forall d, e :: 0 <= d < e < |mealPlan| ==> mealPlan[d] != mealPlan[e])
      && (|mealPlan| == 0 || IsWeekPlan(Plan(), meals))
    }

    function CurrentView(): View
      requires Valid()
      reads this, mealPlan
    {
      Render(Plan(), isEditing)
    }

    /** The initial state: an empty plan, not editing. */
    constructor (meals: seq<string>)
      requires |meals| > 0
      ensures this.meals == meals && mealPlan == [] && !isEditing
      ensures Valid() && CurrentView() == GeneratePrompt
    {
      this.meals := meals;
      mealPlan := [];
      isEditing := false;
    }

    /**
     * `generateMealPlan`: a new plan of fresh rows, each a lunch and a dinner
     * drawn independently from the whole catalogue; the old plan plays no part.
     */
    method GenerateMealPlan() returns (ghost picks: seq<(nat, nat)>)
      requires Valid()
      modifies this
      ensures Valid() && IsWeekPlan(Plan(), meals)
      ensures |picks| == |WeekDays| && DrawsIn(picks, meals) && Plan() == PlanOf(meals, picks)
      ensures forall d :: 0 <= d < |mealPlan| ==> fresh(mealPlan[d])
      ensures isEditing == old(isEditing)
      ensures CurrentView().PlanTable?
    {
      var newMealPlan: seq<array<string>> := [];
      picks := [];
      for d := 0 to |WeekDays|
        invariant |newMealPlan| == d && |picks| == d && isEditing == old(isEditing)
        invariant forall i :: 0 <= i < d ==> fresh(newMealPlan[i]) && newMealPlan[i].Length == MealsPerDay
        invariant forall i, m :: 0 <= i < d && 0 <= m < newMealPlan[i].Length ==> newMealPlan[i][m] in meals
        invariant forall i, j :: 0 <= i < j < d ==> newMealPlan[i] != newMealPlan[j]
        invariant DrawsIn(picks, meals)
        invariant forall i :: 0 <= i < d ==> newMealPlan[i][..] == [meals[picks[i].0], meals[picks[i].1]]
      {
        var lunchIndex, lunch := RandomMeal(meals);
        var dinnerIndex, dinner := RandomMeal(meals);
        var row := new string[] [lunch.value, dinner.value];
        newMealPlan := newMealPlan + [row];
        picks := picks + [(lunchIndex, dinnerIndex)];
      }
      mealPlan := newMealPlan;
    }

    /**
     * `replaceMeal(dayIndex, mealIndex)`: draws a catalogue meal (possibly the
     * same one) and writes it into that slot of the shared row; the new outer
     * list holds the same row arrays, and every other slot keeps its meal.
     */
    method ReplaceMeal(dayIndex: nat, mealIndex: nat)
      requires Valid() && |mealPlan| > 0
      requires dayIndex < |WeekDays| && mealIndex < MealsPerDay
      modifies this, mealPlan[dayIndex]
      ensures Valid()
      ensures mealPlan == old(mealPlan) && isEditing == old(isEditing)
      ensures Plan()[dayIndex][mealIndex] in meals
      ensures Plan() == WithMeal(old(Plan()), dayIndex, mealIndex, Plan()[dayIndex][mealIndex])
    {
      ghost var before := Plan();
      var newMealPlan := mealPlan;
      var _, meal := RandomMeal(meals);
      newMealPlan[dayIndex][mealIndex] := meal.value;
      mealPlan := newMealPlan;
      assert Plan() == WithMeal(before, dayIndex, mealIndex, meal.value) by {
        forall d | 0 <= d < |mealPlan| && d != dayIndex ensures Plan()[d] == before[d] {
          assert mealPlan[d] != mealPlan[dayIndex];
        }
      }
      WithMealKeepsWeekPlan(before, meals, dayIndex, mealIndex, meal.value);
    }

    /** `toggleEditing`: flips the edit flag and nothing else. */
    method ToggleEditing()
      modifies this`isEditing
      ensures isEditing == !old(isEditing)
    {
      isEditing := !isEditing;
    }

    /**
     * A press of any button the current view offers keeps the state valid,
     * and once a plan is shown it never goes back to the empty prompt.
     */
    method Dispatch(a: Action)
      requires Valid() && Enabled(CurrentView(), a)
      modifies this, mealPlan
      ensures Valid()
      ensures old(CurrentView()).PlanTable? ==> CurrentView().PlanTable?
      ensures a.Generate? ==> IsWeekPlan(Plan(), meals) && isEditing == old(isEditing)
      ensures a.ToggleEditing? ==> Plan() == old(Plan()) && isEditing == !old(isEditing)
      ensures a.Replace? ==> isEditing == old(isEditing) && a.dayIndex < |WeekDays| && a.mealIndex < MealsPerDay
      ensures a.Replace? ==> Plan()[a.dayIndex][a.mealIndex] in meals
      ensures a.Replace? ==> Plan() == WithMeal(old(Plan()), a.dayIndex, a.mealIndex, Plan()[a.dayIndex][a.mealIndex])
    {
      match a
      case Generate =>
        ghost var picks := GenerateMealPlan();
      case ToggleEditing =>
        ToggleEditing();
      case Replace(d, m) =>
        EnabledReplaceInRange(Plan(), isEditing, d, m);
        ReplaceMeal(d, m);
    }
  }

  /**
   * A session: the component opens on the prompt, a generated plan is shown
   * as a table, and pressing the edit button twice leaves editing as it was.
   */
  method Session(meals: seq<string>) returns (planner: MealPlanner)
    requires |meals| > 0
    ensures planner.Valid() && IsWeekPlan(planner.Plan(), meals)
    ensures planner.CurrentView().PlanTable? && !planner.isEditing
  {
    planner := new MealPlanner(meals);
    assert planner.CurrentView() == GeneratePrompt;
    ghost var picks := planner.GenerateMealPlan();
    planner.ToggleEditing();
    planner.ToggleEditing();
  }
}
