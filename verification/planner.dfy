/**
 The meal planner's state and its transitions, one pure function per event
 handler of the `Home` component: tab buttons, a card click, the modal's
 week buttons (`addToWeek`), its Cancel button, and a week card's Remove
 button (`removeMeal`). Each handler is one atomic step.
 */
module Planner {
  import opened Meals

  /** `null` or a value, as the selected meal is. */
  datatype Option<T> = None | Some(value: T)

  /** The four fixed week keys of the `weeks` object. */
  datatype WeekId = Week1 | Week2 | Week3 | Week4

  /** The five tabs: "all" and one per week. */
  datatype Tab = AllMeals | WeekTab(week: WeekId)

  /** The tab buttons in the order they are rendered. */
  const Tabs: seq<Tab> := [AllMeals, WeekTab(Week1), WeekTab(Week2), WeekTab(Week3), WeekTab(Week4)]

  /** The `weeks` object: one meal list per week. */
  datatype Plan = Plan(week1: seq<Meal>, week2: seq<Meal>, week3: seq<Meal>, week4: seq<Meal>)
  {
    /** `weeks[w]` */
    function Get(w: WeekId): seq<Meal>
    {
      match w
      case Week1 => week1
      case Week2 => week2
      case Week3 => week3
      case Week4 => week4
    }

    /** `{ ...weeks, [w]: ms }`: replaces week `w` and keeps every other week. */
    function Set(w: WeekId, ms: seq<Meal>): (p: Plan)
      ensures p.Get(w) == ms
      ensures forall v | v != w :: p.Get(v) == Get(v)
    {
      match w
      case Week1 => this.(week1 := ms)
      case Week2 => this.(week2 := ms)
      case Week3 => this.(week3 := ms)
      case Week4 => this.(week4 := ms)
    }
  }

  const EmptyPlan: Plan := Plan([], [], [], [])

  /** Two plans that agree on every week are the same plan. */
  lemma PlanExtensional(p: Plan, q: Plan)
    requires forall w :: p.Get(w) == q.Get(w)
    ensures p == q
  {
    assert p.Get(Week1) == q.Get(Week1) && p.Get(Week2) == q.Get(Week2);
    assert p.Get(Week3) == q.Get(Week3) && p.Get(Week4) == q.Get(Week4);
  }

  /** The component's state hooks, less the recipe catalog. */
  datatype State = State(activeTab: Tab, weeks: Plan, selectedMeal: Option<Meal>, showModal: bool)

  /** The state on first render: "all" tab, empty weeks, nothing selected, modal closed. */
  const Init: State := State(AllMeals, EmptyPlan, None, false)

  /** The week-choice modal is rendered iff `showModal && selectedMeal`. */
  predicate ModalVisible(s: State)
  {
    s.showModal && s.selectedMeal.Some?
  }

  /** A tab button: shows tab `t`, whatever was shown before, and touches nothing else. */
  function SelectTab(s: State, t: Tab): (r: State)
    ensures r.activeTab == t
    ensures r.weeks == s.weeks && r.selectedMeal == s.selectedMeal && r.showModal == s.showModal
  {
    s.(activeTab := t)
  }

  /** A card click: selects `meal` and opens the week-choice modal. */
  function ClickCard(s: State, meal: Meal): (r: State)
    ensures ModalVisible(r) && r.selectedMeal == Some(meal)
    ensures r.weeks == s.weeks && r.activeTab == s.activeTab
  {
    s.(selectedMeal := Some(meal), showModal := true)
  }

  /** Cancel: hides the modal and keeps the selection. */
  function Cancel(s: State): (r: State)
    ensures !r.showModal && !ModalVisible(r)
    ensures r.selectedMeal == s.selectedMeal && r.weeks == s.weeks && r.activeTab == s.activeTab
  {
    s.(showModal := false)
  }

  /**
   `addToWeek(w)`: appends the selected meal to week `w` unless a meal with
   its id is already there, then closes the modal. The selection stays.
   */
  function AddToWeek(s: State, w: WeekId): (r: State)
    requires s.selectedMeal.Some?
    ensures var m := s.selectedMeal.value;
      && HasId(r.weeks.Get(w), m.id)
      && (!HasId(s.weeks.Get(w), m.id) ==> r.weeks.Get(w) == s.weeks.Get(w) + [m])
      && (HasId(s.weeks.Get(w), m.id) ==> r.weeks.Get(w) == s.weeks.Get(w))
    ensures forall v | v != w :: r.weeks.Get(v) == s.weeks.Get(v)
    ensures !r.showModal && r.selectedMeal == s.selectedMeal && r.activeTab == s.activeTab
  {
    var m := s.selectedMeal.value;
    var week := s.weeks.Get(w);
    var weeks := if HasId(week, m.id) then s.weeks else s.weeks.Set(w, week + [m]);
    assert (week + [m])[|week|] == m;
    s.(weeks := weeks, showModal := false)
  }

  /**
   `removeMeal(w, id)`: filters every meal with `id` out of week `w`; the
   survivors keep their order and every other week is untouched.
   */
  function RemoveMeal(s: State, w: WeekId, id: int): (r: State)
    ensures !HasId(r.weeks.Get(w), id)
    ensures forall m :: m in r.weeks.Get(w) <==> m in s.weeks.Get(w) && m.id != id
    ensures IsSubsequence(r.weeks.Get(w), s.weeks.Get(w))
    ensures multiset(r.weeks.Get(w)) <= multiset(s.weeks.Get(w))
    ensures |r.weeks.Get(w)| == |s.weeks.Get(w)| - CountId(s.weeks.Get(w), id)
    ensures forall v | v != w :: r.weeks.Get(v) == s.weeks.Get(v)
    ensures r.selectedMeal == s.selectedMeal && r.showModal == s.showModal && r.activeTab == s.activeTab
  {
    RemoveIdIsSubsequence(s.weeks.Get(w), id);
    RemoveIdCounts(s.weeks.Get(w), id);
    s.(weeks := s.weeks.Set(w, RemoveId(s.weeks.Get(w), id)))
  }

  /** Every one of the five tabs can be shown from any state. */
  lemma EveryTabReachable(s: State, t: Tab)
    ensures t in Tabs
    ensures SelectTab(s, t).activeTab == t
  {
    match t
    case AllMeals =>
    case WeekTab(w) =>
      match w
      case Week1 => assert Tabs[1] == t;
      case Week2 => assert Tabs[2] == t;
      case Week3 => assert Tabs[3] == t;
      case Week4 => assert Tabs[4] == t;
  }

  /** Adding keeps the ids of the target week unique. */
  lemma AddToWeekKeepsUnique(s: State, w: WeekId)
    requires s.selectedMeal.Some?
    requires UniqueIds(s.weeks.Get(w))
    ensures UniqueIds(AddToWeek(s, w).weeks.Get(w))
  {
    var m := s.selectedMeal.value;
    var week := s.weeks.Get(w);
    if !HasId(week, m.id) {
      var r := week + [m];
      forall i, j | 0 <= i < j < |r| ensures r[i].id != r[j].id {
        if j == |week| {
          assert r[i] == week[i];
        } else {
          assert r[i] == week[i] && r[j] == week[j];
        }
      }
    }
  }

  /** Choosing the same week twice in a row adds the meal once. */
  lemma AddToWeekIdempotent(s: State, w: WeekId)
    requires s.selectedMeal.Some?
    ensures AddToWeek(AddToWeek(s, w), w) == AddToWeek(s, w)
  {
    var once := AddToWeek(s, w);
    PlanExtensional(AddToWeek(once, w).weeks, once.weeks);
  }

  /** Removing an id no meal of the week carries changes nothing at all. */
  lemma RemoveMealAbsent(s: State, w: WeekId, id: int)
    requires !HasId(s.weeks.Get(w), id)
    ensures RemoveMeal(s, w, id) == s
  {
    RemoveIdAbsent(s.weeks.Get(w), id);
    PlanExtensional(RemoveMeal(s, w, id).weeks, s.weeks);
  }

  /** Removing the same id twice is removing it once. */
  lemma RemoveMealIdempotent(s: State, w: WeekId, id: int)
    ensures RemoveMeal(RemoveMeal(s, w, id), w, id) == RemoveMeal(s, w, id)
  {
    RemoveMealAbsent(RemoveMeal(s, w, id), w, id);
  }

  /** Removing keeps the ids of the week unique. */
  lemma RemoveMealKeepsUnique(s: State, w: WeekId, id: int)
    requires UniqueIds(s.weeks.Get(w))
    ensures UniqueIds(RemoveMeal(s, w, id).weeks.Get(w))
  {
    RemoveIdKeepsUnique(s.weeks.Get(w), id);
  }

  /** In a week with unique ids, removing the meal at position `k` deletes just that card. */
  lemma RemoveMealAt(s: State, w: WeekId, k: int)
    requires UniqueIds(s.weeks.Get(w))
    requires 0 <= k < |s.weeks.Get(w)|
    ensures var week := s.weeks.Get(w);
      RemoveMeal(s, w, week[k].id).weeks.Get(w) == week[..k] + week[k + 1..]
  {
    var week := s.weeks.Get(w);
    RemoveIdAt(week, k, week[k].id);
  }

  /** Removing a meal just added to a week where it was new restores the week plan. */
  lemma RemoveUndoesAdd(s: State, w: WeekId)
    requires s.selectedMeal.Some?
    requires !HasId(s.weeks.Get(w), s.selectedMeal.value.id)
    ensures RemoveMeal(AddToWeek(s, w), w, s.selectedMeal.value.id).weeks == s.weeks
  {
    var m := s.selectedMeal.value;
    var week := s.weeks.Get(w);
    var r := RemoveMeal(AddToWeek(s, w), w, m.id);
    calc {
      r.weeks.Get(w);
      RemoveId(week + [m], m.id);
      { RemoveIdAppend(week, [m], m.id); }
      RemoveId(week, m.id) + RemoveId([m], m.id);
      { RemoveIdAbsent(week, m.id); assert [m][1..] == []; }
      week;
    }
    PlanExtensional(r.weeks, s.weeks);
  }

  /** Cancelling right after a card click keeps the clicked meal selected and changes no week. */
  lemma CancelAfterClick(s: State, meal: Meal)
    ensures Cancel(ClickCard(s, meal)) == s.(selectedMeal := Some(meal), showModal := false)
  {
  }
}
