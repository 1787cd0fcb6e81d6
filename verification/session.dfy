/**
 A session of the planner: the user events the rendered page offers, when
 each is offered, and what holds in every state a run of them reaches from
 the first render. The fetched recipe catalog is a parameter.
 */
module Session {
  import opened Meals
  import opened Planner

  /** The clickable controls of the page. */
  datatype Event =
    | TabClick(tab: Tab)
    | CardClick(meal: Meal)
    | WeekClick(week: WeekId)
    | CancelClick
    | RemoveClick(week: WeekId, id: int)

  /**
   Which controls are on the page: tab buttons always; recipe cards only on
   the "all" tab; the modal's buttons only while it is visible; a Remove
   button for each meal of the week whose tab is shown.
   */
  predicate Enabled(s: State, e: Event, catalog: seq<Meal>)
  {
    match e
    case TabClick(_) => true
    case CardClick(meal) => s.activeTab == AllMeals && meal in catalog
    case WeekClick(_) => ModalVisible(s)
    case CancelClick => ModalVisible(s)
    case RemoveClick(w, id) => s.activeTab == WeekTab(w) && HasId(s.weeks.Get(w), id)
  }

  /** The handler each control runs. */
  function Step(s: State, e: Event): (r: State)
    requires e.WeekClick? ==> s.selectedMeal.Some?
  {
    match e
    case TabClick(t) => SelectTab(s, t)
    case CardClick(meal) => ClickCard(s, meal)
    case WeekClick(w) => AddToWeek(s, w)
    case CancelClick => Cancel(s)
    case RemoveClick(w, id) => RemoveMeal(s, w, id)
  }

  /** Every event of `es` is on the page when it is clicked. */
  predicate Accepts(s: State, es: seq<Event>, catalog: seq<Meal>)
    decreases |es|
  {
    es == [] || (Enabled(s, es[0], catalog) && Accepts(Step(s, es[0]), es[1..], catalog))
  }

  /** The state after the clicks `es`. */
  function Run(s: State, es: seq<Event>, catalog: seq<Meal>): State
    requires Accepts(s, es, catalog)
    decreases |es|
  {
    if es == [] then s else Run(Step(s, es[0]), es[1..], catalog)
  }

  /** Ids are unique in every week, and the modal is only open with a meal selected. */
  predicate Invariant(s: State)
  {
    && (forall w :: UniqueIds(s.weeks.Get(w)))
    && (s.showModal ==> s.selectedMeal.Some?)
  }

  /** The modal is visible exactly when `showModal` holds, in a state satisfying the invariant. */
  lemma VisibleIffShowModal(s: State)
    requires Invariant(s)
    ensures ModalVisible(s) <==> s.showModal
  {
  }

  /** Each handler keeps the invariant. */
  lemma StepKeepsInvariant(s: State, e: Event, catalog: seq<Meal>)
    requires Invariant(s)
    requires Enabled(s, e, catalog)
    ensures Invariant(Step(s, e))
  {
    var r := Step(s, e);
    forall w ensures UniqueIds(r.weeks.Get(w)) {
      match e
      case WeekClick(v) =>
        if v == w { AddToWeekKeepsUnique(s, w); }
      case RemoveClick(v, id) =>
        if v == w { RemoveMealKeepsUnique(s, w, id); }
      case _ =>
    }
  }

  /** Every state a session reaches from the first render satisfies the invariant. */
  lemma {:induction false} RunKeepsInvariant(s: State, es: seq<Event>, catalog: seq<Meal>)
    requires Invariant(s)
    requires Accepts(s, es, catalog)
    ensures Invariant(Run(s, es, catalog))
    decreases |es|
  {
    if es != [] {
      StepKeepsInvariant(s, es[0], catalog);
      RunKeepsInvariant(Step(s, es[0]), es[1..], catalog);
    }
  }

  /** The first render satisfies the invariant, so every reachable state does. */
  lemma ReachableInvariant(es: seq<Event>, catalog: seq<Meal>)
    requires Accepts(Init, es, catalog)
    ensures Invariant(Run(Init, es, catalog))
    ensures ModalVisible(Run(Init, es, catalog)) <==> Run(Init, es, catalog).showModal
  {
    RunKeepsInvariant(Init, es, catalog);
  }

  /**
   A concrete session: with A already in week 1, clicking A and choosing
   week 1, then clicking B and choosing week 1, leaves week 1 as [A, B].
   */
  lemma ScenarioNoDuplicate(a: Meal, b: Meal)
    requires a.id != b.id
    ensures var s := Init.(weeks := EmptyPlan.Set(Week1, [a]));
      var es := [CardClick(a), WeekClick(Week1), CardClick(b), WeekClick(Week1)];
      Accepts(s, es, [a, b]) && Run(s, es, [a, b]).weeks.Get(Week1) == [a, b]
  {
    var cat := [a, b];
    var s := Init.(weeks := EmptyPlan.Set(Week1, [a]));
    var es := [CardClick(a), WeekClick(Week1), CardClick(b), WeekClick(Week1)];
    assert [a][0].id == a.id;
    var s1 := ClickCard(s, a);
    var s2 := AddToWeek(s1, Week1);
    assert s2.weeks.Get(Week1) == [a];
    var s3 := ClickCard(s2, b);
    assert !HasId([a], b.id);
    var s4 := AddToWeek(s3, Week1);
    assert s4.weeks.Get(Week1) == [a, b];
    assert Accepts(s4, [], cat);
    assert Accepts(s3, es[3..], cat) && Run(s3, es[3..], cat) == s4;
    assert Accepts(s2, es[2..], cat) && Run(s2, es[2..], cat) == s4;
    assert Accepts(s1, es[1..], cat) && Run(s1, es[1..], cat) == s4;
  }
}
