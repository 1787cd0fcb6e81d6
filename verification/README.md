# Meal planner state machine

A Dafny model of the meal planner in the `Home` page component of the
Meal-Planner app. The page keeps four pieces of state:

- the shown tab (`all` or `week1`..`week4`);
- `weeks`, one list of meals per week;
- the selected meal (`null` or one recipe);
- `showModal`, which opens the week-choice dialog.

Five controls change that state:

- a tab button shows its tab;
- a recipe card click selects that meal and opens the modal;
- a week button in the modal runs `addToWeek`;
- Cancel closes the modal;
- a Remove button on a week card runs `removeMeal`.

The model has three modules:

- `Meals` (`meals.dfy`): the `Meal` record, keyed by `id`. It also holds the two
  scans over a week list: the "some meal has this id" test (`HasId`) and the
  id filter (`RemoveId`), with lemmas on order, multiplicity, concatenation,
  idempotence and uniqueness of ids.
- `Planner` (`planner.dfy`): the week keys, the five tabs and the `weeks` object
  (`Plan`, with `Get`/`Set`). It also holds the `State` record, the first-render
  state `Init`, and one pure function per handler. Lemmas cover what each
  handler keeps and how handlers combine.
- `Session` (`session.dfy`): the clickable controls as `Event`s and when the
  markup offers each one (`Enabled`): recipe cards only on the "all" tab
  (app/page.js:64), Remove buttons only for meals of the shown week
  (app/page.js:106-120), and the week and Cancel buttons only while the modal
  is visible (app/page.js:136-152). It runs event sequences from `Init` and
  proves the invariant every reachable state keeps: ids are unique within each
  week, and `showModal` is only set while a meal is selected. So the modal is
  visible exactly when `showModal` holds.

The page keeps a single `selectedMeal`. There is no multi-meal selection, no
toggle and no batch commit. A card click selects a meal and opens the dialog in
one step, and `addToWeek` adds that one meal and never clears the selection.
The header "Add To Week" button (app/page.js:55-57) has no handler.

## Model

| member | source | states |
|---|---|---|
| Meals.RemoveId | app/page.js:35 | The filtered list has no meal with the removed id. A meal is in it exactly when it was in the week and has another id. It is never longer than the week. |
| Meals.RemoveIdIsSubsequence | app/page.js:35 | The surviving meals are a subsequence of the week: their relative order is kept. |
| Meals.RemoveIdMultiset | app/page.js:35 | A meal with the removed id occurs zero times afterwards. Every other meal occurs as often as it did before. |
| Meals.RemoveIdCounts | app/page.js:35 | The filtered list is a sub-multiset of the week, shorter by exactly the number of meals with the removed id. Since no such meal survives, every other meal keeps its multiplicity. |
| Meals.RemoveIdAppend | app/page.js:35 | Filtering a concatenation gives the concatenation of the filtered parts, so each meal is kept or dropped on its own. |
| Meals.RemoveIdAbsent | app/page.js:35 | Filtering an id that no meal has returns the list unchanged. |
| Meals.RemoveIdIdempotent | app/page.js:35 | Filtering the same id twice gives the same list as filtering it once. |
| Meals.RemoveIdAt | app/page.js:35 | If ids are unique and the id is found at position k, the filter deletes exactly position k. |
| Meals.RemoveIdKeepsUnique | app/page.js:35 | If a week's ids are unique, they are still unique after filtering. |
| Planner.Plan.Set | app/page.js:27 | Replaces week w with the given list and keeps every other week, as the `{ ...prev, [week]: ... }` spread does here and at line 35. |
| Planner.SelectTab | app/page.js:44-47 | A tab click shows the clicked tab whatever was shown before. Weeks, selection and modal flag are unchanged. |
| Planner.EveryTabReachable | app/page.js:44-47 | Every value of the tab type is one of the five rendered tab buttons, and it can be shown from any state. |
| Planner.ClickCard | app/page.js:70-73 | A card click makes the modal visible with the clicked meal selected. Weeks and tab are unchanged. |
| Planner.Cancel | app/page.js:152 | Cancel sets `showModal` to false, so the modal is hidden, and keeps the selection. Weeks and tab are unchanged. |
| Planner.CancelAfterClick | app/page.js:152 | A click followed by Cancel differs from the start state only in that the clicked meal is now selected and the modal is closed. |
| Planner.AddToWeek | app/page.js:25-30 | The target week always ends up holding the selected id. If the id was new, the meal is appended at the end. If it was there, the week is unchanged. Other weeks are unchanged, the modal is closed, and selection and tab are kept. Requires a selected meal, because the handler reads `selectedMeal.id`. |
| Planner.AddToWeekKeepsUnique | app/page.js:26-27 | If the target week's ids are unique, they stay unique after an add. |
| Planner.AddToWeekIdempotent | app/page.js:25-30 | Choosing the same week twice in a row gives the same state as choosing it once. |
| Planner.RemoveMeal | app/page.js:32-37 | No meal with the id is left in the week. A meal is kept exactly when it was there with another id, the result is a sub-multiset of the week that is shorter by exactly the number of meals with that id (so every other meal keeps its multiplicity), and the survivors keep their order. Other weeks, selection, modal flag and tab are unchanged. |
| Planner.RemoveMealAbsent | app/page.js:33-36 | Removing an id that no meal in the week has leaves the whole state unchanged. |
| Planner.RemoveMealIdempotent | app/page.js:33-36 | Removing the same id twice gives the same state as removing it once. |
| Planner.RemoveMealKeepsUnique | app/page.js:33-36 | If the week's ids are unique, they stay unique after a removal. |
| Planner.RemoveMealAt | app/page.js:32-37 | In a week with unique ids, removing the id of the card at position k deletes just that card. |
| Planner.RemoveUndoesAdd | app/page.js:25-37 | Removing a meal just added to a week where its id was new restores every week of the plan. |
| Session.VisibleIffShowModal | app/page.js:136 | Under the invariant, the modal is visible exactly when `showModal` holds. |
| Session.StepKeepsInvariant | app/page.js:25-152 | Covers all five handlers: `addToWeek` and `removeMeal` (25-37), the tab buttons (44-47), the card click (70-73) and Cancel (152). Every control the page offers keeps ids unique in every week. It also keeps `showModal` set only while a meal is selected. |
| Session.RunKeepsInvariant | app/page.js:25-37 | Any sequence of offered clicks keeps the invariant. |
| Session.ReachableInvariant | app/page.js:6-10 | Every state reached from the first render satisfies the invariant. In each such state the modal is visible exactly when `showModal` holds. |
| Session.ScenarioNoDuplicate | app/page.js:25-30 | Week 1 starts as [A]. Click A, choose week 1, click B, choose week 1. Week 1 ends as [A, B] and A is not duplicated. |

## Left out

- The recipe fetch and its error logging (app/page.js:12-23). This is network I/O and runs asynchronously. The fetched catalog is a parameter of `Session.Enabled` instead.
- All rendering: images, CSS classes, tab labels and the empty-week message. These are presentation only.
- React's state batching and closures. Line 26 reads `weeks` from the render closure while line 27 updates through `prev`. Each handler is modelled as one atomic step on one state, so both reads see the same lists.
- Recipe fields other than `id`, `name`, `cuisine` and `image` (rating, difficulty, calories, ...). The planner only compares ids, and these fields are display payload.
- A multi-meal selection set, a toggle and a batch commit. The code has none of these. The header "Add To Week" button (app/page.js:55-57) has no handler.
- Meals.Meal ids are unbounded integers, compared with `==`. The recipes' ids are JSON numbers compared with `===`, which agrees for integer ids.
- Session.Enabled does not stop any control (card, tab or Remove) while the modal overlay is shown. The markup still renders those controls under the overlay. Accepting more click sequences than the page allows only makes the invariant stronger.
