# Fitness tracker dashboard logic in Dafny

This project models the sequential logic inside the fitness tracker's single
React component file, `src/App.js`. It covers:

- **Current weight**: the recency resolver. It merges the weight log with the
  body weights recorded on workouts, sorts the readings latest first and shows
  the first reading's weight, or `''` when no reading counts.
- **Workout history**: the day aggregator. It groups workouts by their exact
  date string, in first-occurrence order, then sorts the groups latest day first.
- **Workout payloads**: the add path shallow-copies the workout and drops a
  falsy `currentWeight`. The update path forwards the form data untouched.
- **Workout form**: the list handlers for cardio rows, weight-lifting exercises
  and their sets. These are append, remove-by-index and set-one-field.
- **Screen selection**: configuration error, then auth not ready, then no user,
  then loading, then a switch on the view name whose default is the dashboard.

Modules:

| file | module | contents |
|---|---|---|
| `records.dfy` | `Records` | Documents: workouts, cardio rows, exercises, sets, weight-log entries. `Value` models a JavaScript field value and its truthiness (absent, `''`, `0` and `NaN` are falsy). |
| `dates.dfy` | `Dates` | `YYYY-MM-DD` strings. `DateKey` gives the order `new Date(s)` puts them in. |
| `stable_sort.dfy` | `StableSort` | A stable descending sort by an integer key. Proves it is the only stable descending sort, and what its head is. |
| `recency.dfy` | `Recency` | The current-weight computation, plus an independent linear scan. |
| `day_groups.dfy` | `DayGroups` | The `reduce` into a date-keyed object, `Object.entries`, and the sort of the groups. |
| `workout_form.dfy` | `WorkoutForm` | The form's list handlers and its initial states. |
| `payloads.dfy` | `Payloads` | `handleAddWorkout` and `handleUpdateWorkout`: the write each would issue. |
| `screens.dfy` | `Screens` | The render gate chain and the view switch. |

Modelling decisions:

- **Dates.** Every date the sorts compare is assumed to be a well-formed `YYYY-MM-DD` calendar day. This is a precondition.
  - For such a string, `new Date(s)` is midnight UTC of that day.
  - So the comparator `new Date(b.date) - new Date(a.date)` orders by (year, month, day), which `DateKey` encodes as one integer.
  - `DateKeyInjective` shows that two such dates are the same instant only when they are the same string. This is why grouping by string and sorting by instant agree.
- **Sorting.** JavaScript's `Array.prototype.sort` is stable.
  - `SortDesc` is a stable insertion sort.
  - `StableSortIsUnique` shows that every stable descending sort of the same input returns the same sequence, so the model agrees with the engine's sort whatever algorithm the engine uses.
- **The `reduce` accumulator** is a plain object whose keys are date strings. A well-formed date is never an array index and never names an `Object.prototype` member. For such keys `Object.entries` lists the keys in insertion order and every key starts out absent. `DateTable` is that object: an ordered list of distinct keys and a map.
- **Form handlers** have value semantics. Each handler takes the array it edits and returns the new array.
  - A change handler aimed at a missing row would throw in the source. Those handlers require an index in range.
  - The remove handlers are the source's `filter`, which does nothing when the index is out of range.
- **The store** is represented only by the write a handler would issue: a path and a payload, or no write.
- **Today's date** (the form's default) is a parameter.

`removeSet` can remove an exercise's last set: nothing keeps at least one set per exercise (`WorkoutForm.ExerciseCanLoseAllSets`).

## Model

| member | source | states |
|---|---|---|
| `Dates.DateKeyInjective` | src/App.js:159 | Two well-formed dates that the comparator treats as the same instant are the same string. |
| `StableSort.SortDesc` | src/App.js:139 | The sort returns a permutation of its input, ordered by non-increasing key. When no two keys are equal, the order is strictly decreasing. |
| `StableSort.SortDescIsStable` | src/App.js:139 | For every key, the elements with that key appear in the output in the same relative order as in the input. |
| `StableSort.StableSortIsUnique` | src/App.js:139 | Any descending-sorted sequence that keeps, for every key, the input's elements with that key in input order equals `SortDesc` of the input. |
| `StableSort.SortDescHead` | src/App.js:139-140 | The head of the sorted output is the input element at the first position holding the largest key. |
| `Recency.LogReadingsFacts` | src/App.js:135 | The log's readings are exactly the `{date, weight}` pairs of the log entries with a truthy weight and a non-empty date. There is none exactly when no log entry has both. |
| `Recency.WorkoutReadingsFacts` | src/App.js:136 | The workouts' readings are exactly the `{date, currentWeight}` pairs of the workouts with a truthy body weight and a non-empty date. There is none exactly when no workout has both. |
| `Recency.Readings` | src/App.js:134-137 | A reading is in `allEntries` exactly when a counting log entry or a counting workout carries its date and weight. The order, log first, is what `CurrentWeightIsLatest` and `LatestDatePrefersLog` rely on. |
| `Recency.CurrentWeight` | src/App.js:133-144 | The current weight is `''` exactly when nothing counts, meaning no log entry and no workout has a truthy weight and a date. It is falsy exactly then too. |
| `Recency.CurrentWeightIsLatest` | src/App.js:138-140 | When something counts, the current weight is the weight of the first reading, in log-then-workouts order, whose date is the latest. |
| `Recency.LatestDatePrefersLog` | src/App.js:134-140 | On the latest date, the first log reading of that date wins. Only when the log has none does the first workout reading of that date win. |
| `Recency.IgnoredLogEntry` | src/App.js:135 | Inserting anywhere a log entry with a falsy weight or an empty date leaves the current weight unchanged. |
| `Recency.IgnoredWorkout` | src/App.js:136 | Inserting anywhere a workout with a falsy body weight or an empty date leaves the current weight unchanged. |
| `Recency.LatestWeightByScan` | src/App.js:133-144 | A single left-to-right scan that keeps the first reading with a strictly later date computes the same current weight as the sort. |
| `DayGroups.OnDateMembers` | src/App.js:149-153 | A workout is in the array of date `d` exactly when it is one of the input workouts and its date is `d`. |
| `DayGroups.Push` | src/App.js:148-154 | One step of the `reduce` adds the workout's date as a key if it is new, appends the workout to that date's array, leaves every other date's array alone, and keeps the keys distinct. This holds for dates that do not name an `Object.prototype` member, which includes every `YYYY-MM-DD` date. |
| `DayGroups.GroupByDate` | src/App.js:148-155 | The `reduce` produces one key per date of the input and no other. Each key holds exactly that date's workouts, in input order. This holds for dates that do not name an `Object.prototype` member, which includes every `YYYY-MM-DD` date. |
| `DayGroups.GroupOrderIsFirstOccurrence` | src/App.js:148-157 | The object's keys are listed in the order in which their dates first occur in the input. This is the `Object.entries` order for keys that are not array indices, such as every `YYYY-MM-DD` date. |
| `DayGroups.Entries` | src/App.js:157-158 | `Object.entries` plus `map` gives one `{date, activities}` per key, in key order. |
| `DayGroups.GroupedWorkouts` | src/App.js:147-160 | There is one group per key of the `reduce`. Every group's date is a date of the input, and the groups are ordered latest day first. `GroupedWorkoutsPartition`, `GroupedWorkoutsDescending` and `HistoryListsEachWorkoutOnce` state the rest. |
| `DayGroups.GroupedWorkoutsPartition` | src/App.js:147-160 | Each history group holds exactly its date's workouts, in input order, and is never empty. Every workout's date has a group. |
| `DayGroups.GroupedWorkoutsDescending` | src/App.js:159 | History groups are in strictly decreasing date order, so no date is listed twice. |
| `DayGroups.HistoryListsEachWorkoutOnce` | src/App.js:148-158 | Concatenating the groups' activities gives a permutation of the workouts. The group sizes add up to the number of workouts. |
| `WorkoutForm.Without` | src/App.js:528-535 | Filtering out index `i` removes exactly the element at `i` and keeps the rest in order. An index naming no element changes nothing. This is the whole of `removeCardio` and `removeWeightExercise`, and the per-exercise step of `removeSet`. |
| `WorkoutForm.WithoutShifts` | src/App.js:528-532 | After a removal, earlier elements keep their positions, later ones move up by one, and exactly that one element is gone. |
| `WorkoutForm.AddCardio` | src/App.js:527 | `addCardio` appends one empty cardio row and leaves earlier rows untouched. |
| `WorkoutForm.CardioSet` | src/App.js:529 | Writing one field of a cardio row sets that field and keeps the other two. |
| `WorkoutForm.CardioChange` | src/App.js:529 | `handleCardioChange` changes only the targeted field of the targeted row. The length and all other rows are unchanged. |
| `WorkoutForm.RemoveAddedCardio` | src/App.js:527-528 | Removing the row just added restores the cardio list. |
| `WorkoutForm.CardioChangeLastWins` | src/App.js:529 | Two edits of the same input leave only the second value. |
| `WorkoutForm.CardioChangeSameValue` | src/App.js:529 | Writing the value an input already holds changes nothing. |
| `WorkoutForm.AddWeightExercise` | src/App.js:531 | `addWeightExercise` appends an unnamed exercise with exactly one empty set. |
| `WorkoutForm.ExerciseNameChange` | src/App.js:533 | `handleExerciseNameChange` renames only the targeted exercise and keeps its sets. |
| `WorkoutForm.AddSet` | src/App.js:534 | `addSet` grows only the targeted exercise's sets, by one empty set at the end. |
| `WorkoutForm.RemoveSet` | src/App.js:535 | `removeSet` drops exactly the set at the index from the targeted exercise, or nothing when the index is out of range. Every other exercise is unchanged. |
| `WorkoutForm.SetSet` | src/App.js:536 | Writing one field of a set sets that field and keeps the other. |
| `WorkoutForm.SetChange` | src/App.js:536 | `handleSetChange` changes only the targeted field of the targeted set of the targeted exercise. |
| `WorkoutForm.RemoveAddedSet` | src/App.js:534-535 | Removing the set just added restores the exercise list. |
| `WorkoutForm.RemoveAddedExercise` | src/App.js:531-532 | Removing the exercise just added restores the exercise list. |
| `WorkoutForm.ExerciseCanLoseAllSets` | src/App.js:531-535 | A new exercise's only set can be removed, leaving an exercise with no sets. |
| `WorkoutForm.NewForm` | src/App.js:513-516 | A new form starts on today's date with weight `''` and no rows. |
| `WorkoutForm.EditForm` | src/App.js:518-525 | Loading a workout for editing keeps its rows. A falsy date becomes today. A falsy weight becomes `''`. |
| `WorkoutForm.EditFormKeepsCompleteWorkout` | src/App.js:518-525 | A workout that has a date and a truthy weight loads unchanged. |
| `Payloads.AddPayload` | src/App.js:188-189 | The add payload equals the workout when its weight is truthy. Otherwise it has no weight key. All other fields are unchanged. |
| `Payloads.HandleAddWorkout` | src/App.js:185-191 | With no database, user or app id nothing happens. Otherwise one add to the user's workouts collection of exactly the cleaned payload (`AddPayload` of the workout, so date and rows are the input's and the stored weight is truthy or absent), then back to the dashboard. |
| `Payloads.HandleUpdateWorkout` | src/App.js:194-200 | With no database, user or app id nothing happens. Otherwise one update of `workouts/<id>` with the form data verbatim, then back to the dashboard with the edited workout cleared. |
| `Payloads.AddPayloadIdempotent` | src/App.js:188-189 | Cleaning a payload twice is the same as cleaning it once. |
| `Payloads.AddPayloadKeepsReading` | src/App.js:189 | The clean-up never changes whether a workout contributes a body weight, nor the weight it contributes. |
| `Payloads.AddPayloadKeepsCurrentWeight` | src/App.js:188-189 | Storing a workout through the add path gives the same current weight as storing the raw form data would, at whatever position the workout lands in the list. |
| `Payloads.UpdateStoresEmptyWeight` | src/App.js:194-198 | A workout stored without a weight and then edited is saved with weight `''` by the update path. The add path would store no weight at all. |
| `Screens.ScreenFor` | src/App.js:222-244 | Each screen is shown exactly under its condition. The error screen is shown whenever configuration failed. Then come connecting, login and loading, each only when every earlier gate passes. Then the four named views, with the dashboard for every other view name. |
| `Screens.ViewIgnoredWhileGated` | src/App.js:222-237 | While any gate is closed, the view name has no effect on the screen. |
| `Screens.ViewDecidesWhenOpen` | src/App.js:238-244 | Once every gate is open, the view name alone decides the screen. |
| `Screens.FormsNeedSignedInUser` | src/App.js:222-242 | A form or the plan generator is only shown to a signed-in user whose data has loaded, with no configuration error. |
| `Screens.AfterSave` | src/App.js:185-199 | A save changes only the view. When the handler reaches `setView('dashboard')` the view becomes `'dashboard'`, and with every gate open the dashboard is shown next. Otherwise the state is unchanged. |
| `Screens.AddReturnsToDashboard` | src/App.js:185-191 | After saving a new workout, the next screen is the dashboard. Without a connection, the add form stays. |
| `Screens.UpdateReturnsToDashboard` | src/App.js:194-200 | After saving an edited workout, the next screen is the dashboard. Without a connection, the edit form stays. |

## Left out

- Firebase configuration, initialisation and the auth listener (src/App.js:26-97), and sign-in/sign-out (src/App.js:164-182): SDK and network plumbing.
- Snapshot subscriptions that fill `workouts` and `weightLog` (src/App.js:100-130): asynchronous foreign calls. The model takes both arrays as inputs.
- The document store itself (`addDoc`, `updateDoc`, `deleteDoc`): a handler yields the write it would issue. A failing write, which would leave the view unchanged, is not modelled. Document ids are not modelled.
- `handleLogWeight` and `handleDeleteWorkout` (src/App.js:202-214): each is a single store call with no logic of its own.
- The plan generator's remote call and prompt (src/App.js:287-356), plan templates and profiles: an external service, and not part of this file's logic.
- JSX, locale date formatting and display strings: presentation.
- `parseFloat` in the weight-log form (src/App.js:600): floating point. Its results enter the model only as the `Num` and `NaN` cases of `Value`.
- Today's date from `toISOString` (src/App.js:513, 520): depends on the clock and time zone, so it is a parameter.
- Malformed or empty dates among the compared entries: the comparator yields NaN and the engine's order is unspecified. Well-formed dates are a precondition of `Recency.CurrentWeight` and `DayGroups.GroupedWorkouts`.
- Workout dates that are array indices (integer-like strings such as `"7"`): JavaScript lists such object keys first, in numeric order, so `DayGroups.GroupOrderIsFirstOccurrence` describes the `reduce` object only for other keys. Every `YYYY-MM-DD` date is such a key.
- `DayGroups.Push` and `DayGroups.GroupByDate`: workout dates that name an `Object.prototype` member (`"constructor"`, `"toString"`, `"__proto__"` and the like) are outside the model. The accumulator `{}` already holds a truthy value under such a key, so no array is created and `push` throws (src/App.js:150-153). The model treats every key as initially absent. Every `YYYY-MM-DD` date avoids these names.
- In-place aliasing in the form handlers: the source mutates the nested row objects shared with the previous state. The model uses values.
- Missing `cardio`/`weights` arrays on a stored workout (the `|| []` defaults in src/App.js:522-523): every workout in the model carries both arrays.
- The edit form's `editingWorkout.id` read when `editingWorkout` is null: the model passes the workout id explicitly.
