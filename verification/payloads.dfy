/** What the workout handlers hand to the document store (src/App.js,
    `handleAddWorkout` and `handleUpdateWorkout`).

    The store itself is not modelled: a handler yields the write it would issue,
    with its document path and payload, or no write at all when the store, the
    signed-in user or the app id is missing. */
module Payloads {
  import opened Records
  import opened Dates
  import opened Recency
  import opened WorkoutForm

  /** The pieces a write needs: whether the database handle exists, the
      signed-in user (whose uid names the user's folder) and the app id. */
  datatype User = SignedOut | SignedIn(uid: string)
  datatype Connection = Connection(dbReady: bool, user: User, appId: string)

  /** `if (!db || !user || !appId) return;`, negated. */
  predicate Ready(c: Connection) {
    c.dbReady && c.user.SignedIn? && c.appId != ""
  }

  /** A document write the handler would issue. */
  datatype Write = AddDoc(collection: string, data: Workout) | UpdateDoc(document: string, data: Workout)

  /** The result of a handler: the write (if any) and whether the handler then
      returns to the dashboard and forgets the workout being edited. */
  datatype Effect = Effect(write: Option<Write>, toDashboard: bool, clearsEditing: bool)

  datatype Option<T> = None | Some(value: T)

  /** `/artifacts/${appId}/users/${user.uid}/workouts`. */
  function WorkoutsPath(c: Connection): string
    requires Ready(c)
  {
    "/artifacts/" + c.appId + "/users/" + c.user.uid + "/workouts"
  }

  /** `{ ...workout }` followed by `delete data.currentWeight` when the weight
      is falsy. */
  function AddPayload(w: Workout): (r: Workout)
    ensures r.date == w.date && r.cardio == w.cardio && r.weights == w.weights
    ensures Truthy(w.currentWeight) ==> r == w
    ensures !Truthy(w.currentWeight) ==> r.currentWeight == Missing
  {
    if Truthy(w.currentWeight) then w else w.(currentWeight := Missing)
  }

  /** `handleAddWorkout(workout)`. */
  function HandleAddWorkout(c: Connection, w: Workout): (e: Effect)
    ensures !Ready(c) <==> e == Effect(None, false, false)
    ensures Ready(c) ==> e.write.Some? && e.write.value.AddDoc? && e.toDashboard && !e.clearsEditing
    ensures Ready(c) ==> e.write.value.collection == WorkoutsPath(c)
    ensures Ready(c) ==> e.write.value.data == AddPayload(w)
    ensures e.write.Some? ==> Truthy(e.write.value.data.currentWeight) || e.write.value.data.currentWeight == Missing
  {
    if !Ready(c) then Effect(None, false, false)
    else Effect(Some(AddDoc(WorkoutsPath(c), AddPayload(w))), true, false)
  }

  /** `handleUpdateWorkout(workoutId, workoutData)`: the form data goes to the
      store as it is, with no clean-up of the weight. */
  function HandleUpdateWorkout(c: Connection, workoutId: string, data: Workout): (e: Effect)
    ensures !Ready(c) <==> e == Effect(None, false, false)
    ensures Ready(c) ==> e.write.Some? && e.write.value.UpdateDoc? && e.toDashboard && e.clearsEditing
    ensures Ready(c) ==> e.write.value.document == WorkoutsPath(c) + "/" + workoutId
    ensures Ready(c) ==> e.write.value.data == data
  {
    if !Ready(c) then Effect(None, false, false)
    else Effect(Some(UpdateDoc(WorkoutsPath(c) + "/" + workoutId, data)), true, true)
  }

  /** Cleaning a payload twice is cleaning it once. */
  lemma AddPayloadIdempotent(w: Workout)
    ensures AddPayload(AddPayload(w)) == AddPayload(w)
  {
  }

  /** The clean-up never changes whether a workout contributes a body weight,
      nor the weight it contributes. */
  lemma AddPayloadKeepsReading(w: Workout)
    ensures WorkoutCounts(AddPayload(w)) <==> WorkoutCounts(w)
    ensures WorkoutReadings([AddPayload(w)]) == WorkoutReadings([w])
  {
  }

  /** Storing a workout through the add path yields the same current weight as
      storing the form data unchanged would, wherever the stored workout lands
      in the list (the snapshot orders workouts by date). */
  lemma AddPayloadKeepsCurrentWeight(log: seq<WeightEntry>, ws: seq<Workout>, i: int, w: Workout)
    requires 0 <= i <= |ws|
    requires ReadingDatesWellFormed(log, ws[..i] + [w] + ws[i..])
    ensures ReadingDatesWellFormed(log, ws[..i] + [AddPayload(w)] + ws[i..])
    ensures CurrentWeight(log, ws[..i] + [AddPayload(w)] + ws[i..]) == CurrentWeight(log, ws[..i] + [w] + ws[i..])
  {
    var p := AddPayload(w);
    AddPayloadKeepsReading(w);
    WorkoutReadingsConcat(ws[..i], [w]);
    WorkoutReadingsConcat(ws[..i] + [w], ws[i..]);
    WorkoutReadingsConcat(ws[..i], [p]);
    WorkoutReadingsConcat(ws[..i] + [p], ws[i..]);
    assert Readings(log, ws[..i] + [p] + ws[i..]) == Readings(log, ws[..i] + [w] + ws[i..]);
    forall x | x in ws[..i] + [p] + ws[i..] && WorkoutCounts(x) ensures WellFormedDate(x.date) {
      if x == p {
        assert w in ws[..i] + [w] + ws[i..];
      } else {
        assert x in ws[..i] + [w] + ws[i..];
      }
    }
  }

  /** The two paths disagree on a workout stored without a weight: opening it
      for editing fills the weight with `''`, and saving sends that `''` to the
      store, whereas the add path never stores a falsy weight. */
  lemma UpdateStoresEmptyWeight(c: Connection, workoutId: string, stored: Workout, today: string)
    requires Ready(c) && stored.currentWeight == Missing
    ensures var form := EditForm(stored, today);
            && HandleUpdateWorkout(c, workoutId, form).write.value.data.currentWeight == Str("")
            && HandleAddWorkout(c, form).write.value.data.currentWeight == Missing
  {
  }
}
