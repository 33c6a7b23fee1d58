/** Which screen the application shows (src/App.js, the render logic of `App`
    and its `renderView`): a chain of gates checked in a fixed order, then a
    switch on the current view name. */
module Screens {
  import opened Records
  import opened Payloads

  /** The parts of the application state the render logic reads. `signedIn`
      stands for a non-null `user`. */
  datatype AppState = AppState(
    configError: bool,
    authReady: bool,
    signedIn: bool,
    loadingData: bool,
    view: string)

  datatype Screen =
    | ErrorScreen
    | Connecting
    | LoginScreen
    | Loading
    | AddWorkoutForm
    | EditWorkoutForm
    | LogWeightForm
    | PlanGenerator
    | Dashboard

  /** The view names the switch recognises. */
  const NamedViews: set<string> := {"addWorkout", "editWorkout", "logWeight", "generatePlan"}

  /** Every gate before the view switch is passed. */
  predicate Open(s: AppState) {
    !s.configError && s.authReady && s.signedIn && !s.loadingData
  }

  /** The render logic: configuration error, then auth not ready, then no user,
      then loading, then the view switch whose default is the dashboard. */
  function ScreenFor(s: AppState): (r: Screen)
    ensures r == ErrorScreen <==> s.configError
    ensures r == Connecting <==> !s.configError && !s.authReady
    ensures r == LoginScreen <==> !s.configError && s.authReady && !s.signedIn
    ensures r == Loading <==> !s.configError && s.authReady && s.signedIn && s.loadingData
    ensures r == AddWorkoutForm <==> Open(s) && s.view == "addWorkout"
    ensures r == EditWorkoutForm <==> Open(s) && s.view == "editWorkout"
    ensures r == LogWeightForm <==> Open(s) && s.view == "logWeight"
    ensures r == PlanGenerator <==> Open(s) && s.view == "generatePlan"
    ensures r == Dashboard <==> Open(s) && s.view !in NamedViews
  {
    if s.configError then ErrorScreen
    else if !s.authReady then Connecting
    else if !s.signedIn then LoginScreen
    else if s.loadingData then Loading
    else match s.view
      case "addWorkout" => AddWorkoutForm
      case "editWorkout" => EditWorkoutForm
      case "logWeight" => LogWeightForm
      case "generatePlan" => PlanGenerator
      case _ => Dashboard
  }

  /** Until every gate is passed, the current view name has no effect. */
  lemma ViewIgnoredWhileGated(s: AppState, v: string)
    requires !Open(s)
    ensures ScreenFor(s.(view := v)) == ScreenFor(s)
  {
  }

  /** Only the view name decides among the screens behind the gates. */
  lemma ViewDecidesWhenOpen(s: AppState, t: AppState)
    requires Open(s) && Open(t) && s.view == t.view
    ensures ScreenFor(s) == ScreenFor(t)
  {
  }

  /** A form or the plan generator is only ever shown to a signed-in user
      whose data has loaded. */
  lemma FormsNeedSignedInUser(s: AppState)
    requires ScreenFor(s) in {AddWorkoutForm, EditWorkoutForm, LogWeightForm, PlanGenerator}
    ensures s.signedIn && s.authReady && !s.configError && !s.loadingData
  {
  }

  /** The state after a handler has run: `setView('dashboard')` when the
      handler got that far. */
  function AfterSave(s: AppState, e: Effect): (r: AppState)
    ensures r.(view := s.view) == s
    ensures e.toDashboard ==> r.view == "dashboard"
    ensures e.toDashboard && Open(s) ==> ScreenFor(r) == Dashboard
    ensures !e.toDashboard ==> r == s
    ensures !e.toDashboard ==> ScreenFor(r) == ScreenFor(s)
  {
    if e.toDashboard then s.(view := "dashboard") else s
  }

  /** Saving a new workout returns to the dashboard when the write is issued;
      without a connection nothing is written and the form stays up. */
  lemma AddReturnsToDashboard(s: AppState, c: Connection, w: Workout)
    requires Open(s) && s.view == "addWorkout"
    ensures Ready(c) ==> ScreenFor(AfterSave(s, HandleAddWorkout(c, w))) == Dashboard
    ensures !Ready(c) ==> ScreenFor(AfterSave(s, HandleAddWorkout(c, w))) == AddWorkoutForm
  {
  }

  /** The same for saving an edited workout. */
  lemma UpdateReturnsToDashboard(s: AppState, c: Connection, id: string, w: Workout)
    requires Open(s) && s.view == "editWorkout"
    ensures Ready(c) ==> ScreenFor(AfterSave(s, HandleUpdateWorkout(c, id, w))) == Dashboard
    ensures !Ready(c) ==> ScreenFor(AfterSave(s, HandleUpdateWorkout(c, id, w))) == EditWorkoutForm
  {
  }
}
