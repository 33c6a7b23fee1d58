/** The documents the fitness tracker keeps: workouts with their embedded cardio
    and weight-lifting entries, and body-weight log entries.

    JavaScript stores these as untyped objects. Fields the application tests for
    truthiness (body weights) are modelled by `Value`; fields that only ever hold
    text typed into a form (dates, reps, names) are plain strings. */
module Records {

  /** A JavaScript field value as far as truthiness is concerned. `Missing` is an
      absent key (reading it yields `undefined`); `Str` is what a form input yields;
      `Num` and `NaN` are what `parseFloat` yields in the weight-log form. */
  datatype Value = Missing | Str(text: string) | Num(number: real) | NaN

  /** JavaScript truthiness: absent, the empty string, zero and NaN are falsy.
      A non-empty string such as "0" is truthy. */
  predicate Truthy(v: Value) {
    match v
    case Missing => false
    case Str(t) => t != ""
    case Num(x) => x != 0.0
    case NaN => false
  }

  /** One cardio activity of a workout (`type`, `duration`, `distance`). */
  datatype CardioEntry = CardioEntry(activity: string, duration: string, distance: string)

  /** One set of a weight-lifting exercise. */
  datatype SetEntry = SetEntry(reps: string, weight: string)

  /** A weight-lifting exercise with its ordered sets. */
  datatype Exercise = Exercise(name: string, sets: seq<SetEntry>)

  /** The fields of a workout document, which are also the state of the workout
      form: the form hands exactly these four fields to its `onSave` callback. */
  datatype Workout = Workout(date: string, currentWeight: Value, cardio: seq<CardioEntry>, weights: seq<Exercise>)

  /** A body-weight log document. */
  datatype WeightEntry = WeightEntry(date: string, weight: Value)
}
