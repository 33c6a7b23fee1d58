/** The state of the workout form and the handlers that edit its lists
    (src/App.js, `WorkoutForm`).

    Each handler in the source copies one state array, edits the copy and stores
    it back. The model gives each handler the array it edits and returns the new
    array; the nested objects are treated as values. */
module WorkoutForm {
  import opened Records

  /** The row `addCardio` appends: `{ type: '', duration: '', distance: '' }`. */
  const EmptyCardio := CardioEntry("", "", "")

  /** The row `addSet` appends, and the single set of a new exercise. */
  const EmptySet := SetEntry("", "")

  /** The exercise `addWeightExercise` appends. */
  const NewExercise := Exercise("", [EmptySet])

  /** `xs.filter((_, i) => i !== index)` applied to the suffix of an array that
      starts at position `offset`. */
  function KeepOthers<T>(xs: seq<T>, index: int, offset: int): seq<T>
    decreases |xs|
  {
    if xs == [] then []
    else (if offset == index then [] else [xs[0]]) + KeepOthers(xs[1..], index, offset + 1)
  }

  lemma {:induction false} KeepOthersDropsIndex<T>(xs: seq<T>, index: int, offset: int)
    ensures offset <= index < offset + |xs| ==> KeepOthers(xs, index, offset) == xs[..index - offset] + xs[index - offset + 1..]
    ensures !(offset <= index < offset + |xs|) ==> KeepOthers(xs, index, offset) == xs
  {
    if xs != [] {
      KeepOthersDropsIndex(xs[1..], index, offset + 1);
      if offset == index {
        assert KeepOthers(xs[1..], index, offset + 1) == xs[1..];
      } else if offset < index < offset + |xs| {
        assert xs[1..][..index - offset - 1] == xs[1..index - offset];
        assert xs[1..][index - offset..] == xs[index - offset + 1..];
        assert [xs[0]] + xs[1..index - offset] == xs[..index - offset];
      } else {
        assert [xs[0]] + xs[1..] == xs;
      }
    }
  }

  /** `xs.filter((_, i) => i !== index)`: the array without the element at
      `index`, and the array itself when `index` names no element. */
  function Without<T>(xs: seq<T>, index: int): (r: seq<T>)
    ensures 0 <= index < |xs| ==> r == xs[..index] + xs[index + 1..]
    ensures !(0 <= index < |xs|) ==> r == xs
  {
    KeepOthersDropsIndex(xs, index, 0);
    KeepOthers(xs, index, 0)
  }

  /** Element-wise reading of `Without`: earlier elements stay put, later ones
      move up by one, and exactly one element is gone. */
  lemma WithoutShifts<T>(xs: seq<T>, index: int)
    requires 0 <= index < |xs|
    ensures |Without(xs, index)| == |xs| - 1
    ensures forall k | 0 <= k < index :: Without(xs, index)[k] == xs[k]
    ensures forall k | index <= k < |xs| - 1 :: Without(xs, index)[k] == xs[k + 1]
    ensures multiset(Without(xs, index)) + multiset{xs[index]} == multiset(xs)
  {
    var r := Without(xs, index);
    assert xs == xs[..index] + [xs[index]] + xs[index + 1..];
  }

  /** Removing the element just appended gives back the original array. */
  lemma WithoutLast<T>(xs: seq<T>, x: T)
    ensures Without(xs + [x], |xs|) == xs
  {
    assert (xs + [x])[..|xs|] == xs;
  }

  // ----- cardio rows -----

  /** The three inputs of a cardio row (`'type'`, `'duration'`, `'distance'`). */
  datatype CardioField = ActivityField | DurationField | DistanceField

  function CardioGet(c: CardioEntry, f: CardioField): string {
    match f
    case ActivityField => c.activity
    case DurationField => c.duration
    case DistanceField => c.distance
  }

  /** `row[field] = value`. */
  function CardioSet(c: CardioEntry, f: CardioField, v: string): (r: CardioEntry)
    ensures CardioGet(r, f) == v
    ensures forall g | g != f :: CardioGet(r, g) == CardioGet(c, g)
  {
    match f
    case ActivityField => c.(activity := v)
    case DurationField => c.(duration := v)
    case DistanceField => c.(distance := v)
  }

  /** `addCardio`: one empty row at the end, earlier rows untouched. */
  function AddCardio(cardio: seq<CardioEntry>): (r: seq<CardioEntry>)
    ensures |r| == |cardio| + 1 && r[..|cardio|] == cardio
    ensures r[|cardio|] == EmptyCardio
  {
    cardio + [EmptyCardio]
  }

  /** `removeCardio(index)`: see `Without`. */
  function RemoveCardio(cardio: seq<CardioEntry>, index: int): seq<CardioEntry> {
    Without(cardio, index)
  }

  /** `handleCardioChange(index, field, value)`. The index is that of a rendered
      row; a missing row would make the source throw. */
  function CardioChange(cardio: seq<CardioEntry>, index: int, f: CardioField, v: string): (r: seq<CardioEntry>)
    requires 0 <= index < |cardio|
    ensures |r| == |cardio|
    ensures forall k | 0 <= k < |cardio| && k != index :: r[k] == cardio[k]
    ensures CardioGet(r[index], f) == v
    ensures forall g | g != f :: CardioGet(r[index], g) == CardioGet(cardio[index], g)
  {
    cardio[index := CardioSet(cardio[index], f, v)]
  }

  /** Removing the row just added restores the list. */
  lemma RemoveAddedCardio(cardio: seq<CardioEntry>)
    ensures RemoveCardio(AddCardio(cardio), |cardio|) == cardio
  {
    WithoutLast(cardio, EmptyCardio);
  }

  /** Editing the same input twice keeps only the second value. */
  lemma CardioChangeLastWins(cardio: seq<CardioEntry>, index: int, f: CardioField, v1: string, v2: string)
    requires 0 <= index < |cardio|
    ensures CardioChange(CardioChange(cardio, index, f, v1), index, f, v2) == CardioChange(cardio, index, f, v2)
  {
  }

  /** Typing back the value an input already holds changes nothing. */
  lemma CardioChangeSameValue(cardio: seq<CardioEntry>, index: int, f: CardioField)
    requires 0 <= index < |cardio|
    ensures CardioChange(cardio, index, f, CardioGet(cardio[index], f)) == cardio
  {
    var r := CardioChange(cardio, index, f, CardioGet(cardio[index], f));
    assert r[index] == cardio[index] by {
      forall g ensures CardioGet(r[index], g) == CardioGet(cardio[index], g) {}
      assert CardioGet(r[index], ActivityField) == CardioGet(cardio[index], ActivityField);
      assert CardioGet(r[index], DurationField) == CardioGet(cardio[index], DurationField);
      assert CardioGet(r[index], DistanceField) == CardioGet(cardio[index], DistanceField);
    }
  }

  // ----- weight-lifting exercises and their sets -----

  /** The two inputs of a set row (`'reps'`, `'weight'`). */
  datatype SetField = RepsField | WeightField

  function SetGet(s: SetEntry, f: SetField): string {
    match f
    case RepsField => s.reps
    case WeightField => s.weight
  }

  /** `set[field] = value`. */
  function SetSet(s: SetEntry, f: SetField, v: string): (r: SetEntry)
    ensures SetGet(r, f) == v
    ensures forall g | g != f :: SetGet(r, g) == SetGet(s, g)
  {
    match f
    case RepsField => s.(reps := v)
    case WeightField => s.(weight := v)
  }

  /** `addWeightExercise`: an unnamed exercise with exactly one empty set at the
      end, earlier exercises untouched. */
  function AddWeightExercise(weights: seq<Exercise>): (r: seq<Exercise>)
    ensures |r| == |weights| + 1 && r[..|weights|] == weights
    ensures r[|weights|].name == "" && r[|weights|].sets == [EmptySet]
  {
    weights + [NewExercise]
  }

  /** `removeWeightExercise(exIndex)`: see `Without`. */
  function RemoveWeightExercise(weights: seq<Exercise>, exIndex: int): seq<Exercise> {
    Without(weights, exIndex)
  }

  /** `handleExerciseNameChange(exIndex, value)`. */
  function ExerciseNameChange(weights: seq<Exercise>, exIndex: int, v: string): (r: seq<Exercise>)
    requires 0 <= exIndex < |weights|
    ensures |r| == |weights|
    ensures forall k | 0 <= k < |weights| && k != exIndex :: r[k] == weights[k]
    ensures r[exIndex].name == v && r[exIndex].sets == weights[exIndex].sets
  {
    weights[exIndex := weights[exIndex].(name := v)]
  }

  /** `addSet(exIndex)`: only the targeted exercise grows, by one empty set at
      the end of its list. */
  function AddSet(weights: seq<Exercise>, exIndex: int): (r: seq<Exercise>)
    requires 0 <= exIndex < |weights|
    ensures |r| == |weights|
    ensures forall k | 0 <= k < |weights| && k != exIndex :: r[k] == weights[k]
    ensures r[exIndex].name == weights[exIndex].name
    ensures |r[exIndex].sets| == |weights[exIndex].sets| + 1
    ensures r[exIndex].sets[..|weights[exIndex].sets|] == weights[exIndex].sets
    ensures r[exIndex].sets[|weights[exIndex].sets|] == EmptySet
  {
    var ex := weights[exIndex];
    weights[exIndex := ex.(sets := ex.sets + [EmptySet])]
  }

  /** `removeSet(exIndex, setIndex)`: the targeted exercise loses the set at
      `setIndex`, if there is one. Nothing stops the last set from going. */
  function RemoveSet(weights: seq<Exercise>, exIndex: int, setIndex: int): (r: seq<Exercise>)
    requires 0 <= exIndex < |weights|
    ensures |r| == |weights|
    ensures forall k | 0 <= k < |weights| && k != exIndex :: r[k] == weights[k]
    ensures r[exIndex].name == weights[exIndex].name
    ensures var sets := weights[exIndex].sets;
            0 <= setIndex < |sets| ==> r[exIndex].sets == sets[..setIndex] + sets[setIndex + 1..]
    ensures var sets := weights[exIndex].sets;
            !(0 <= setIndex < |sets|) ==> r[exIndex].sets == sets
  {
    var ex := weights[exIndex];
    weights[exIndex := ex.(sets := Without(ex.sets, setIndex))]
  }

  /** `handleSetChange(exIndex, setIndex, field, value)`, for a rendered set. */
  function SetChange(weights: seq<Exercise>, exIndex: int, setIndex: int, f: SetField, v: string): (r: seq<Exercise>)
    requires 0 <= exIndex < |weights| && 0 <= setIndex < |weights[exIndex].sets|
    ensures |r| == |weights|
    ensures forall k | 0 <= k < |weights| && k != exIndex :: r[k] == weights[k]
    ensures r[exIndex].name == weights[exIndex].name
    ensures |r[exIndex].sets| == |weights[exIndex].sets|
    ensures forall k | 0 <= k < |weights[exIndex].sets| && k != setIndex :: r[exIndex].sets[k] == weights[exIndex].sets[k]
    ensures SetGet(r[exIndex].sets[setIndex], f) == v
    ensures forall g | g != f :: SetGet(r[exIndex].sets[setIndex], g) == SetGet(weights[exIndex].sets[setIndex], g)
  {
    var ex := weights[exIndex];
    weights[exIndex := ex.(sets := ex.sets[setIndex := SetSet(ex.sets[setIndex], f, v)])]
  }

  /** Removing the set just added restores the exercise list. */
  lemma RemoveAddedSet(weights: seq<Exercise>, exIndex: int)
    requires 0 <= exIndex < |weights|
    ensures RemoveSet(AddSet(weights, exIndex), exIndex, |weights[exIndex].sets|) == weights
  {
    var sets := weights[exIndex].sets;
    WithoutLast(sets, EmptySet);
    var r := RemoveSet(AddSet(weights, exIndex), exIndex, |sets|);
    assert r[exIndex] == weights[exIndex];
  }

  /** Removing the exercise just added restores the list. */
  lemma RemoveAddedExercise(weights: seq<Exercise>)
    ensures RemoveWeightExercise(AddWeightExercise(weights), |weights|) == weights
  {
    WithoutLast(weights, NewExercise);
  }

  /** A freshly added exercise can be left with no sets at all. */
  lemma ExerciseCanLoseAllSets(weights: seq<Exercise>)
    ensures var added := AddWeightExercise(weights);
            RemoveSet(added, |weights|, 0)[|weights|].sets == []
  {
  }

  // ----- whole form -----

  /** The form's initial state for a new workout: `today` (the current UTC
      calendar date, from `toISOString`), weight `''` and no rows. */
  function NewForm(today: string): (f: Workout)
    ensures f.date == today && f.currentWeight == Str("") && f.cardio == [] && f.weights == []
  {
    Workout(today, Str(""), [], [])
  }

  /** The form's state once it has loaded a stored workout for editing: a
      falsy date becomes `today` and a falsy weight becomes `''`. */
  function EditForm(existing: Workout, today: string): (f: Workout)
    ensures f.date == (if existing.date != "" then existing.date else today)
    ensures Truthy(existing.currentWeight) ==> f.currentWeight == existing.currentWeight
    ensures !Truthy(existing.currentWeight) ==> f.currentWeight == Str("")
    ensures f.cardio == existing.cardio && f.weights == existing.weights
  {
    Workout(if existing.date != "" then existing.date else today,
            if Truthy(existing.currentWeight) then existing.currentWeight else Str(""),
            existing.cardio, existing.weights)
  }

  /** A stored workout with a date and a weight is loaded unchanged. */
  lemma EditFormKeepsCompleteWorkout(existing: Workout, today: string)
    requires existing.date != "" && Truthy(existing.currentWeight)
    ensures EditForm(existing, today) == existing
  {
  }
}
