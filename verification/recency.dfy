/** The dashboard's "current weight": the body weight of the most recent dated
    reading, drawn from the weight log and from the body weights recorded with
    workouts (src/App.js, the effect that recomputes `currentWeight`). */
module Recency {
  import opened Records
  import opened Dates
  import opened StableSort

  /** One `{date, weight}` pair of the combined list. */
  datatype Reading = Reading(date: string, weight: Value)

  /** A log entry contributes a reading when its weight and its date are truthy. */
  predicate LogEntryCounts(e: WeightEntry) {
    Truthy(e.weight) && e.date != ""
  }

  /** A workout contributes a reading when its body weight and its date are truthy. */
  predicate WorkoutCounts(w: Workout) {
    Truthy(w.currentWeight) && w.date != ""
  }

  /** The reading a log entry contributes: one when it counts, none otherwise. */
  function LogReading(e: WeightEntry): seq<Reading> {
    if LogEntryCounts(e) then [Reading(e.date, e.weight)] else []
  }

  /** The reading a workout contributes: one when it counts, none otherwise. */
  function WorkoutReading(w: Workout): seq<Reading> {
    if WorkoutCounts(w) then [Reading(w.date, w.currentWeight)] else []
  }

  /** The readings of the log entries that count, in log order. */
  function LogReadings(log: seq<WeightEntry>): seq<Reading> {
    if log == [] then [] else LogReading(log[0]) + LogReadings(log[1..])
  }

  /** The readings of the workouts that count, in workout order. */
  function WorkoutReadings(ws: seq<Workout>): seq<Reading> {
    if ws == [] then [] else WorkoutReading(ws[0]) + WorkoutReadings(ws[1..])
  }

  /** The log readings are exactly the `{date, weight}` pairs of the log entries
      that count: each carries a truthy weight, and there is none exactly when
      no log entry counts. */
  lemma {:induction false} LogReadingsFacts(log: seq<WeightEntry>)
    ensures forall x :: x in LogReadings(log) <==> exists e | e in log && LogEntryCounts(e) :: x == Reading(e.date, e.weight)
    ensures forall x | x in LogReadings(log) :: Truthy(x.weight) && x.date != ""
    ensures LogReadings(log) == [] <==> forall e | e in log :: !LogEntryCounts(e)
  {
    if log != [] {
      LogReadingsFacts(log[1..]);
      assert forall e | e in log :: e == log[0] || e in log[1..];
      assert forall e | e in log[1..] :: e in log;
    }
  }

  /** The workout readings are exactly the `{date, currentWeight}` pairs of the
      workouts that count: each carries a truthy weight, and there is none
      exactly when no workout counts. */
  lemma {:induction false} WorkoutReadingsFacts(ws: seq<Workout>)
    ensures forall x :: x in WorkoutReadings(ws) <==> exists w | w in ws && WorkoutCounts(w) :: x == Reading(w.date, w.currentWeight)
    ensures forall x | x in WorkoutReadings(ws) :: Truthy(x.weight) && x.date != ""
    ensures WorkoutReadings(ws) == [] <==> forall w | w in ws :: !WorkoutCounts(w)
  {
    if ws != [] {
      WorkoutReadingsFacts(ws[1..]);
      assert forall w | w in ws :: w == ws[0] || w in ws[1..];
      assert forall w | w in ws[1..] :: w in ws;
    }
  }

  /** `allEntries`: the weight-log readings first, then the workout readings.
      A reading is in the list exactly when some counting entry of either
      source carries its date and weight. */
  function Readings(log: seq<WeightEntry>, ws: seq<Workout>): (r: seq<Reading>)
    ensures forall x :: x in r <==>
      || (exists e | e in log && LogEntryCounts(e) :: x == Reading(e.date, e.weight))
      || (exists w | w in ws && WorkoutCounts(w) :: x == Reading(w.date, w.currentWeight))
  {
    LogReadingsFacts(log);
    WorkoutReadingsFacts(ws);
    LogReadings(log) + WorkoutReadings(ws)
  }

  /** The comparator's view of a reading: `new Date(reading.date)`. */
  function ReadingKey(x: Reading): int {
    DateKey(x.date)
  }

  /** Every entry that contributes a reading carries a `YYYY-MM-DD` date. */
  ghost predicate ReadingDatesWellFormed(log: seq<WeightEntry>, ws: seq<Workout>) {
    && (forall e | e in log && LogEntryCounts(e) :: WellFormedDate(e.date))
    && (forall w | w in ws && WorkoutCounts(w) :: WellFormedDate(w.date))
  }

  /** No entry of either source contributes a reading. */
  ghost predicate NothingCounts(log: seq<WeightEntry>, ws: seq<Workout>) {
    && (forall e | e in log :: !LogEntryCounts(e))
    && (forall w | w in ws :: !WorkoutCounts(w))
  }

  /** The weight of the first reading after sorting all readings latest first,
      or `''` when there is no reading. */
  function CurrentWeight(log: seq<WeightEntry>, ws: seq<Workout>): (r: Value)
    requires ReadingDatesWellFormed(log, ws)
    ensures r == Str("") <==> NothingCounts(log, ws)
    ensures !Truthy(r) <==> NothingCounts(log, ws)
  {
    var all := Readings(log, ws);
    ReadingsFacts(log, ws);
    if |all| > 0 then
      var sorted := SortDesc(all, ReadingKey);
      assert sorted[0] in multiset(all);
      assert Truthy(sorted[0].weight);
      sorted[0].weight
    else Str("")
  }

  /** Every reading of the combined list carries a truthy weight; the list is
      empty exactly when nothing counts. */
  lemma ReadingsFacts(log: seq<WeightEntry>, ws: seq<Workout>)
    ensures forall x | x in Readings(log, ws) :: Truthy(x.weight)
    ensures |Readings(log, ws)| == 0 <==> NothingCounts(log, ws)
  {
    LogReadingsFacts(log);
    WorkoutReadingsFacts(ws);
    forall x | x in Readings(log, ws) ensures Truthy(x.weight) {
      assert x in LogReadings(log) || x in WorkoutReadings(ws);
    }
  }

  /** With at least one reading, the result is the weight of the first reading,
      in concatenation order, whose date is not earlier than any other. */
  lemma CurrentWeightIsLatest(log: seq<WeightEntry>, ws: seq<Workout>)
    requires ReadingDatesWellFormed(log, ws)
    requires !NothingCounts(log, ws)
    ensures exists i :: IsFirstMax(Readings(log, ws), ReadingKey, i)
                        && CurrentWeight(log, ws) == Readings(log, ws)[i].weight
  {
    LogReadingsFacts(log);
    WorkoutReadingsFacts(ws);
    SortDescHead(Readings(log, ws), ReadingKey);
  }

  /** On the latest date, a weight-log reading beats every workout reading:
      the result is the first log reading of that date if there is one, and
      otherwise the first workout reading of that date. */
  lemma LatestDatePrefersLog(log: seq<WeightEntry>, ws: seq<Workout>, latest: int)
    requires ReadingDatesWellFormed(log, ws)
    requires exists i :: 0 <= i < |Readings(log, ws)| && ReadingKey(Readings(log, ws)[i]) == latest
    requires forall i | 0 <= i < |Readings(log, ws)| :: ReadingKey(Readings(log, ws)[i]) <= latest
    ensures var fromLog := WithKey(LogReadings(log), ReadingKey, latest);
            var fromWorkouts := WithKey(WorkoutReadings(ws), ReadingKey, latest);
            && |fromLog| + |fromWorkouts| > 0
            && CurrentWeight(log, ws) == (if |fromLog| > 0 then fromLog[0].weight else fromWorkouts[0].weight)
  {
    var all := Readings(log, ws);
    var sorted := SortDesc(all, ReadingKey);
    var i :| 0 <= i < |all| && ReadingKey(all[i]) == latest;
    HeadIsMax(all, sorted, ReadingKey);
    assert sorted[0] in multiset(all);
    assert ReadingKey(sorted[0]) == latest;
    WithKeyHead(sorted, ReadingKey, 0);
    SortDescIsStable(all, ReadingKey, latest);
    WithKeyConcat(LogReadings(log), WorkoutReadings(ws), ReadingKey, latest);
  }

  lemma AppendAssoc<T>(x: seq<T>, y: seq<T>, z: seq<T>)
    ensures x + (y + z) == (x + y) + z
  {
  }

  lemma ConcatHeadTail<T>(a: seq<T>, b: seq<T>)
    requires a != []
    ensures (a + b)[0] == a[0] && (a + b)[1..] == a[1..] + b
  {
  }

  lemma {:induction false} LogReadingsConcat(a: seq<WeightEntry>, b: seq<WeightEntry>)
    ensures LogReadings(a + b) == LogReadings(a) + LogReadings(b)
  {
    if a == [] {
      assert a + b == b;
    } else {
      LogReadingsConcat(a[1..], b);
      LogReadingsConcatStep(a, b);
    }
  }

  lemma LogReadingsConcatStep(a: seq<WeightEntry>, b: seq<WeightEntry>)
    requires a != []
    requires LogReadings(a[1..] + b) == LogReadings(a[1..]) + LogReadings(b)
    ensures LogReadings(a + b) == LogReadings(a) + LogReadings(b)
  {
    ConcatHeadTail(a, b);
    AppendAssoc(LogReading(a[0]), LogReadings(a[1..]), LogReadings(b));
  }

  lemma {:induction false} WorkoutReadingsConcat(a: seq<Workout>, b: seq<Workout>)
    ensures WorkoutReadings(a + b) == WorkoutReadings(a) + WorkoutReadings(b)
  {
    if a == [] {
      assert a + b == b;
    } else {
      WorkoutReadingsConcat(a[1..], b);
      WorkoutReadingsConcatStep(a, b);
    }
  }

  lemma WorkoutReadingsConcatStep(a: seq<Workout>, b: seq<Workout>)
    requires a != []
    requires WorkoutReadings(a[1..] + b) == WorkoutReadings(a[1..]) + WorkoutReadings(b)
    ensures WorkoutReadings(a + b) == WorkoutReadings(a) + WorkoutReadings(b)
  {
    ConcatHeadTail(a, b);
    AppendAssoc(WorkoutReading(a[0]), WorkoutReadings(a[1..]), WorkoutReadings(b));
  }

  lemma {:induction false} LogReadingsSkip(log: seq<WeightEntry>, i: int, e: WeightEntry)
    requires 0 <= i <= |log| && !LogEntryCounts(e)
    ensures LogReadings(log[..i] + [e] + log[i..]) == LogReadings(log)
  {
    var pre, post := log[..i], log[i..];
    assert LogReadings([e]) == [] by {
      assert [e][1..] == [];
    }
    calc {
      LogReadings(pre + [e] + post);
      { LogReadingsConcat(pre + [e], post); }
      LogReadings(pre + [e]) + LogReadings(post);
      { LogReadingsConcat(pre, [e]); }
      LogReadings(pre) + LogReadings(post);
      { LogReadingsConcat(pre, post); }
      LogReadings(pre + post);
      { assert pre + post == log; }
      LogReadings(log);
    }
  }

  lemma {:induction false} WorkoutReadingsSkip(ws: seq<Workout>, i: int, w: Workout)
    requires 0 <= i <= |ws| && !WorkoutCounts(w)
    ensures WorkoutReadings(ws[..i] + [w] + ws[i..]) == WorkoutReadings(ws)
  {
    var pre, post := ws[..i], ws[i..];
    assert WorkoutReadings([w]) == [] by {
      assert [w][1..] == [];
    }
    calc {
      WorkoutReadings(pre + [w] + post);
      { WorkoutReadingsConcat(pre + [w], post); }
      WorkoutReadings(pre + [w]) + WorkoutReadings(post);
      { WorkoutReadingsConcat(pre, [w]); }
      WorkoutReadings(pre) + WorkoutReadings(post);
      { WorkoutReadingsConcat(pre, post); }
      WorkoutReadings(pre + post);
      { assert pre + post == ws; }
      WorkoutReadings(ws);
    }
  }

  /** A log entry with a falsy weight or date, wherever it sits, never changes
      the result. */
  lemma IgnoredLogEntry(log: seq<WeightEntry>, ws: seq<Workout>, i: int, e: WeightEntry)
    requires ReadingDatesWellFormed(log, ws)
    requires 0 <= i <= |log| && !LogEntryCounts(e)
    ensures ReadingDatesWellFormed(log[..i] + [e] + log[i..], ws)
    ensures CurrentWeight(log[..i] + [e] + log[i..], ws) == CurrentWeight(log, ws)
  {
    var log' := log[..i] + [e] + log[i..];
    assert multiset(log') == multiset(log) + multiset{e} by {
      assert log == log[..i] + log[i..];
    }
    forall x | x in log' && LogEntryCounts(x) ensures WellFormedDate(x.date) {
      assert x in multiset(log');
      assert x in multiset(log);
    }
    LogReadingsSkip(log, i, e);
  }

  /** A workout with a falsy body weight or date, wherever it sits, never
      changes the result. */
  lemma IgnoredWorkout(log: seq<WeightEntry>, ws: seq<Workout>, i: int, w: Workout)
    requires ReadingDatesWellFormed(log, ws)
    requires 0 <= i <= |ws| && !WorkoutCounts(w)
    ensures ReadingDatesWellFormed(log, ws[..i] + [w] + ws[i..])
    ensures CurrentWeight(log, ws[..i] + [w] + ws[i..]) == CurrentWeight(log, ws)
  {
    var ws' := ws[..i] + [w] + ws[i..];
    assert multiset(ws') == multiset(ws) + multiset{w} by {
      assert ws == ws[..i] + ws[i..];
    }
    forall x | x in ws' && WorkoutCounts(x) ensures WellFormedDate(x.date) {
      assert x in multiset(ws');
      assert x in multiset(ws);
    }
    WorkoutReadingsSkip(ws, i, w);
  }

  /** The resolver recomputed as a single left-to-right scan that keeps the
      first reading with the latest date; it agrees with the sort-based
      definition on every input. */
  method LatestWeightByScan(log: seq<WeightEntry>, ws: seq<Workout>) returns (r: Value)
    requires ReadingDatesWellFormed(log, ws)
    ensures r == CurrentWeight(log, ws)
  {
    var all := Readings(log, ws);
    if |all| == 0 {
      return Str("");
    }
    var best := 0;
    var i := 1;
    while i < |all|
      invariant 1 <= i <= |all|
      invariant IsFirstMax(all[..i], ReadingKey, best)
    {
      FirstMaxStep(all, ReadingKey, i, best);
      if ReadingKey(all[i]) > ReadingKey(all[best]) {
        best := i;
      }
      i := i + 1;
    }
    assert all[..i] == all;
    LogReadingsFacts(log);
    WorkoutReadingsFacts(ws);
    CurrentWeightIsLatest(log, ws);
    ghost var j :| IsFirstMax(all, ReadingKey, j) && CurrentWeight(log, ws) == all[j].weight;
    FirstMaxUnique(all, ReadingKey, best, j);
    r := all[best].weight;
  }
}
