/** The workout history as the dashboard lists it: workouts grouped by their
    exact date string, one group per day, latest day first (src/App.js,
    `groupedWorkouts`). */
module DayGroups {
  import opened Records
  import opened Dates
  import opened StableSort

  /** One entry of the history list: a date and the workouts logged on it. */
  datatype DayGroup = DayGroup(date: string, activities: seq<Workout>)

  /** The accumulator of the `reduce`: a plain object keyed by date. When its
      keys are not array indices (no `YYYY-MM-DD` date is one), `Object.entries`
      lists them in insertion order, and the object is an ordered list of
      distinct keys together with the value stored under each. Integer-like
      keys such as `"7"`, which JavaScript lists first in numeric order, and
      keys naming an `Object.prototype` member such as `"constructor"`, which
      the empty object already holds, are outside this model. */
  datatype DateTable = DateTable(keys: seq<string>, groups: map<string, seq<Workout>>)

  ghost predicate Valid(t: DateTable) {
    && DistinctDates(t.keys)
    && (forall d :: d in t.groups <==> d in t.keys)
  }

  /** The dates that occur in `ws`. */
  ghost function DatesOf(ws: seq<Workout>): set<string> {
    set w | w in ws :: w.date
  }

  /** The workouts of `ws` dated `d`, in their order in `ws`. */
  function OnDate(ws: seq<Workout>, d: string): seq<Workout> {
    if ws == [] then []
    else OnDate(ws[..|ws| - 1], d) + (if ws[|ws| - 1].date == d then [ws[|ws| - 1]] else [])
  }

  /** The position of the first workout dated `d`. */
  function FirstIndex(ws: seq<Workout>, d: string): (i: nat)
    requires d in DatesOf(ws)
    ensures i < |ws| && ws[i].date == d
    ensures forall j | 0 <= j < i :: ws[j].date != d
  {
    if ws[0].date == d then 0
    else
      assert d in DatesOf(ws[1..]) by {
        var w :| w in ws && w.date == d;
        assert w in ws[1..];
      }
      1 + FirstIndex(ws[1..], d)
  }

  /** One step of the `reduce`: append the workout to its date's array,
      creating the array (and so a new key, at the end) on first sight. A date
      naming an `Object.prototype` member would find a value already there in
      JavaScript; such dates are outside the model (see `DateTable`). */
  function Push(t: DateTable, w: Workout): (r: DateTable)
    ensures r.groups.Keys == t.groups.Keys + {w.date}
    ensures r.groups[w.date] == (if w.date in t.groups then t.groups[w.date] else []) + [w]
    ensures forall d | d in t.groups && d != w.date :: r.groups[d] == t.groups[d]
    ensures r.keys == t.keys + (if w.date in t.groups then [] else [w.date])
    ensures Valid(t) ==> Valid(r)
  {
    if w.date in t.groups then t.(groups := t.groups[w.date := t.groups[w.date] + [w]])
    else DateTable(t.keys + [w.date], t.groups[w.date := [w]])
  }

  /** One step of the `reduce` keeps the accumulator a partition of the
      workouts seen so far. */
  lemma {:induction false} PushKeepsPartition(t: DateTable, ws: seq<Workout>)
    requires ws != []
    requires Valid(t) && t.groups.Keys == DatesOf(ws[..|ws| - 1])
    requires forall d | d in t.groups :: t.groups[d] == OnDate(ws[..|ws| - 1], d)
    ensures Valid(Push(t, ws[|ws| - 1])) && Push(t, ws[|ws| - 1]).groups.Keys == DatesOf(ws)
    ensures forall d | d in Push(t, ws[|ws| - 1]).groups :: Push(t, ws[|ws| - 1]).groups[d] == OnDate(ws, d)
  {
    var front, last := ws[..|ws| - 1], ws[|ws| - 1];
    assert front + [last] == ws;
    DatesOfSnoc(front, last);
    PushGroups(t, front, last);
  }

  lemma {:induction false} DatesOfSnoc(ws: seq<Workout>, w: Workout)
    ensures DatesOf(ws + [w]) == DatesOf(ws) + {w.date}
  {
    forall x | x in ws + [w] ensures x in ws || x == w {}
  }

  lemma {:induction false} OnDateSnoc(ws: seq<Workout>, w: Workout, d: string)
    ensures OnDate(ws + [w], d) == OnDate(ws, d) + (if w.date == d then [w] else [])
  {
    assert (ws + [w])[..|ws|] == ws;
  }

  lemma {:induction false} PushGroups(t: DateTable, ws: seq<Workout>, w: Workout)
    requires t.groups.Keys == DatesOf(ws)
    requires forall d | d in t.groups :: t.groups[d] == OnDate(ws, d)
    ensures forall d | d in Push(t, w).groups :: Push(t, w).groups[d] == OnDate(ws + [w], d)
  {
    var t' := Push(t, w);
    forall d | d in t'.groups ensures t'.groups[d] == OnDate(ws + [w], d) {
      OnDateSnoc(ws, w, d);
      if d !in t.groups {
        OnDateAbsent(ws, d);
      }
    }
  }

  lemma {:induction false} OnDateAbsent(ws: seq<Workout>, d: string)
    requires d !in DatesOf(ws)
    ensures OnDate(ws, d) == []
  {
    if ws != [] {
      var front, last := ws[..|ws| - 1], ws[|ws| - 1];
      assert front + [last] == ws;
      DatesOfSnoc(front, last);
      OnDateAbsent(front, d);
    }
  }

  /** The `reduce` over the workouts, left to right. Every date of the input
      becomes exactly one key, and the array under a date holds exactly the
      workouts of that date, in input order. */
  function GroupByDate(ws: seq<Workout>): (t: DateTable)
    ensures Valid(t)
    ensures t.groups.Keys == DatesOf(ws)
    ensures forall d | d in t.groups :: t.groups[d] == OnDate(ws, d)
  {
    if ws == [] then DateTable([], map[])
    else
      var t := GroupByDate(ws[..|ws| - 1]);
      PushKeepsPartition(t, ws);
      Push(t, ws[|ws| - 1])
  }

  lemma {:induction false} FirstIndexSnoc(ws: seq<Workout>, d: string)
    requires ws != [] && d in DatesOf(ws)
    ensures d in DatesOf(ws[..|ws| - 1]) ==> FirstIndex(ws, d) == FirstIndex(ws[..|ws| - 1], d)
    ensures d !in DatesOf(ws[..|ws| - 1]) ==> FirstIndex(ws, d) == |ws| - 1
  {
    var front := ws[..|ws| - 1];
    assert forall j | 0 <= j < |front| :: ws[j] == front[j] && front[j] in front;
    if d in DatesOf(front) {
      var k := FirstIndex(front, d);
      assert ws[k].date == d;
    }
  }

  /** `keys` are dates of `ws`, listed in the order of their first occurrence. */
  ghost predicate InFirstOccurrenceOrder(ws: seq<Workout>, keys: seq<string>) {
    && (forall i | 0 <= i < |keys| :: keys[i] in DatesOf(ws))
    && (forall i, j | 0 <= i < j < |keys| :: FirstIndex(ws, keys[i]) < FirstIndex(ws, keys[j]))
  }

  lemma {:induction false} PushKeepsFirstOccurrenceOrder(t: DateTable, ws: seq<Workout>)
    requires ws != []
    requires t.groups.Keys == DatesOf(ws[..|ws| - 1]) && (forall k :: k in t.groups <==> k in t.keys)
    requires InFirstOccurrenceOrder(ws[..|ws| - 1], t.keys)
    ensures InFirstOccurrenceOrder(ws, Push(t, ws[|ws| - 1]).keys)
  {
    SnocKeepsFirstOccurrenceOrder(ws, t.keys, ws[|ws| - 1].date !in t.groups);
  }

  /** The key-order half of a `reduce` step, on the key list alone: the last
      workout's date is appended exactly when it is new. */
  lemma {:induction false} SnocKeepsFirstOccurrenceOrder(ws: seq<Workout>, keys: seq<string>, isNew: bool)
    requires ws != [] && InFirstOccurrenceOrder(ws[..|ws| - 1], keys)
    requires isNew <==> ws[|ws| - 1].date !in DatesOf(ws[..|ws| - 1])
    ensures InFirstOccurrenceOrder(ws, keys + (if isNew then [ws[|ws| - 1].date] else []))
  {
    var front, last := ws[..|ws| - 1], ws[|ws| - 1];
    var keys' := keys + (if isNew then [last.date] else []);
    DatesOfSnoc(front, last);
    assert front + [last] == ws;
    forall i | 0 <= i < |keys'| ensures keys'[i] in DatesOf(ws) {
    }
    forall i, j | 0 <= i < j < |keys'| ensures FirstIndex(ws, keys'[i]) < FirstIndex(ws, keys'[j]) {
      assert keys'[i] == keys[i];
      FirstIndexSnoc(ws, keys'[i]);
      FirstIndexSnoc(ws, keys'[j]);
      if j < |keys| {
        assert keys'[j] == keys[j];
      } else {
        assert keys'[j] == last.date;
      }
    }
  }

  /** Keys appear in the order in which their dates first occur in the input.
      This is the order `Object.entries` reports for keys that are not array
      indices, which covers every well-formed date. */
  lemma {:induction false} GroupOrderIsFirstOccurrence(ws: seq<Workout>)
    ensures InFirstOccurrenceOrder(ws, GroupByDate(ws).keys)
  {
    if ws != [] {
      var t0 := GroupByDate(ws[..|ws| - 1]);
      GroupOrderIsFirstOccurrence(ws[..|ws| - 1]);
      PushKeepsFirstOccurrenceOrder(t0, ws);
    }
  }

  /** `Object.entries(groups).map(([date, activities]) => ({date, activities}))`. */
  function Entries(t: DateTable): (r: seq<DayGroup>)
    requires Valid(t)
    ensures |r| == |t.keys|
    ensures forall i | 0 <= i < |r| :: r[i].date == t.keys[i] && r[i].activities == t.groups[t.keys[i]]
  {
    seq(|t.keys|, i requires 0 <= i < |t.keys| => DayGroup(t.keys[i], t.groups[t.keys[i]]))
  }

  /** The comparator's view of a group: `new Date(group.date)`. */
  function GroupKey(g: DayGroup): int {
    DateKey(g.date)
  }

  /** Every workout carries a `YYYY-MM-DD` date. */
  ghost predicate AllDatesWellFormed(ws: seq<Workout>) {
    forall w | w in ws :: WellFormedDate(w.date)
  }

  /** `groupedWorkouts`: the groups of the `reduce`, sorted latest day first. */
  function GroupedWorkouts(ws: seq<Workout>): (r: seq<DayGroup>)
    requires AllDatesWellFormed(ws)
    ensures |r| == |GroupByDate(ws).keys|
    ensures forall g | g in r :: g.date in DatesOf(ws)
    ensures SortedDesc(r, GroupKey)
  {
    var es := Entries(GroupByDate(ws));
    EntryDatesAreInputDates(ws);
    var r := SortDesc(es, GroupKey);
    SameMultisetSameMembers(r, es);
    r
  }

  /** Every entry of the grouped object is keyed by a date of the input. */
  lemma EntryDatesAreInputDates(ws: seq<Workout>)
    ensures forall g | g in Entries(GroupByDate(ws)) :: g.date in DatesOf(ws)
  {
    var t := GroupByDate(ws);
    EntryDatesAreKeys(t);
    assert t.groups.Keys == DatesOf(ws);
  }

  /** Every entry is keyed by a key of the table. */
  lemma EntryDatesAreKeys(t: DateTable)
    requires Valid(t)
    ensures forall g | g in Entries(t) :: g.date in t.groups
  {
    var es := Entries(t);
    forall g | g in es ensures g.date in t.groups {
      var i :| 0 <= i < |es| && es[i] == g;
    }
  }

  /** Two sequences with the same multiset have the same members. */
  lemma SameMultisetSameMembers<T>(a: seq<T>, b: seq<T>)
    requires multiset(a) == multiset(b)
    ensures forall x | x in a :: x in b
  {
    forall x | x in a ensures x in b {
      assert x in multiset(a);
    }
  }

  /** All activities of all groups, group by group. */
  function Flatten(gs: seq<DayGroup>): seq<Workout> {
    if gs == [] then [] else gs[0].activities + Flatten(gs[1..])
  }

  lemma OnDateMembers(ws: seq<Workout>, d: string)
    ensures forall w :: w in OnDate(ws, d) <==> w in ws && w.date == d
  {
    if ws != [] {
      var front := ws[..|ws| - 1];
      OnDateMembers(front, d);
      assert ws == front + [ws[|ws| - 1]];
    }
  }

  /** `g` is the group of one date of `ws`, holding exactly that date's workouts. */
  ghost predicate IsDayOf(ws: seq<Workout>, g: DayGroup) {
    g.date in DatesOf(ws) && g.activities == OnDate(ws, g.date) && |g.activities| > 0
  }

  lemma {:induction false} EntriesAreDays(ws: seq<Workout>)
    ensures var e := Entries(GroupByDate(ws));
            && (forall g | g in e :: IsDayOf(ws, g))
            && (forall d | d in DatesOf(ws) :: exists g :: g in e && g.date == d)
  {
    var t := GroupByDate(ws);
    var e := Entries(t);
    forall g | g in e ensures IsDayOf(ws, g) {
      var k :| 0 <= k < |e| && e[k] == g;
      assert t.keys[k] in t.groups;
      OnDatePresent(ws, g.date);
    }
    forall d | d in DatesOf(ws) ensures exists g :: g in e && g.date == d {
      assert d in t.groups;
      var k :| 0 <= k < |t.keys| && t.keys[k] == d;
      assert e[k] in e;
    }
  }

  lemma {:induction false} OnDatePresent(ws: seq<Workout>, d: string)
    requires d in DatesOf(ws)
    ensures |OnDate(ws, d)| > 0
  {
    var w :| w in ws && w.date == d;
    OnDateMembers(ws, d);
    assert w in OnDate(ws, d);
  }

  lemma {:induction false} SortedGroupsAreDays(ws: seq<Workout>)
    requires AllDatesWellFormed(ws)
    ensures forall g | g in GroupedWorkouts(ws) :: IsDayOf(ws, g)
  {
    var e := Entries(GroupByDate(ws));
    EntriesAreDays(ws);
    forall g | g in GroupedWorkouts(ws) ensures IsDayOf(ws, g) {
      assert g in multiset(e);
    }
  }

  lemma {:induction false} SortedGroupsCoverDates(ws: seq<Workout>)
    requires AllDatesWellFormed(ws)
    ensures forall w | w in ws :: exists g :: g in GroupedWorkouts(ws) && g.date == w.date
  {
    var e := Entries(GroupByDate(ws));
    EntriesAreDays(ws);
    forall w | w in ws ensures exists g :: g in GroupedWorkouts(ws) && g.date == w.date {
      assert w.date in DatesOf(ws);
      var g :| g in e && g.date == w.date;
      assert g in multiset(GroupedWorkouts(ws));
    }
  }

  /** Each history entry holds exactly its date's workouts, in input order, and
      is never empty; every date of the input has an entry. */
  lemma {:induction false} GroupedWorkoutsPartition(ws: seq<Workout>)
    requires AllDatesWellFormed(ws)
    ensures forall g | g in GroupedWorkouts(ws) :: g.activities == OnDate(ws, g.date) && |g.activities| > 0
    ensures forall w | w in ws :: exists g :: g in GroupedWorkouts(ws) && g.date == w.date
  {
    SortedGroupsAreDays(ws);
    SortedGroupsCoverDates(ws);
  }

  /** History entries are strictly latest first, so no date is listed twice. */
  lemma {:induction false} GroupedWorkoutsDescending(ws: seq<Workout>)
    requires AllDatesWellFormed(ws)
    ensures var r := GroupedWorkouts(ws);
            forall i, j | 0 <= i < j < |r| :: DateKey(r[i].date) > DateKey(r[j].date) && r[i].date != r[j].date
  {
    var t := GroupByDate(ws);
    var e := Entries(t);
    forall i, j | 0 <= i < j < |e| ensures GroupKey(e[i]) != GroupKey(e[j]) {
      assert t.keys[i] in t.groups && t.keys[j] in t.groups;
      var wi :| wi in ws && wi.date == t.keys[i];
      var wj :| wj in ws && wj.date == t.keys[j];
      if DateKey(t.keys[i]) == DateKey(t.keys[j]) {
        DateKeyInjective(t.keys[i], t.keys[j]);
      }
    }
    assert DistinctKeys(e, GroupKey);
  }

  /** The dates of a list of groups, in list order. */
  function GroupDates(gs: seq<DayGroup>): (ds: seq<string>)
    ensures |ds| == |gs| && forall i | 0 <= i < |gs| :: ds[i] == gs[i].date
  {
    if gs == [] then [] else [gs[0].date] + GroupDates(gs[1..])
  }

  ghost predicate DistinctDates(ds: seq<string>) {
    forall i, j | 0 <= i < j < |ds| :: ds[i] != ds[j]
  }

  /** The workouts of `ws` on each date of `ds` in turn. */
  function FlattenOn(ds: seq<string>, ws: seq<Workout>): seq<Workout> {
    if ds == [] then [] else OnDate(ws, ds[0]) + FlattenOn(ds[1..], ws)
  }

  lemma {:induction false} FlattenOnEmpty(ds: seq<string>)
    ensures FlattenOn(ds, []) == []
  {
    if ds != [] {
      FlattenOnEmpty(ds[1..]);
    }
  }

  lemma DistinctDatesTail(ds: seq<string>, d: string)
    requires |ds| > 0 && DistinctDates(ds)
    ensures DistinctDates(ds[1..]) && ds[0] !in ds[1..]
    ensures d in ds <==> d == ds[0] || d in ds[1..]
  {
    forall i, j | 0 <= i < j < |ds[1..]| ensures ds[1..][i] != ds[1..][j] {
      assert ds[1..][i] == ds[i + 1] && ds[1..][j] == ds[j + 1];
    }
    forall k | 0 <= k < |ds[1..]| ensures ds[1..][k] != ds[0] {
      assert ds[1..][k] == ds[k + 1];
    }
    assert ds == [ds[0]] + ds[1..];
  }

  lemma FlattenOnCons(ds: seq<string>, ws: seq<Workout>)
    requires ds != []
    ensures multiset(FlattenOn(ds, ws)) == multiset(OnDate(ws, ds[0])) + multiset(FlattenOn(ds[1..], ws))
  {
  }

  lemma OnDateSnocMultiset(ws: seq<Workout>, w: Workout, d: string)
    ensures multiset(OnDate(ws + [w], d)) == multiset(OnDate(ws, d)) + (if w.date == d then multiset{w} else multiset{})
  {
    OnDateSnoc(ws, w, d);
  }

  lemma {:induction false} FlattenOnSnoc(ds: seq<string>, ws: seq<Workout>, w: Workout)
    requires DistinctDates(ds)
    ensures multiset(FlattenOn(ds, ws + [w])) == multiset(FlattenOn(ds, ws)) + (if w.date in ds then multiset{w} else multiset{})
  {
    if ds != [] {
      DistinctDatesTail(ds, w.date);
      FlattenOnSnoc(ds[1..], ws, w);
      OnDateSnocMultiset(ws, w, ds[0]);
      FlattenOnCons(ds, ws);
      FlattenOnCons(ds, ws + [w]);
    }
  }

  /** Listing the workouts of every date of `ws` once, date by date, lists
      every workout of `ws` exactly once. */
  lemma {:induction false} FlattenOnAll(ds: seq<string>, ws: seq<Workout>)
    requires DistinctDates(ds)
    requires forall w | w in ws :: w.date in ds
    ensures multiset(FlattenOn(ds, ws)) == multiset(ws)
  {
    if ws == [] {
      FlattenOnEmpty(ds);
    } else {
      var front, last := ws[..|ws| - 1], ws[|ws| - 1];
      assert front + [last] == ws;
      assert last in ws;
      assert forall w | w in front :: w in ws;
      FlattenOnAll(ds, front);
      FlattenOnSnoc(ds, front, last);
    }
  }

  lemma {:induction false} FlattenIsFlattenOn(gs: seq<DayGroup>, ws: seq<Workout>)
    requires forall g | g in gs :: g.activities == OnDate(ws, g.date)
    ensures Flatten(gs) == FlattenOn(GroupDates(gs), ws)
  {
    if gs != [] {
      assert gs[0] in gs;
      assert forall g | g in gs[1..] :: g in gs;
      FlattenIsFlattenOn(gs[1..], ws);
    }
  }

  /** Every workout's date is among the group dates. */
  lemma EveryDateHasAGroup(ws: seq<Workout>, r: seq<DayGroup>)
    requires forall w | w in ws :: exists g :: g in r && g.date == w.date
    ensures forall w | w in ws :: w.date in GroupDates(r)
  {
    var ds := GroupDates(r);
    forall w | w in ws ensures w.date in ds {
      var g :| g in r && g.date == w.date;
      var i :| 0 <= i < |r| && r[i] == g;
      assert ds[i] == w.date;
    }
  }

  /** Reading the history top to bottom shows every workout exactly once. */
  lemma {:induction false} HistoryListsEachWorkoutOnce(ws: seq<Workout>)
    requires AllDatesWellFormed(ws)
    ensures multiset(Flatten(GroupedWorkouts(ws))) == multiset(ws)
    ensures |Flatten(GroupedWorkouts(ws))| == |ws|
  {
    var r := GroupedWorkouts(ws);
    var ds := GroupDates(r);
    GroupedWorkoutsPartition(ws);
    GroupedWorkoutsDescending(ws);
    EveryDateHasAGroup(ws, r);
    FlattenIsFlattenOn(r, ws);
    FlattenOnAll(ds, ws);
    assert |multiset(Flatten(r))| == |multiset(ws)|;
  }
}
