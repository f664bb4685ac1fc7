/** The habit list the React dashboard pages keep in state, and the pure
    `map`, `filter` and spread expressions that compute each next value of
    it: the two toggles, deletion, appending, the progress ring, the period
    sections, the add form and the grid card's bars. */
module ClientHabits {
  import opened Domain
  import opened Seqs
  import opened Database
  import opened History

  /** A habit as the page holds it. The mock habits carry no description
      (`None`); the sample page's habits carry no history (`None`). */
  datatype ClientHabit = ClientHabit(
    id: int,
    title: string,
    description: Option<string>,
    period: string,
    routineType: string,
    time: string,
    isTimeMode: bool,
    icon: string,
    status: Status,
    note: string,
    history: Option<seq<int>>)

  /** The fields of the add form, which are also the object it submits. */
  datatype HabitForm = HabitForm(
    title: string,
    description: string,
    time: string,
    isTimeMode: bool,
    period: string,
    routineType: string,
    icon: string)

  /** A history as the dashboard page keeps it: present, fourteen 0/1 cells. */
  predicate HasWindow(h: ClientHabit)
  {
    && h.history.Some?
    && |h.history.value| == WindowSize
    && forall k :: 0 <= k < |h.history.value| ==> h.history.value[k] == 0 || h.history.value[k] == 1
  }

  /** The status `toggleComplete` gives its target: a completed habit goes
      back to pending, a pending or skipped one becomes completed. */
  function NextOnComplete(s: Status): (r: Status)
    ensures r == Pending <==> s == Completed
    ensures r == Completed <==> s != Completed
  {
    if s == Completed then Pending else Completed
  }

  /** The status `toggleSkip` gives its target: a skipped habit goes back to
      pending, a pending or completed one becomes skipped. */
  function NextOnSkip(s: Status): (r: Status)
    ensures r == Pending <==> s == Skipped
    ensures r == Skipped <==> s != Skipped
  {
    if s == Skipped then Pending else Skipped
  }

  /** `habits.map(h => h.id === id ? { ...h, status: next } : h)` for
      `toggleComplete`: length and order are kept, every habit with a
      different id is unchanged, and a habit with the id changes its status,
      always, and nothing else. */
  function ToggleComplete(hs: seq<ClientHabit>, id: int): (r: seq<ClientHabit>)
    ensures |r| == |hs|
    ensures forall i :: 0 <= i < |hs| ==> r[i].(status := hs[i].status) == hs[i]
    ensures forall i :: 0 <= i < |hs| ==> (r[i].status != hs[i].status <==> hs[i].id == id)
    ensures forall i :: 0 <= i < |hs| && hs[i].id == id ==>
      (r[i].status == Pending <==> hs[i].status == Completed) && r[i].status != Skipped
  {
    seq(|hs|, i requires 0 <= i < |hs| =>
      if hs[i].id == id then hs[i].(status := NextOnComplete(hs[i].status)) else hs[i])
  }

  /** The same for `toggleSkip`. */
  function ToggleSkip(hs: seq<ClientHabit>, id: int): (r: seq<ClientHabit>)
    ensures |r| == |hs|
    ensures forall i :: 0 <= i < |hs| ==> r[i].(status := hs[i].status) == hs[i]
    ensures forall i :: 0 <= i < |hs| ==> (r[i].status != hs[i].status <==> hs[i].id == id)
    ensures forall i :: 0 <= i < |hs| && hs[i].id == id ==>
      (r[i].status == Pending <==> hs[i].status == Skipped) && r[i].status != Completed
  {
    seq(|hs|, i requires 0 <= i < |hs| =>
      if hs[i].id == id then hs[i].(status := NextOnSkip(hs[i].status)) else hs[i])
  }

  /** Completing twice restores the list exactly when no habit with the id
      was skipped (a skipped habit comes back pending, not skipped). */
  lemma ToggleCompleteTwice(hs: seq<ClientHabit>, id: int)
    ensures ToggleComplete(ToggleComplete(hs, id), id) == hs
        <==> forall i :: 0 <= i < |hs| && hs[i].id == id ==> hs[i].status != Skipped
  {
    var twice := ToggleComplete(ToggleComplete(hs, id), id);
    if forall i :: 0 <= i < |hs| && hs[i].id == id ==> hs[i].status != Skipped {
      assert forall i :: 0 <= i < |hs| ==> twice[i] == hs[i];
    } else {
      var i :| 0 <= i < |hs| && hs[i].id == id && hs[i].status == Skipped;
      assert twice[i].status != hs[i].status;
    }
  }

  /** Skipping twice restores the list exactly when no habit with the id was
      completed; in particular a pending habit is pending again. */
  lemma ToggleSkipTwice(hs: seq<ClientHabit>, id: int)
    ensures ToggleSkip(ToggleSkip(hs, id), id) == hs
        <==> forall i :: 0 <= i < |hs| && hs[i].id == id ==> hs[i].status != Completed
  {
    var twice := ToggleSkip(ToggleSkip(hs, id), id);
    if forall i :: 0 <= i < |hs| && hs[i].id == id ==> hs[i].status != Completed {
      assert forall i :: 0 <= i < |hs| ==> twice[i] == hs[i];
    } else {
      var i :| 0 <= i < |hs| && hs[i].id == id && hs[i].status == Completed;
      assert twice[i].status != hs[i].status;
    }
  }

  /** The test `deleteHabit(id)` keeps a habit by. */
  function KeepsOther(id: int): ClientHabit -> bool
  {
    (h: ClientHabit) => h.id != id
  }

  /** `habits.filter(h => h.id !== id)`: no habit with the id is left, and
      every other habit is. */
  function DeleteHabit(hs: seq<ClientHabit>, id: int): (r: seq<ClientHabit>)
    ensures forall i :: 0 <= i < |r| ==> r[i].id != id && r[i] in hs
    ensures forall i :: 0 <= i < |hs| && hs[i].id != id ==> hs[i] in r
  {
    FilterMembership(hs, KeepsOther(id));
    Filter(hs, KeepsOther(id))
  }

  /** Deletion keeps the order of the remaining habits: deleting from a
      concatenation deletes from each part. */
  lemma DeleteKeepsOrder(a: seq<ClientHabit>, b: seq<ClientHabit>, id: int)
    ensures DeleteHabit(a + b, id) == DeleteHabit(a, id) + DeleteHabit(b, id)
  {
    FilterConcat(a, b, KeepsOther(id));
  }

  /** Deleting an id no habit has changes nothing, and deleting keeps the
      length exactly in that case. */
  lemma DeleteAbsent(hs: seq<ClientHabit>, id: int)
    ensures (forall i :: 0 <= i < |hs| ==> hs[i].id != id) <==> |DeleteHabit(hs, id)| == |hs|
    ensures (forall i :: 0 <= i < |hs| ==> hs[i].id != id) ==> DeleteHabit(hs, id) == hs
  {
    FilterFullLength(hs, KeepsOther(id));
    if forall i :: 0 <= i < |hs| ==> hs[i].id != id {
      FilterKeepsAll(hs, KeepsOther(id));
    }
  }

  /** The habit `handleAddHabit` builds from a submitted form: the form's
      fields, the fresh id, pending, an empty note and the given history. */
  function Created(form: HabitForm, id: int, history: Option<seq<int>>): (h: ClientHabit)
    ensures h.id == id && h.status == Pending && h.note == "" && h.history == history
    ensures h.title == form.title && h.description == Some(form.description)
    ensures h.period == form.period && h.routineType == form.routineType
    ensures h.time == form.time && h.isTimeMode == form.isTimeMode && h.icon == form.icon
  {
    ClientHabit(id, form.title, Some(form.description), form.period, form.routineType,
      form.time, form.isTimeMode, form.icon, Pending, "", history)
  }

  /** `[...habits, { ...newHabit, id, status: 'pending', note: '', ... }]`:
      exactly one habit is appended, after all the others. */
  function AddHabit(hs: seq<ClientHabit>, form: HabitForm, id: int, history: Option<seq<int>>): (r: seq<ClientHabit>)
    ensures |r| == |hs| + 1 && r[..|hs|] == hs
    ensures r[|hs|] == Created(form, id, history)
  {
    hs + [Created(form, id, history)]
  }

  /** With an id no habit has yet, deleting the added habit restores the
      list. */
  lemma AddThenDelete(hs: seq<ClientHabit>, form: HabitForm, id: int, history: Option<seq<int>>)
    requires forall i :: 0 <= i < |hs| ==> hs[i].id != id
    ensures DeleteHabit(AddHabit(hs, form, id, history), id) == hs
  {
    var h := Created(form, id, history);
    DeleteKeepsOrder(hs, [h], id);
    DeleteAbsent(hs, id);
    assert Filter([h], KeepsOther(id)) == [];
  }

  predicate IsCompleted(h: ClientHabit)
  {
    h.status == Completed
  }

  /** `habits.filter(h => h.status === 'completed').length`. */
  function CountCompleted(hs: seq<ClientHabit>): (c: nat)
    ensures c <= |hs|
    ensures c == 0 <==> forall i :: 0 <= i < |hs| ==> hs[i].status != Completed
    ensures c == |hs| <==> forall i :: 0 <= i < |hs| ==> hs[i].status == Completed
  {
    FilterFullLength(hs, IsCompleted);
    FilterMembership(hs, IsCompleted);
    var kept := Filter(hs, IsCompleted);
    assert kept != [] ==> IsCompleted(kept[0]) && exists j :: 0 <= j < |hs| && hs[j] == kept[0];
    |kept|
  }

  /** `Math.round(c / n * 100)` on exact rationals: the percentage nearest
      to `100 * c / n`, halves rounded up. */
  function RoundedPercent(c: nat, n: nat): (p: nat)
    requires 0 < n && c <= n
    ensures p <= 100
    ensures n * (2 * p - 1) <= 200 * c < n * (2 * p + 1)
    ensures c == 0 ==> p == 0
    ensures c == n ==> p == 100
  {
    RoundingBounds(c, n);
    (200 * c + n) / (2 * n)
  }

  /** The facts `RoundedPercent` promises, about its quotient. */
  lemma RoundingBounds(c: nat, n: nat)
    requires 0 < n && c <= n
    ensures var p := (200 * c + n) / (2 * n);
      && 0 <= p <= 100
      && n * (2 * p - 1) <= 200 * c < n * (2 * p + 1)
      && (c == 0 ==> p == 0)
      && (c == n ==> p == 100)
  {
    var a, m := 200 * c + n, 2 * n;
    var p := a / m;
    DivisionBounds(a, m, p);
    assert n * (2 * p - 1) == p * m - n;
    assert n * (2 * p + 1) == (p + 1) * m - n;
    assert 0 <= p by {
      if p < 0 {
        LessTimes(p, 0, m);
      }
    }
    assert a < 101 * m;
    LessTimes(p, 101, m);
    if c == 0 {
      assert a < 1 * m;
      LessTimes(p, 1, m);
    }
    if c == n {
      assert 100 * m < a;
      LessTimes(100, p + 1, m);
    }
  }

  /** A product with a positive factor keeps the order of the other factor. */
  lemma LessTimes(x: int, y: int, m: int)
    requires 0 < m
    ensures x * m < y * m <==> x < y
  {
  }

  /** The two inequalities that pin down a quotient. */
  lemma DivisionBounds(a: nat, b: nat, q: int)
    requires 0 < b && q == a / b
    ensures q * b <= a < (q + 1) * b
  {
  }

  /** `calculateProgress`: 0 for an empty list, otherwise the rounded share
      of completed habits, so a value in [0, 100] that is 0 when none and 100
      when all are completed. */
  function Progress(hs: seq<ClientHabit>): (p: nat)
    ensures p <= 100
    ensures |hs| == 0 ==> p == 0
    ensures (forall i :: 0 <= i < |hs| ==> hs[i].status != Completed) ==> p == 0
    ensures 0 < |hs| && (forall i :: 0 <= i < |hs| ==> hs[i].status == Completed) ==> p == 100
    ensures 0 < |hs| ==> |hs| * (2 * p - 1) <= 200 * CountCompleted(hs) < |hs| * (2 * p + 1)
  {
    if |hs| == 0 then 0 else RoundedPercent(CountCompleted(hs), |hs|)
  }

  /** When `i` is the only position with its id, a toggle by that id is an
      update of position `i` alone. */
  lemma ToggleCompleteAt(hs: seq<ClientHabit>, i: nat)
    requires i < |hs| && forall j :: 0 <= j < |hs| && j != i ==> hs[j].id != hs[i].id
    ensures ToggleComplete(hs, hs[i].id) == hs[i := hs[i].(status := NextOnComplete(hs[i].status))]
  {
  }

  /** Completing a habit whose id is unique raises the completed count by one,
      and un-completing it lowers the count by one. */
  lemma {:induction false} CompleteChangesCount(hs: seq<ClientHabit>, i: nat)
    requires i < |hs| && forall j :: 0 <= j < |hs| && j != i ==> hs[j].id != hs[i].id
    ensures hs[i].status != Completed ==> CountCompleted(ToggleComplete(hs, hs[i].id)) == CountCompleted(hs) + 1
    ensures hs[i].status == Completed ==> CountCompleted(ToggleComplete(hs, hs[i].id)) + 1 == CountCompleted(hs)
  {
    ToggleCompleteAt(hs, i);
    FilterLengthUpdate(hs, i, hs[i].(status := NextOnComplete(hs[i].status)), IsCompleted);
  }

  /** Skipping a habit with a unique id removes it from the completed count
      if it was completed and otherwise leaves the count alone. */
  lemma {:induction false} SkipChangesCount(hs: seq<ClientHabit>, i: nat)
    requires i < |hs| && forall j :: 0 <= j < |hs| && j != i ==> hs[j].id != hs[i].id
    ensures CountCompleted(ToggleSkip(hs, hs[i].id)) + (if hs[i].status == Completed then 1 else 0)
         == CountCompleted(hs)
  {
    var x := hs[i].(status := NextOnSkip(hs[i].status));
    assert ToggleSkip(hs, hs[i].id) == hs[i := x];
    FilterLengthUpdate(hs, i, x, IsCompleted);
  }

  /** The three sections of the routine view, in rendering order. */
  const Periods: seq<string> := ["morning", "afternoon", "evening"]

  /** The test `renderSection(title, periodKey)` selects a habit by. */
  function InPeriod(period: string): ClientHabit -> bool
  {
    (h: ClientHabit) => h.period == period
  }

  /** `habits.filter(h => h.period === periodKey)`. */
  function Section(hs: seq<ClientHabit>, period: string): (r: seq<ClientHabit>)
    ensures forall i :: 0 <= i < |r| ==> r[i].period == period && r[i] in hs
    ensures forall i :: 0 <= i < |hs| && hs[i].period == period ==> hs[i] in r
  {
    FilterMembership(hs, InPeriod(period));
    Filter(hs, InPeriod(period))
  }

  /** A habit whose period is one of the three is rendered in the section of
      its period and in neither of the other two. */
  lemma ExactlyOneSection(hs: seq<ClientHabit>, i: nat)
    requires i < |hs| && hs[i].period in Periods
    ensures forall k :: 0 <= k < |Periods| ==> (hs[i] in Section(hs, Periods[k]) <==> hs[i].period == Periods[k])
  {
    forall k | 0 <= k < |Periods| && hs[i] in Section(hs, Periods[k])
      ensures hs[i].period == Periods[k]
    {
      var r := Section(hs, Periods[k]);
      var j :| 0 <= j < |r| && r[j] == hs[i];
    }
  }

  /** When every period is one of the three, the three sections together
      render each habit once: their lengths add up to the list's. */
  lemma {:induction false} SectionsPartition(hs: seq<ClientHabit>)
    requires forall i :: 0 <= i < |hs| ==> hs[i].period in Periods
    ensures |Section(hs, "morning")| + |Section(hs, "afternoon")| + |Section(hs, "evening")| == |hs|
  {
    if hs != [] {
      SectionsPartition(hs[1..]);
      assert hs[0].period in Periods;
    }
  }

  /** The form's initial state. */
  const InitialForm: HabitForm := HabitForm("", "", "", true, "morning", "Daily", "sun")

  /** `handleSubmit`: nothing is submitted while the title is empty; otherwise
      the form is submitted as it is, except that an empty time becomes
      "09:00" in clock-time mode and "30 mins" in duration mode. */
  function Submit(f: HabitForm): (r: Option<HabitForm>)
    ensures r.None? <==> f.title == ""
    ensures r.Some? ==> r.value == f.(time := r.value.time) && r.value.time != ""
    ensures r.Some? && f.time != "" ==> r.value.time == f.time
    ensures r.Some? && f.time == "" && f.isTimeMode ==> r.value.time == "09:00"
    ensures r.Some? && f.time == "" && !f.isTimeMode ==> r.value.time == "30 mins"
  {
    if f.title == "" then None
    else Some(f.(time := if f.time != "" then f.time else if f.isTimeMode then "09:00" else "30 mins"))
  }

  /** The untouched form submits nothing; giving it only a title submits a
      morning daily habit at "09:00". */
  lemma SubmitDefaults(title: string)
    requires title != ""
    ensures Submit(InitialForm) == None
    ensures Submit(InitialForm.(title := title)) == Some(HabitForm(title, "", "09:00", true, "morning", "Daily", "sun"))
  {
  }

  /** The number of bars a grid card draws. */
  const BarCount: nat := 10

  /** `HabitGridCard`: the bars are the last ten cells of the habit's history
      (all of them when there are fewer); a habit without a history uses
      `fallback`, the fourteen random bits the card draws instead. */
  function GridBars(h: ClientHabit, fallback: seq<int>): (bars: seq<int>)
    ensures var history := if h.history.Some? then h.history.value else fallback;
      && |bars| == (if |history| < BarCount then |history| else BarCount)
      && bars == history[|history| - |bars|..]
  {
    var history := if h.history.Some? then h.history.value else fallback;
    if |history| < BarCount then history else history[|history| - BarCount..]
  }

  /** On a fourteen-day history served for anchor `date`, bar `k` is day
      `date - (9 - k)`: the card shows the ten days ending at the anchor. */
  lemma GridShowsLastTenDays(h: ClientHabit, fallback: seq<int>, entries: map<EntryKey, Entry>, date: Day, k: nat)
    requires h.history == Some(ProjectedHistory(entries, h.id, date))
    requires k < BarCount
    ensures GridBars(h, fallback)[k] == 1
        <==> (h.id, date - (BarCount - 1 - k)) in entries && entries[(h.id, date - (BarCount - 1 - k))].status == Completed
  {
    assert GridBars(h, fallback)[k] == h.history.value[k + (WindowSize - BarCount)];
  }

  /** Deletion keeps only habits that were there, so it keeps every history
      a full window when all of them were. */
  lemma DeleteKeepsWindows(hs: seq<ClientHabit>, id: int)
    requires forall i :: 0 <= i < |hs| ==> HasWindow(hs[i])
    ensures forall i :: 0 <= i < |DeleteHabit(hs, id)| ==> HasWindow(DeleteHabit(hs, id)[i])
  {
    var r := DeleteHabit(hs, id);
    forall i | 0 <= i < |r| ensures HasWindow(r[i]) {
      var j :| 0 <= j < |hs| && hs[j] == r[i];
    }
  }
}
