/** The dashboard endpoints: the aggregate read (`index`) and the three
    upserts (`toggle`, `updateNote`, `updateLog`). */
module DashboardController {
  import opened Domain
  import opened Database
  import opened History

  /** One habit as the dashboard returns it: its columns, today's status and
      note, and the 14-day history. */
  datatype HabitView = HabitView(
    id: int,
    title: string,
    description: Option<string>,
    period: string,
    routineType: string,
    time: Option<string>,
    isTimeMode: bool,
    icon: string,
    status: Status,
    note: Option<string>,
    history: seq<int>)

  /** The payload of `GET /dashboard`. */
  datatype Dashboard = Dashboard(date: Day, habits: seq<HabitView>, dailyLog: DailyLog, settings: UserSetting)

  /** The view of one habit for an anchor date. Status and note come from the
      entry of that date; without one the status is pending and the note is
      the empty string, while an entry whose note is null keeps null. The
      last history bit is 1 exactly when that status is completed. */
  function ViewOf(row: HabitRow, entries: map<EntryKey, Entry>, date: Day): (v: HabitView)
    ensures v.id == row.id && v.history == ProjectedHistory(entries, row.id, date)
    ensures v.title == row.title && v.description == row.description && v.icon == row.icon
    ensures v.period == row.period && v.routineType == row.routineType
    ensures v.time == row.timeValue && v.isTimeMode == row.isTimeMode
    ensures (row.id, date) in entries ==>
      v.status == entries[(row.id, date)].status && v.note == entries[(row.id, date)].note
    ensures (row.id, date) !in entries ==> v.status == Pending && v.note == Some("")
    ensures |v.history| == WindowSize && (v.history[WindowSize - 1] == 1 <==> v.status == Completed)
  {
    var key := (row.id, date);
    HabitView(row.id, row.title, row.description, row.period, row.routineType, row.timeValue,
      row.isTimeMode, row.icon,
      if key in entries then entries[key].status else Pending,
      if key in entries then entries[key].note else Some(""),
      ProjectedHistory(entries, row.id, date))
  }

  /** `$habits->map(...)`: one view per selected habit, in order. */
  function Views(rows: seq<HabitRow>, entries: map<EntryKey, Entry>, date: Day): (r: seq<HabitView>)
    ensures |r| == |rows|
    ensures forall i :: 0 <= i < |rows| ==> r[i] == ViewOf(rows[i], entries, date)
  {
    seq(|rows|, i requires 0 <= i < |rows| => ViewOf(rows[i], entries, date))
  }

  /** The closure of `$habits->map(...)`: the entry of the date, the range
      query over the window and the history loop. */
  method BuildView(row: HabitRow, entries: map<EntryKey, Entry>, date: Day) returns (v: HabitView)
    ensures v == ViewOf(row, entries, date)
  {
    var key := (row.id, date);
    var status := if key in entries then entries[key].status else Pending;
    var note := if key in entries then entries[key].note else Some("");
    var byDate := EntriesByDate(entries, row.id);
    var history := BuildHistory(Window(byDate, date), date);
    WindowSuffices(byDate, date);
    KeyedHistory(entries, row.id, date);
    v := HabitView(row.id, row.title, row.description, row.period, row.routineType,
      row.timeValue, row.isTimeMode, row.icon, status, note, history);
  }

  /** The `map` over the selected habits, one closure call per row. */
  method BuildViews(rows: seq<HabitRow>, entries: map<EntryKey, Entry>, date: Day) returns (views: seq<HabitView>)
    ensures views == Views(rows, entries, date)
  {
    views := [];
    var i := 0;
    while i < |rows|
      invariant 0 <= i <= |rows|
      invariant |views| == i
      invariant forall j :: 0 <= j < i ==> views[j] == ViewOf(rows[j], entries, date)
    {
      var view := BuildView(rows[i], entries, date);
      views := views + [view];
      i := i + 1;
    }
  }

  /** `GET /dashboard?date=...`: the habits with their views for the date
      (today when the query has no date), and the day's log and the user's
      settings, each created with its defaults on first read. Habits and
      entries are not written. */
  method Index(db: Db, date: Option<Day>, today: Day) returns (r: Dashboard)
    requires db.Valid()
    modifies db
    ensures db.Valid()
    ensures var d := if date.Some? then date.value else today;
      && r.date == d
      && r.habits == Views(ActiveHabits(old(db.habits)), old(db.entries), d)
      && db.dailyLogs == FirstOrCreateLog(old(db.dailyLogs), (CurrentUser, d))
      && db.settings == FirstOrCreateSetting(old(db.settings), CurrentUser)
      && r.dailyLog == db.dailyLogs[(CurrentUser, d)]
      && r.settings == db.settings[CurrentUser]
    ensures db.habits == old(db.habits) && db.nextHabitId == old(db.nextHabitId)
    ensures db.entries == old(db.entries)
  {
    var d := if date.Some? then date.value else today;
    var views := BuildViews(ActiveHabits(db.habits), db.entries, d);
    db.dailyLogs := FirstOrCreateLog(db.dailyLogs, (CurrentUser, d));
    db.settings := FirstOrCreateSetting(db.settings, CurrentUser);
    r := Dashboard(d, views, db.dailyLogs[(CurrentUser, d)], db.settings[CurrentUser]);
  }

  /** The rules `habit_id: required|exists:habits,id` and `date: required|date`,
      shared by `toggle` and `updateNote`. */
  function EntryKeyErrors(habits: seq<HabitRow>, habitId: Param<int>, date: Param<DateArg>): (r: set<Field>)
    ensures HabitIdField in r <==> !(habitId.Given? && HasHabit(habits, habitId.value))
    ensures DateField in r <==> !ValidDate(date)
    ensures r <= {HabitIdField, DateField}
  {
    (if habitId.Given? && HasHabit(habits, habitId.value) then {} else {HabitIdField})
    + (if ValidDate(date) then {} else {DateField})
  }

  /** The rules of `toggle`; `status: required|in:pending,completed,skipped`. */
  function ToggleErrors(habits: seq<HabitRow>, habitId: Param<int>, date: Param<DateArg>, status: Param<string>): (r: set<Field>)
    ensures r == {} <==> habitId.Given? && HasHabit(habits, habitId.value) && ValidDate(date)
                         && status.Given? && ParseStatus(status.value).Some?
    ensures StatusField in r <==> !(status.Given? && ParseStatus(status.value).Some?)
  {
    EntryKeyErrors(habits, habitId, date)
    + (if status.Given? && ParseStatus(status.value).Some? then {} else {StatusField})
  }

  /** `POST /entries/toggle`: a request failing a rule is answered with the
      failing fields and writes nothing; otherwise the entry of (habit_id,
      date) is upserted with the requested status and `completed_at`, and
      the stored entry is returned. */
  method Toggle(db: Db, habitId: Param<int>, date: Param<DateArg>, status: Param<string>, now: Timestamp)
    returns (r: Response<Entry>)
    requires db.Valid()
    modifies db
    ensures db.Valid()
    ensures var errors := ToggleErrors(old(db.habits), habitId, date, status);
      errors != {} ==> r == Invalid(errors) && unchanged(db)
    ensures ToggleErrors(old(db.habits), habitId, date, status) == {} ==>
      var key := (habitId.value, date.value.day);
      && db.entries == SetStatus(old(db.entries), key, ParseStatus(status.value).value, now)
      && r == Ok(db.entries[key])
      && db.habits == old(db.habits) && db.nextHabitId == old(db.nextHabitId)
      && db.dailyLogs == old(db.dailyLogs) && db.settings == old(db.settings)
  {
    var errors := ToggleErrors(db.habits, habitId, date, status);
    if errors != {} {
      return Invalid(errors);
    }
    var key := (habitId.value, date.value.day);
    db.entries := SetStatus(db.entries, key, ParseStatus(status.value).value, now);
    r := Ok(db.entries[key]);
  }

  /** `$validated['note']` as the code reads it: `validated()` leaves out a
      field the request did not send, so reading the key of an omitted note
      raises an undefined-key error instead of giving null. */
  function NoteAsWritten(note: Param<string>): (r: Response<Option<string>>)
    ensures r.ServerError? <==> note.Absent?
    ensures note.Null? ==> r == Ok(None)
    ensures note.Given? ==> r == Ok(Some(note.value))
  {
    match note
    case Absent => ServerError("note")
    case Null => Ok(None)
    case Given(text) => Ok(Some(text))
  }

  /** An `updateNote` request that passes validation but omits the note is
      answered with a server error by the code as written, whereas the
      nullable rule admits it and the corrected reading writes null. */
  lemma OmittedNoteFails(habits: seq<HabitRow>, habitId: int, day: Day)
    requires HasHabit(habits, habitId)
    ensures EntryKeyErrors(habits, Given(habitId), Given(CalendarDate(day))) == {}
    ensures NoteAsWritten(Absent).ServerError?
    ensures OrNull<string>(Absent) == None
  {
  }

  /** `POST /entries/note`: a request failing a rule writes nothing;
      otherwise only the note of the entry of (habit_id, date) is written (an
      omitted or null note as null), and the stored entry is returned. */
  method UpdateNote(db: Db, habitId: Param<int>, date: Param<DateArg>, note: Param<string>)
    returns (r: Response<Entry>)
    requires db.Valid()
    modifies db
    ensures db.Valid()
    ensures var errors := EntryKeyErrors(old(db.habits), habitId, date);
      errors != {} ==> r == Invalid(errors) && unchanged(db)
    ensures EntryKeyErrors(old(db.habits), habitId, date) == {} ==>
      var key := (habitId.value, date.value.day);
      && db.entries == SetNote(old(db.entries), key, OrNull(note))
      && r == Ok(db.entries[key])
      && db.habits == old(db.habits) && db.nextHabitId == old(db.nextHabitId)
      && db.dailyLogs == old(db.dailyLogs) && db.settings == old(db.settings)
  {
    var errors := EntryKeyErrors(db.habits, habitId, date);
    if errors != {} {
      return Invalid(errors);
    }
    var key := (habitId.value, date.value.day);
    db.entries := SetNote(db.entries, key, OrNull(note));
    r := Ok(db.entries[key]);
  }

  /** `POST /dailylog`: without a valid date nothing is written; otherwise
      the log of (user 1, date) gets the given mood and gratitude, each null
      when omitted or null, and is returned. */
  method UpdateLog(db: Db, date: Param<DateArg>, mood: Param<string>, gratitude: Param<string>)
    returns (r: Response<DailyLog>)
    requires db.Valid()
    modifies db
    ensures db.Valid()
    ensures !ValidDate(date) ==> r == Invalid({DateField}) && unchanged(db)
    ensures ValidDate(date) ==>
      var key := (CurrentUser, date.value.day);
      && db.dailyLogs == SetLog(old(db.dailyLogs), key, OrNull(mood), OrNull(gratitude))
      && r == Ok(db.dailyLogs[key])
      && db.habits == old(db.habits) && db.nextHabitId == old(db.nextHabitId)
      && db.entries == old(db.entries) && db.settings == old(db.settings)
  {
    if !ValidDate(date) {
      return Invalid({DateField});
    }
    var key := (CurrentUser, date.value.day);
    db.dailyLogs := SetLog(db.dailyLogs, key, OrNull(mood), OrNull(gratitude));
    r := Ok(db.dailyLogs[key]);
  }

  /** Toggling the history cell at offset `k` (0-based, oldest first) of the
      dashboard anchored at `anchor` means writing the entry of day
      `anchor - (13 - k)`: afterwards that habit's history differs in cell
      `k` alone, which shows the new status. */
  lemma ToggleCell(entries: map<EntryKey, Entry>, habitId: int, anchor: Day, k: nat, status: Status, now: Timestamp)
    requires k < WindowSize
    ensures ProjectedHistory(SetStatus(entries, (habitId, anchor - (WindowSize - 1 - k)), status, now), habitId, anchor)
         == ProjectedHistory(entries, habitId, anchor)[k := if status == Completed then 1 else 0]
  {
    var key := (habitId, anchor - (WindowSize - 1 - k));
    var after := SetStatus(entries, key, status, now);
    var before, toggled := ProjectedHistory(entries, habitId, anchor), ProjectedHistory(after, habitId, anchor);
    forall j | 0 <= j < WindowSize && j != k ensures toggled[j] == before[j] {
      var kj := (habitId, anchor - (WindowSize - 1 - j));
      assert kj in after <==> kj in entries;
    }
    assert toggled == before[k := if status == Completed then 1 else 0];
  }

  /** Toggling an entry of one habit leaves every other habit's history as
      it was. */
  lemma ToggleLeavesOthers(entries: map<EntryKey, Entry>, key: EntryKey, status: Status, now: Timestamp, other: int, anchor: Day)
    requires other != key.0
    ensures ProjectedHistory(SetStatus(entries, key, status, now), other, anchor) == ProjectedHistory(entries, other, anchor)
  {
    var after := SetStatus(entries, key, status, now);
    var a, b := ProjectedHistory(after, other, anchor), ProjectedHistory(entries, other, anchor);
    forall j | 0 <= j < WindowSize ensures a[j] == b[j] {
      var kj := (other, anchor - (WindowSize - 1 - j));
      assert kj in after <==> kj in entries;
    }
  }

  /** A note written for a day is what the dashboard shows for that day, and
      a later toggle of the same day keeps it while the status and the last
      history bit follow the toggle. */
  lemma NoteSurvivesToggle(row: HabitRow, entries: map<EntryKey, Entry>, date: Day, text: string, status: Status, now: Timestamp)
    ensures var noted := SetNote(entries, (row.id, date), Some(text));
      var toggled := SetStatus(noted, (row.id, date), status, now);
      && ViewOf(row, noted, date).note == Some(text)
      && ViewOf(row, toggled, date).note == Some(text)
      && ViewOf(row, toggled, date).status == status
      && (ViewOf(row, toggled, date).history[WindowSize - 1] == 1 <==> status == Completed)
  {
  }
}
