/** The four tables of the habit tracker (habits, habit_entries, daily_logs,
    user_settings) and the row-level writes the controllers perform on them. */
module Database {
  import opened Domain
  import opened Seqs

  /** A row of `habits`. Nullable text columns are options; `is_archived`
      defaults to false. */
  datatype HabitRow = HabitRow(
    id: int,
    userId: int,
    title: string,
    description: Option<string>,
    icon: string,
    period: string,
    routineType: string,
    isTimeMode: bool,
    timeValue: Option<string>,
    isArchived: bool)

  /** A row of `habit_entries`, without its key. */
  datatype Entry = Entry(status: Status, note: Option<string>, completedAt: Option<Timestamp>)

  /** The unique key of `habit_entries`: (habit_id, date). */
  type EntryKey = (int, Day)

  /** A row of `daily_logs`, without its key (user_id, date). */
  datatype DailyLog = DailyLog(mood: Option<string>, gratitude: Option<string>, reflection: Option<string>)

  /** A row of `user_settings`, without its key user_id. */
  datatype UserSetting = UserSetting(weeklyIntention: Option<string>)

  /** The row `firstOrCreate` inserts into `daily_logs`: no mood, empty gratitude. */
  const DefaultLog: DailyLog := DailyLog(None, Some(""), None)

  /** The row `firstOrCreate` inserts into `user_settings`: every column at its default. */
  const DefaultSetting: UserSetting := UserSetting(None)

  /** Auto-increment ids: rows are kept in insertion order, so ids ascend. */
  predicate IdsAscending(habits: seq<HabitRow>)
  {
    forall i, j :: 0 <= i < j < |habits| ==> habits[i].id < habits[j].id
  }

  /** The rule `exists:habits,id`: some row has this id, whatever its owner
      or archive flag. */
  predicate HasHabit(habits: seq<HabitRow>, id: int)
  {
    exists i | 0 <= i < |habits| :: habits[i].id == id
  }

  /** The row `Habit::where('id', id)->where('user_id', 1)` selects. */
  predicate Owned(row: HabitRow, id: int)
  {
    row.id == id && row.userId == CurrentUser
  }

  predicate OwnsHabit(habits: seq<HabitRow>, id: int)
  {
    exists i | 0 <= i < |habits| :: Owned(habits[i], id)
  }

  /** What the schema and the auto-increment counter guarantee: ids are
      unique, ascending and below the next id to hand out, and every entry
      belongs to an existing habit (the foreign key on habit_id). */
  predicate TablesConsistent(habits: seq<HabitRow>, nextHabitId: int, entries: map<EntryKey, Entry>)
  {
    && IdsAscending(habits)
    && 0 < nextHabitId
    && (forall i :: 0 <= i < |habits| ==> 0 < habits[i].id < nextHabitId)
    && (forall k :: k in entries ==> HasHabit(habits, k.0))
  }

  /** The store: one field per table, changed in place by the controllers. */
  class Db {
    var habits: seq<HabitRow>
    var nextHabitId: int
    var entries: map<EntryKey, Entry>
    var dailyLogs: map<(int, Day), DailyLog>
    var settings: map<int, UserSetting>

    ghost predicate Valid()
      reads this
    {
      TablesConsistent(habits, nextHabitId, entries)
    }

    /** A freshly migrated, empty database. */
    constructor ()
      ensures Valid()
      ensures habits == [] && nextHabitId == 1
      ensures entries == map[] && dailyLogs == map[] && settings == map[]
    {
      habits := [];
      nextHabitId := 1;
      entries := map[];
      dailyLogs := map[];
      settings := map[];
    }
  }

  /** `HabitEntry::updateOrCreate(key, ['status' => s, 'completed_at' => ...])`:
      afterwards exactly one entry has the key, with the requested status,
      `completed_at` set (to `now`) exactly when the status is completed, the
      note it had before (null for a new row), and every other key as before. */
  function SetStatus(entries: map<EntryKey, Entry>, key: EntryKey, status: Status, now: Timestamp): (r: map<EntryKey, Entry>)
    ensures r.Keys == entries.Keys + {key}
    ensures r[key].status == status
    ensures r[key].completedAt.Some? <==> status == Completed
    ensures status == Completed ==> r[key].completedAt == Some(now)
    ensures key in entries ==> r[key].note == entries[key].note
    ensures key !in entries ==> r[key].note == None
    ensures forall k :: k in entries && k != key ==> r[k] == entries[k]
  {
    var note := if key in entries then entries[key].note else None;
    entries[key := Entry(status, note, if status == Completed then Some(now) else None)]
  }

  /** `HabitEntry::updateOrCreate(key, ['note' => note])`: only the note is
      written. An existing entry keeps its status and `completed_at`; a new
      one takes the column defaults (pending, no completion time). */
  function SetNote(entries: map<EntryKey, Entry>, key: EntryKey, note: Option<string>): (r: map<EntryKey, Entry>)
    ensures r.Keys == entries.Keys + {key}
    ensures r[key].note == note
    ensures key in entries ==> r[key].status == entries[key].status && r[key].completedAt == entries[key].completedAt
    ensures key !in entries ==> r[key].status == Pending && r[key].completedAt == None
    ensures forall k :: k in entries && k != key ==> r[k] == entries[k]
  {
    if key in entries then entries[key := entries[key].(note := note)]
    else entries[key := Entry(Pending, note, None)]
  }

  /** `DailyLog::updateOrCreate(key, ['mood' => ..., 'gratitude' => ...])`:
      mood and gratitude are overwritten, the reflection is kept (null for a
      new row), and other days' logs are untouched. */
  function SetLog(logs: map<(int, Day), DailyLog>, key: (int, Day), mood: Option<string>, gratitude: Option<string>): (r: map<(int, Day), DailyLog>)
    ensures r.Keys == logs.Keys + {key}
    ensures r[key].mood == mood && r[key].gratitude == gratitude
    ensures r[key].reflection == (if key in logs then logs[key].reflection else None)
    ensures forall k :: k in logs && k != key ==> r[k] == logs[k]
  {
    var reflection := if key in logs then logs[key].reflection else None;
    logs[key := DailyLog(mood, gratitude, reflection)]
  }

  /** `DailyLog::firstOrCreate(key, defaults)`: an existing log is left as it
      is; otherwise the default log is inserted. */
  function FirstOrCreateLog(logs: map<(int, Day), DailyLog>, key: (int, Day)): (r: map<(int, Day), DailyLog>)
    ensures r.Keys == logs.Keys + {key}
    ensures key in logs ==> r == logs
    ensures key !in logs ==> r[key] == DefaultLog
    ensures forall k :: k in logs ==> r[k] == logs[k]
  {
    if key in logs then logs else logs[key := DefaultLog]
  }

  /** `UserSetting::firstOrCreate(['user_id' => user])`. */
  function FirstOrCreateSetting(settings: map<int, UserSetting>, user: int): (r: map<int, UserSetting>)
    ensures r.Keys == settings.Keys + {user}
    ensures user in settings ==> r == settings
    ensures user !in settings ==> r[user] == DefaultSetting
    ensures forall u :: u in settings ==> r[u] == settings[u]
  {
    if user in settings then settings else settings[user := DefaultSetting]
  }

  /** Reading a log twice creates it at most once. */
  lemma FirstOrCreateLogIdempotent(logs: map<(int, Day), DailyLog>, key: (int, Day))
    ensures FirstOrCreateLog(FirstOrCreateLog(logs, key), key) == FirstOrCreateLog(logs, key)
  {
  }

  /** Repeating a toggle yields the same keys, status and note, and the same
      entry altogether unless a fresh completion time was written. */
  lemma SetStatusIdempotent(entries: map<EntryKey, Entry>, key: EntryKey, status: Status, t1: Timestamp, t2: Timestamp)
    ensures var once := SetStatus(entries, key, status, t1);
            var twice := SetStatus(once, key, status, t2);
            && twice.Keys == once.Keys && |twice| == |once|
            && twice[key].status == once[key].status
            && twice[key].note == once[key].note
            && (status != Completed || t1 == t2 ==> twice == once)
  {
    var once := SetStatus(entries, key, status, t1);
    var twice := SetStatus(once, key, status, t2);
    assert twice.Keys == once.Keys;
  }

  /** The rows `Habit::where('user_id', 1)->where('is_archived', false)` selects. */
  predicate IsActive(row: HabitRow)
  {
    row.userId == CurrentUser && !row.isArchived
  }

  /** The habits shown on the dashboard, in table order. */
  function ActiveHabits(habits: seq<HabitRow>): (r: seq<HabitRow>)
    ensures forall i :: 0 <= i < |r| ==> IsActive(r[i]) && r[i] in habits
    ensures forall i :: 0 <= i < |habits| && IsActive(habits[i]) ==> habits[i] in r
  {
    FilterMembership(habits, IsActive);
    Filter(habits, IsActive)
  }

  /** The test a row must fail to be deleted by `destroy(id)`. */
  function Survives(id: int): HabitRow -> bool
  {
    row => !Owned(row, id)
  }

  /** The habits that survive `Habit::where('id', id)->where('user_id', 1)->delete()`. */
  function RemoveOwned(habits: seq<HabitRow>, id: int): (r: seq<HabitRow>)
    ensures forall i :: 0 <= i < |r| ==> !Owned(r[i], id) && r[i] in habits
    ensures forall i :: 0 <= i < |habits| && !Owned(habits[i], id) ==> habits[i] in r
  {
    FilterMembership(habits, Survives(id));
    Filter(habits, Survives(id))
  }

  /** The `onDelete('cascade')` on habit_entries.habit_id: when the habit with
      this id was deleted, all of its entries go with it. */
  function CascadeEntries(entries: map<EntryKey, Entry>, id: int, deleted: bool): (r: map<EntryKey, Entry>)
    ensures forall k :: k in r <==> k in entries && !(deleted && k.0 == id)
    ensures forall k :: k in r ==> r[k] == entries[k]
  {
    if deleted then map k | k in entries && k.0 != id :: entries[k] else entries
  }

  /** Deleting when no owned row has the id leaves the habits as they were. */
  lemma RemoveOwnedAbsent(habits: seq<HabitRow>, id: int)
    requires !OwnsHabit(habits, id)
    ensures RemoveOwned(habits, id) == habits
  {
    FilterKeepsAll(habits, Survives(id));
  }

  /** A row whose id is below every id of an ascending table can go in
      front of it. */
  lemma ConsAscending(row: HabitRow, habits: seq<HabitRow>)
    requires IdsAscending(habits)
    requires forall i :: 0 <= i < |habits| ==> row.id < habits[i].id
    ensures IdsAscending([row] + habits)
  {
    var r := [row] + habits;
    forall i, j | 0 <= i < j < |r| ensures r[i].id < r[j].id {
      assert r[j] == habits[j - 1];
      if i > 0 {
        assert r[i] == habits[i - 1];
      }
    }
  }

  /** Filtering rows out of the table keeps their ids ascending. */
  lemma {:induction false} FilterKeepsAscending(habits: seq<HabitRow>, p: HabitRow -> bool)
    requires IdsAscending(habits)
    ensures IdsAscending(Filter(habits, p))
  {
    if habits != [] {
      var tail := habits[1..];
      FilterKeepsAscending(tail, p);
      var kept := Filter(tail, p);
      FilterMembership(tail, p);
      if p(habits[0]) {
        forall i | 0 <= i < |kept| ensures habits[0].id < kept[i].id {
          var j :| 0 <= j < |tail| && tail[j] == kept[i];
          assert habits[j + 1] == tail[j];
        }
        ConsAscending(habits[0], kept);
        assert Filter(habits, p) == [habits[0]] + kept;
      } else {
        assert Filter(habits, p) == kept;
      }
    }
  }

  /** Deleting by id and cascading to the entries keeps the tables
      consistent. */
  lemma RemoveKeepsConsistent(habits: seq<HabitRow>, nextHabitId: int, entries: map<EntryKey, Entry>, id: int)
    requires TablesConsistent(habits, nextHabitId, entries)
    ensures TablesConsistent(RemoveOwned(habits, id), nextHabitId,
      CascadeEntries(entries, id, OwnsHabit(habits, id)))
  {
    var kept := RemoveOwned(habits, id);
    var left := CascadeEntries(entries, id, OwnsHabit(habits, id));
    FilterKeepsAscending(habits, Survives(id));
    forall i | 0 <= i < |kept| ensures 0 < kept[i].id < nextHabitId {
      var j :| 0 <= j < |habits| && habits[j] == kept[i];
    }
    forall k | k in left ensures HasHabit(kept, k.0) {
      var j :| 0 <= j < |habits| && habits[j].id == k.0;
      assert !Owned(habits[j], id);
      assert habits[j] in kept;
      var m :| 0 <= m < |kept| && kept[m] == habits[j];
    }
  }
}
