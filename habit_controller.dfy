/** The habit endpoints: `store` (create a habit for user 1) and `destroy`
    (hard-delete one of user 1's habits, cascading to its entries). */
module HabitController {
  import opened Domain
  import opened Seqs
  import opened Database
  import opened History
  import opened DashboardController

  /** The body of `POST /habits`, with the client's camelCase field names. */
  datatype StoreRequest = StoreRequest(
    title: Param<string>,
    description: Param<string>,
    period: Param<string>,
    routineType: Param<string>,
    isTimeMode: Param<bool>,
    time: Param<string>,
    icon: Param<string>)

  /** The longest title `max:255` admits. */
  const MaxTitleLength: nat := 255

  /** The validation rules of `store`, one field per failing rule. The
      description and the time are `nullable` and never fail; `isTimeMode`
      may be left out but not sent as null. */
  function StoreErrors(req: StoreRequest): (r: set<Field>)
    ensures TitleField in r <==> !(RequiredString(req.title) && |req.title.value| <= MaxTitleLength)
    ensures PeriodField in r <==> !RequiredString(req.period)
    ensures RoutineTypeField in r <==> !RequiredString(req.routineType)
    ensures IconField in r <==> !RequiredString(req.icon)
    ensures IsTimeModeField in r <==> req.isTimeMode.Null?
    ensures r <= {TitleField, PeriodField, RoutineTypeField, IconField, IsTimeModeField}
  {
    (if RequiredString(req.title) && |req.title.value| <= MaxTitleLength then {} else {TitleField})
    + (if RequiredString(req.period) then {} else {PeriodField})
    + (if RequiredString(req.routineType) then {} else {RoutineTypeField})
    + (if RequiredString(req.icon) then {} else {IconField})
    + (if req.isTimeMode.Null? then {IsTimeModeField} else {})
  }

  /** The row `Habit::create(...)` inserts for a valid request, with an
      omitted or null description or time stored as null: owned by user 1,
      not archived, `is_time_mode` false unless sent, and the other columns
      copied from the request. */
  function NewHabitRow(req: StoreRequest, id: int): (row: HabitRow)
    requires StoreErrors(req) == {}
    ensures row.id == id && row.userId == CurrentUser && !row.isArchived
    ensures row.isTimeMode <==> req.isTimeMode == Given(true)
    ensures row.title == req.title.value && 0 < |row.title| <= MaxTitleLength
    ensures row.period == req.period.value && row.routineType == req.routineType.value
    ensures row.icon == req.icon.value
    ensures row.description == OrNull(req.description) && row.timeValue == OrNull(req.time)
  {
    HabitRow(id, CurrentUser, req.title.value, OrNull(req.description), req.icon.value,
      req.period.value, req.routineType.value,
      if req.isTimeMode.Given? then req.isTimeMode.value else false,
      OrNull(req.time), false)
  }

  /** `store` as the code reads the validated input: `$validated['description']`
      and `$validated['time']` are read without `??`, and `validated()`
      leaves out fields the request did not send, so a valid request that
      omits either one ends in an undefined-key server error. */
  function StoreAsWritten(req: StoreRequest, id: int): (r: Response<HabitRow>)
    ensures StoreErrors(req) != {} ==> r == Invalid(StoreErrors(req))
    ensures StoreErrors(req) == {} ==>
      (r.ServerError? <==> req.description.Absent? || req.time.Absent?)
    ensures r.Ok? ==> r.value == NewHabitRow(req, id)
  {
    var errors := StoreErrors(req);
    if errors != {} then Invalid(errors)
    else if req.description.Absent? then ServerError("description")
    else if req.time.Absent? then ServerError("time")
    else Ok(NewHabitRow(req, id))
  }

  /** A request without a description: it passes every rule, yet the code as
      written answers it with a server error, whereas the corrected reading
      creates the habit with a null description. */
  function HydrateWithoutDescription(): StoreRequest
  {
    StoreRequest(Given("Hydrate"), Absent, Given("morning"), Given("Daily"), Absent, Given("500ml"), Given("drop"))
  }

  lemma OmittedDescriptionFails(id: int)
    ensures StoreErrors(HydrateWithoutDescription()) == {}
    ensures StoreAsWritten(HydrateWithoutDescription(), id) == ServerError("description")
    ensures NewHabitRow(HydrateWithoutDescription(), id).description == None
  {
    var req := HydrateWithoutDescription();
    assert !TrimmedChar(req.title.value[0]) && !TrimmedChar(req.period.value[0]);
    assert !TrimmedChar(req.routineType.value[0]) && !TrimmedChar(req.icon.value[0]);
  }

  /** `POST /habits`: a request failing a rule creates nothing; otherwise the
      new row, with the next auto-increment id, is appended to the table and
      returned. */
  method Store(db: Db, req: StoreRequest) returns (r: Response<HabitRow>)
    requires db.Valid()
    modifies db
    ensures db.Valid()
    ensures StoreErrors(req) != {} ==> r == Invalid(StoreErrors(req)) && unchanged(db)
    ensures StoreErrors(req) == {} ==>
      && r == Ok(NewHabitRow(req, old(db.nextHabitId)))
      && db.habits == old(db.habits) + [r.value]
      && db.nextHabitId == old(db.nextHabitId) + 1
      && db.entries == old(db.entries)
      && db.dailyLogs == old(db.dailyLogs) && db.settings == old(db.settings)
  {
    var errors := StoreErrors(req);
    if errors != {} {
      return Invalid(errors);
    }
    var row := NewHabitRow(req, db.nextHabitId);
    ghost var before := db.habits;
    db.habits := db.habits + [row];
    db.nextHabitId := db.nextHabitId + 1;
    forall k | k in db.entries ensures HasHabit(db.habits, k.0) {
      var i :| 0 <= i < |before| && before[i].id == k.0;
      assert db.habits[i] == before[i];
    }
    r := Ok(row);
  }

  /** A created habit is on the next dashboard, after the habits before it,
      pending, with an empty note and a history of fourteen zeros: nothing
      in the entry table refers to its fresh id. */
  lemma {:induction false} CreatedHabitOnDashboard(habits: seq<HabitRow>, nextHabitId: int, entries: map<EntryKey, Entry>, req: StoreRequest, date: Day)
    requires TablesConsistent(habits, nextHabitId, entries)
    requires StoreErrors(req) == {}
    ensures var row := NewHabitRow(req, nextHabitId);
      && ActiveHabits(habits + [row]) == ActiveHabits(habits) + [row]
      && ViewOf(row, entries, date).status == Pending
      && ViewOf(row, entries, date).note == Some("")
      && ViewOf(row, entries, date).history == seq(WindowSize, _ => 0)
  {
    var row := NewHabitRow(req, nextHabitId);
    FilterConcat(habits, [row], IsActive);
    assert Filter([row], IsActive) == [row];
    forall k | k in entries ensures k.0 != nextHabitId {
      var i :| 0 <= i < |habits| && habits[i].id == k.0;
    }
    var history := ViewOf(row, entries, date).history;
    assert forall j :: 0 <= j < WindowSize ==> history[j] == 0;
  }

  /** `DELETE /habits/{id}`: the row with this id is deleted if user 1 owns
      it, its entries go with it through the cascade, and every other row and
      entry stays; the answer is "Deleted" whether or not a row matched. */
  method Destroy(db: Db, id: int) returns (message: string)
    requires db.Valid()
    modifies db
    ensures db.Valid()
    ensures message == "Deleted"
    ensures db.habits == RemoveOwned(old(db.habits), id)
    ensures db.entries == CascadeEntries(old(db.entries), id, OwnsHabit(old(db.habits), id))
    ensures db.nextHabitId == old(db.nextHabitId)
    ensures db.dailyLogs == old(db.dailyLogs) && db.settings == old(db.settings)
  {
    var deleted := OwnsHabit(db.habits, id);
    RemoveKeepsConsistent(db.habits, db.nextHabitId, db.entries, id);
    db.habits, db.entries := RemoveOwned(db.habits, id), CascadeEntries(db.entries, id, deleted);
    message := "Deleted";
  }

  /** Deleting an owned habit removes that one row and keeps all the others
      in their order. */
  lemma DestroyRemovesOneRow(habits: seq<HabitRow>, i: nat)
    requires IdsAscending(habits)
    requires i < |habits| && habits[i].userId == CurrentUser
    ensures RemoveOwned(habits, habits[i].id) == habits[..i] + habits[i + 1..]
  {
    var id := habits[i].id;
    forall j | 0 <= j < |habits| ensures Survives(id)(habits[j]) <==> j != i {
      assert j != i ==> habits[j].id != id;
    }
    FilterDropsOne(habits, Survives(id), i);
  }

  /** Deleting when user 1 owns no habit with this id changes nothing. */
  lemma DestroyMissingIsNoOp(habits: seq<HabitRow>, entries: map<EntryKey, Entry>, id: int)
    requires !OwnsHabit(habits, id)
    ensures RemoveOwned(habits, id) == habits
    ensures CascadeEntries(entries, id, OwnsHabit(habits, id)) == entries
  {
    RemoveOwnedAbsent(habits, id);
  }
}
