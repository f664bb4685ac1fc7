# Habit tracker: a verified model of the entry store and the dashboard state

This project models the core of a single-user habit tracker. The backend is
Laravel and the frontend is React. On the server the model covers four things:

- the per-habit, per-day entry table;
- the 14-day completion history the dashboard derives from it;
- the upserts that write entries and daily logs;
- creating and deleting habits.

On the client it covers the habit list that the two dashboard pages keep in
state, the actions that replace that list, and the values computed from it for
display.

Modules follow the program's structure:

- `Domain`: days, statuses, request parameters, responses.
- `Seqs`: order-preserving filter.
- `Database`: the four tables as a class `Db`, and the row writes.
- `History`: the history projection and its loop.
- `DashboardController` and `HabitController`: the endpoints, as methods on `Db`.
- `ClientHabits`: the pure list expressions of the pages.
- `DashboardPage` and `SamplePage`: the two page components, each a class with its `habits` field.

Modelling choices:

- **Dates** are integer day numbers, so `subDays(i)` is subtraction.
- **Clocks are inputs.** `Carbon::today()`, `now()` and `Date.now()` are method parameters: `today`, `now` and `freshId`.
- **Request fields** are `Param<T>`: `Absent`, `Null` or `Given(v)`. This tells PHP's `$validated['x'] ?? null` apart from a bare `$validated['x']`.
- **The habits table** is a sequence in insertion order. The class invariant `Db.Valid` states that:
  - ids ascend;
  - ids lie below the auto-increment counter;
  - every entry refers to an existing habit (the foreign key).

  Every server method keeps this invariant.
- **Progress** uses an integer stand-in for `Math.round(completed / length * 100)`: the exact rational percentage, rounded half up.

## Model

| member | source | states |
|---|---|---|
| Domain.ParseStatus | app/Http/Controllers/DashboardController.php:83 | `in:pending,completed,skipped` accepts exactly the three status names, and each is read back as the status it names |
| Domain.ParseStatusName | app/Http/Controllers/DashboardController.php:83 | every status survives the round trip through its stored name |
| Domain.OrNull | app/Http/Controllers/DashboardController.php:130-131 | `?? null`: an absent or null field is written as null, a given one as its value |
| Seqs.FilterMembership | resources/js/pages/dashboard.jsx:78 | the kept elements are elements of the input that pass the test, and every passing element is kept |
| Seqs.FilterConcat | resources/js/pages/dashboard.jsx:78 | filtering keeps relative order: it distributes over concatenation |
| Seqs.FilterKeepsAll | resources/js/pages/dashboard.jsx:78 | a test every element passes keeps the sequence unchanged |
| Seqs.FilterFullLength | resources/js/pages/dashboard.jsx:95 | the filtered length equals the input length if and only if every element passes |
| Seqs.FilterDropsOne | app/Http/Controllers/HabitController.php:40 | a test failing at exactly one index removes that element and keeps the rest in order |
| Seqs.FilterLengthUpdate | resources/js/pages/dashboard.jsx:95 | replacing one element changes the filtered length by what the test says about the old and the new element |
| Database.Db.constructor | database/migrations/2026_01_07_022342_habit_tracker.php:12-60 | a fresh database has empty tables, the id counter at 1, and satisfies the table invariant |
| Database.SetStatus | app/Http/Controllers/DashboardController.php:86-95 | after the upsert, the key has exactly one entry with the requested status; `completed_at` is set (to `now`) if and only if the status is completed; the note is kept (null for a new row); other keys are unchanged |
| Database.SetNote | app/Http/Controllers/DashboardController.php:109-112 | only the note is written: an existing entry keeps its status and `completed_at`, a new one gets the column defaults, and other keys are unchanged |
| Database.SetLog | app/Http/Controllers/DashboardController.php:127-133 | mood and gratitude are overwritten, the reflection is kept (null for a new row), and other days are unchanged |
| Database.FirstOrCreateLog | app/Http/Controllers/DashboardController.php:61-64 | an existing log is returned untouched; otherwise the default log (no mood, empty gratitude) is inserted |
| Database.FirstOrCreateSetting | app/Http/Controllers/DashboardController.php:67 | an existing settings row is kept; otherwise a default row is inserted for this user, and every other user's row keeps its values |
| Database.FirstOrCreateLogIdempotent | app/Http/Controllers/DashboardController.php:61-64 | reading the dashboard twice creates the log at most once |
| Database.SetStatusIdempotent | app/Http/Controllers/DashboardController.php:86-95 | repeating a toggle leaves the same keys, entry count, status and note; the entry is identical unless a new completion time was written |
| Database.ActiveHabits | app/Http/Controllers/DashboardController.php:21-23 | only user 1's non-archived habits are selected, and all of them are |
| Database.RemoveOwned | app/Http/Controllers/HabitController.php:40 | no row with this id that user 1 owns survives, and every other row does |
| Database.CascadeEntries | database/migrations/2026_01_07_022342_habit_tracker.php:29 | when the habit is deleted, exactly its entries go; the others keep their values |
| Database.RemoveOwnedAbsent | app/Http/Controllers/HabitController.php:40 | with no matching owned row, the delete leaves the table as it was |
| Database.FilterKeepsAscending | database/migrations/2026_01_07_022342_habit_tracker.php:13 | removing rows keeps the auto-increment ids ascending |
| Database.RemoveKeepsConsistent | app/Http/Controllers/HabitController.php:40 | deleting by id and cascading keeps ids ascending and below the counter, and leaves no entry without its habit |
| History.EntriesByDate | app/Http/Controllers/DashboardController.php:33-36 | the entries keyed by date are exactly the habit's entries |
| History.Window | app/Http/Controllers/DashboardController.php:32-35 | the range query keeps exactly the entries dated in [date - 13, date] |
| History.Bit | app/Http/Controllers/DashboardController.php:42 | a day's bit is 1 if and only if an entry exists for it with status completed; otherwise it is 0 |
| History.HistoryEnding | app/Http/Controllers/DashboardController.php:38-43 | n bits, and bit k is day `last - (n - 1 - k)` |
| History.HistoryEndingSnoc | app/Http/Controllers/DashboardController.php:39-43 | one more loop step appends the next day's bit to the history so far |
| History.EntryBit | app/Http/Controllers/DashboardController.php:42 | read from the table: 1 if and only if the habit's entry for the day exists and is completed |
| History.KeyedHistory | app/Http/Controllers/DashboardController.php:33-43 | keying by date and reading the loop's days gives the projected history |
| History.SameBitsSameHistory | app/Http/Controllers/DashboardController.php:38-43 | a day-keyed map that agrees bit for bit with the table gives the projected history |
| History.ProjectedHistory | app/Http/Controllers/DashboardController.php:38-43 | exactly 14 bits, each 0 or 1; bit k is 1 if and only if the entry for day D - (13 - k) exists and is completed, so the last bit is D itself |
| History.BuildHistory | app/Http/Controllers/DashboardController.php:38-43 | the counting-down loop builds exactly the specified history |
| History.AgreeOnWindow | app/Http/Controllers/DashboardController.php:32-36 | only days in [D - 13, D] influence the history: entry sets that agree there give the same history |
| History.WindowSuffices | app/Http/Controllers/DashboardController.php:32-43 | the range query loses nothing: the loop over the window gives the history of all the habit's entries |
| History.NoCompletionsNoBits | app/Http/Controllers/DashboardController.php:42 | without a completed entry in the window the history is fourteen zeros |
| DashboardController.ViewOf | app/Http/Controllers/DashboardController.php:28-57 | the habit's own columns (id, title, description, period, routine type, time, time mode, icon) are copied from the row; status and note come from the date's entry; without an entry they are pending and `''`, and a null note stays null; the history is the projection, and its last bit is 1 if and only if the status is completed |
| DashboardController.Views | app/Http/Controllers/DashboardController.php:26 | one view per selected habit, in order |
| DashboardController.BuildView | app/Http/Controllers/DashboardController.php:26-58 | the closure's view equals the specified view, using only the window's entries |
| DashboardController.BuildViews | app/Http/Controllers/DashboardController.php:26-58 | the map over the selected habits gives the specified views |
| DashboardController.Index | app/Http/Controllers/DashboardController.php:15-75 | the dashboard for the date, or today when none is given. Its habits are the views of the active habits. The log and settings rows are created on first read and returned. Habits and entries are not written, and the table invariant holds |
| DashboardController.EntryKeyErrors | app/Http/Controllers/DashboardController.php:80-84 | the habit id fails if and only if it is missing or no habit has it (whatever its owner or archive flag); the date fails if and only if it is missing or not a date |
| DashboardController.ToggleErrors | app/Http/Controllers/DashboardController.php:80-84 | a toggle is rejected if and only if the habit is unknown, the date is missing or invalid, or the status is not one of the three |
| DashboardController.Toggle | app/Http/Controllers/DashboardController.php:78-98 | a rejected request writes nothing. Otherwise the entry table becomes the upsert of the requested status, the stored entry is returned, and no other table changes |
| DashboardController.NoteAsWritten | app/Http/Controllers/DashboardController.php:111 | as written, reading an omitted note is a server error; a null note reads as null, a given note as itself |
| DashboardController.OmittedNoteFails | app/Http/Controllers/DashboardController.php:103-111 | a request that passes validation without a note fails as written; the corrected reading writes null |
| DashboardController.UpdateNote | app/Http/Controllers/DashboardController.php:101-115 | a rejected request writes nothing. Otherwise only the note of that entry is written, and the entry is returned. An omitted note is written as null: this is the corrected reading of line 111, and `DashboardController.NoteAsWritten` gives the as-written answer (an undefined-key error) |
| DashboardController.UpdateLog | app/Http/Controllers/DashboardController.php:118-136 | an invalid date writes nothing. Otherwise the (user 1, date) log gets the given mood and gratitude, each null when missing |
| DashboardController.ToggleCell | app/Http/Controllers/DashboardController.php:86-95 | toggling the entry of day `anchor - (13 - k)` changes history cell k alone, to the new status's bit |
| DashboardController.ToggleLeavesOthers | app/Http/Controllers/DashboardController.php:86-95 | a toggle of one habit's entry leaves every other habit's history unchanged |
| DashboardController.NoteSurvivesToggle | app/Http/Controllers/DashboardController.php:86-95 | a written note is what the dashboard shows; a later toggle keeps it while the status and the last bit follow the toggle |
| HabitController.StoreErrors | app/Http/Controllers/HabitController.php:13-21 | title, period, routineType and icon fail if and only if they are missing, null or blank after PHP `trim`, and the title also fails past 255 characters; isTimeMode fails only when sent as null |
| HabitController.NewHabitRow | app/Http/Controllers/HabitController.php:23-32 | the created row belongs to user 1 and is not archived; `is_time_mode` is false unless sent true; the other columns are copied from the request, with an omitted description or time stored as null |
| HabitController.StoreAsWritten | app/Http/Controllers/HabitController.php:13-32 | as written, a valid request that omits description or time is a server error; otherwise the rules decide |
| HabitController.OmittedDescriptionFails | app/Http/Controllers/HabitController.php:26 | a concrete valid request without a description: as written it fails, while the corrected row has a null description |
| HabitController.Store | app/Http/Controllers/HabitController.php:11-35 | a rejected request writes nothing. Otherwise the new row is appended with the next id and returned; the invariant is kept and the other tables are unchanged. An omitted description or time is stored as null: this is the corrected reading of lines 26 and 30, and `HabitController.StoreAsWritten` gives the as-written answer (an undefined-key error, nothing created) |
| HabitController.CreatedHabitOnDashboard | app/Http/Controllers/HabitController.php:23-32 | a created habit appears on the next dashboard after the earlier habits (in the id order the model assumes for `get()`): pending, with an empty note and fourteen zeros |
| HabitController.Destroy | app/Http/Controllers/HabitController.php:37-42 | only an owned row with the id is deleted, and its entries cascade. The answer is "Deleted" either way, and the invariant is kept |
| HabitController.DestroyRemovesOneRow | app/Http/Controllers/HabitController.php:40 | deleting an owned habit removes exactly that row and keeps the others in order |
| HabitController.DestroyMissingIsNoOp | app/Http/Controllers/HabitController.php:40-41 | deleting an id that user 1 does not own changes neither table |
| ClientHabits.NextOnComplete | resources/js/pages/dashboard.jsx:60 | completed becomes pending; pending and skipped become completed |
| ClientHabits.NextOnSkip | resources/js/pages/dashboard.jsx:71 | skipped becomes pending; pending and completed become skipped |
| ClientHabits.ToggleComplete | resources/js/pages/dashboard.jsx:57-66 | length and order are kept and other habits are unchanged. A habit with the id changes only its status, which always changes: completed becomes pending, anything else becomes completed |
| ClientHabits.ToggleSkip | resources/js/pages/dashboard.jsx:68-75 | the same shape: skipped becomes pending, anything else becomes skipped |
| ClientHabits.ToggleCompleteTwice | resources/js/pages/dashboard.jsx:57-66 | completing twice restores the list if and only if no habit with the id was skipped |
| ClientHabits.ToggleSkipTwice | resources/js/pages/dashboard.jsx:68-75 | skipping twice restores the list if and only if no habit with the id was completed, so a pending habit returns to pending |
| ClientHabits.DeleteHabit | resources/js/pages/dashboard.jsx:77-80 | no habit with the id remains, and every other habit does |
| ClientHabits.DeleteKeepsOrder | resources/js/pages/dashboard.jsx:78 | deletion keeps the order of the remaining habits |
| ClientHabits.DeleteAbsent | resources/js/pages/dashboard.jsx:78 | the length is kept if and only if no habit has the id, and then the list is unchanged |
| ClientHabits.Created | resources/js/pages/dashboard.jsx:88 | the new habit is the form's fields with the fresh id, pending, an empty note and the given history |
| ClientHabits.AddHabit | resources/js/pages/dashboard.jsx:86-91 | exactly one habit is appended after all the others |
| ClientHabits.AddThenDelete | resources/js/pages/dashboard.jsx:77-91 | with an id not yet in use, deleting the added habit restores the list |
| ClientHabits.CountCompleted | resources/js/pages/dashboard.jsx:95 | at most the length; 0 if and only if none is completed; the length if and only if all are |
| ClientHabits.RoundedPercent | resources/js/pages/dashboard.jsx:96 | the percentage nearest to 100c/n (halves up), within [0, 100]; 0 for none and 100 for all |
| ClientHabits.Progress | resources/js/pages/dashboard.jsx:93-97 | 0 for an empty list; otherwise within [0, 100], 0 when none is completed, 100 when all are, and within one half of 100c/n |
| ClientHabits.ToggleCompleteAt | resources/js/pages/dashboard.jsx:58-65 | for a unique id, the toggle updates that one position |
| ClientHabits.CompleteChangesCount | resources/js/pages/dashboard.jsx:93-97 | completing a habit with a unique id raises the completed count by one; un-completing lowers it by one |
| ClientHabits.SkipChangesCount | resources/js/pages/dashboard.jsx:93-97 | skipping lowers the count by one if the habit was completed, and otherwise leaves it |
| ClientHabits.Section | resources/js/pages/dashboard.jsx:110 | a section holds exactly the habits of its period |
| ClientHabits.ExactlyOneSection | resources/js/pages/dashboard.jsx:101-110 | a morning, afternoon or evening habit is in the section of its own period and in no other |
| ClientHabits.SectionsPartition | resources/js/pages/dashboard.jsx:101-110 | when every period is one of the three, the section sizes add up to the list length |
| ClientHabits.Submit | resources/js/pages/dashboard.jsx:442-454 | nothing is submitted while the title is empty. Otherwise the form is submitted as it stands, except that an empty time becomes "09:00" in clock mode and "30 mins" in duration mode |
| ClientHabits.SubmitDefaults | resources/js/pages/dashboard.jsx:418-454 | the untouched form submits nothing; a form with only a title submits a morning daily habit at "09:00" |
| ClientHabits.GridBars | resources/js/pages/dashboard.jsx:346-378 | the bars are the last ten history cells (all of them when there are fewer), with the random fallback when there is no history |
| ClientHabits.GridShowsLastTenDays | resources/js/pages/dashboard.jsx:378 | on a history served for anchor D, bar k is 1 if and only if day D - (9 - k) was completed |
| ClientHabits.DeleteKeepsWindows | resources/js/pages/dashboard.jsx:78 | deletion leaves only habits that had a full history |
| DashboardPage.MockHabits | resources/js/pages/dashboard.jsx:42-48 | five habits with distinct ids, each with fourteen 0/1 history cells |
| DashboardPage.FakeHistory | resources/js/pages/dashboard.jsx:87 | fourteen zeros |
| DashboardPage.DashboardBotanical.constructor | resources/js/pages/dashboard.jsx:42-48 | the page starts from the mock habits, every one with a full history |
| DashboardPage.DashboardBotanical.ToggleComplete | resources/js/pages/dashboard.jsx:57-66 | the state becomes the completion toggle of the old state, and every history stays a full window |
| DashboardPage.DashboardBotanical.ToggleSkip | resources/js/pages/dashboard.jsx:68-75 | the state becomes the skip toggle of the old state |
| DashboardPage.DashboardBotanical.DeleteHabit | resources/js/pages/dashboard.jsx:77-80 | the state becomes the old state without the id |
| DashboardPage.DashboardBotanical.HandleAddHabit | resources/js/pages/dashboard.jsx:86-91 | the state becomes the old state plus one pending habit with an empty note and fourteen zeros |
| DashboardPage.MockProgress | resources/js/pages/dashboard.jsx:93-97 | on the mock data one habit of five is completed and the ring shows 20 |
| DashboardPage.BarsIgnoreFallback | resources/js/pages/dashboard.jsx:346 | the card never uses random bits: it draws history cells 4 to 13 |
| SamplePage.MockHabits | resources/js/pages/sample.jsx:36-42 | five habits with distinct ids and no history |
| SamplePage.DashboardBotanical.constructor | resources/js/pages/sample.jsx:36-42 | the page starts from the mock habits, none with a history |
| SamplePage.DashboardBotanical.ToggleComplete | resources/js/pages/sample.jsx:51-60 | the state becomes the completion toggle of the old state |
| SamplePage.DashboardBotanical.ToggleSkip | resources/js/pages/sample.jsx:62-69 | the state becomes the skip toggle of the old state |
| SamplePage.DashboardBotanical.DeleteHabit | resources/js/pages/sample.jsx:71-74 | the state becomes the old state without the id, and still no habit has a history |
| SamplePage.DashboardBotanical.HandleAddHabit | resources/js/pages/sample.jsx:80-84 | one pending habit with an empty note and no history is appended |

The sample page's `calculateProgress` (sample.jsx:86-90) and its `renderSection` filter (sample.jsx:94-95) are the same expressions as the main page's. The same goes for its form defaults (sample.jsx:307-319). They are modelled once, by `ClientHabits.Progress`, `ClientHabits.Section` and `ClientHabits.Submit`.

## Left out

- **HTTP layer.** Routing, JSON encoding, status codes and the `response()->json` wrapping are not modelled. Validation failures and the undefined-key error are kept as the `Invalid` and `ServerError` outcomes.
- **Laravel validation mechanics.** The rules are applied to each field as the controller receives it. The global TrimStrings and ConvertEmptyStringsToNull middleware that run before the controller are not modelled, and neither are requests whose fields have the wrong JSON type (the `string` rules). `required` is read as `validateRequired` reads it: present, not null, and not empty after PHP's `trim`, which strips space, tab, newline, carriage return, NUL and vertical tab.
- HabitController.StoreErrors: agrees with the application only for strings whose leading and trailing blanks are among PHP `trim`'s six characters. TrimStrings also strips form feed, the other Unicode spaces, U+FEFF, U+200B and U+200E. So a title of a single form feed is rejected by the application, but `StoreErrors` accepts it and `Store` would create the habit. For the same reason the model stores strings untrimmed and counts `max:255` on the untrimmed title.
- **Calendar parsing.** It is abstracted into `DateArg`: a date either parses as a day number or does not. An unparsable `?date=` on the dashboard, which the code passes to Carbon unchecked, is not modelled: `Index` takes an optional day.
- **Clocks, randomness and ids.**
  - `Carbon::today()`, `now()` and `Date.now()` are parameters, and a fresh client id is not guaranteed to be unique.
  - `Math.random` in the grid card's fallback is the `fallback` parameter of `ClientHabits.GridBars`.
- **Atomicity** of `updateOrCreate` and `firstOrCreate` under concurrent requests. Each upsert is one sequential step.
- ClientHabits.Progress: integer round-half-up on the exact ratio, not IEEE floating point. `Math.round(completed / length * 100)` can differ from it when the double product lands just below a half.
- **Presentation.** Toasts and their timers, modals, the expanded card, the mood and gratitude widgets, the view-mode switch and all markup, including `loadingBoot.jsx` and `landing.jsx`.
- **Unused or unmodelled data.** The `start_of_day_hour` and `preferred_view` settings columns, the users table, and the `created_at`/`updated_at` timestamps. Eloquent model classes, `routes/web.php` and `app.jsx` are not part of this model.
- **Row order.** `Habit::where(...)->where(...)->get()` (DashboardController.php:21-23) has no `orderBy`, so SQL fixes no row order. The model takes the habits table to be a sequence in id order, which is insertion order, and reads `get()` as returning its rows in that order.
- HabitController.CreatedHabitOnDashboard: the conjunct that the new habit comes after the earlier ones rests on the row-order assumption above; without it only membership follows.
- DashboardController.Views: "in order" means the table's id order, under the row-order assumption above.
- HabitController.Store: follows the corrected reading of HabitController.php:26,30, storing an omitted description or time as null. The code as written fails such a request with an undefined-key error and creates nothing; `HabitController.StoreAsWritten` models that answer (first row of "## Findings").
- DashboardController.UpdateNote: follows the corrected reading of DashboardController.php:111, writing an omitted note as null. The code as written fails such a request with an undefined-key error and writes nothing; `DashboardController.NoteAsWritten` models that answer (second row of "## Findings").
- **`exists:habits,id` only: no owner, archive or not-found check.** `toggle` and `updateNote` check only that some habit has the id. So they accept another user's habit or an archived one, and answer an unknown habit with a validation error rather than a not-found error. The model follows the code.

## Findings

| source | as written | input that shows it | evidently intended | confidence | as-written member | corrected member |
|---|---|---|---|---|---|---|
| app/Http/Controllers/HabitController.php:26,30 | `$validated['description']` and `$validated['time']` are read without `??`, but `validated()` leaves out fields the request did not send, so the read raises an undefined-key error | a request with title "Hydrate", period "morning", routineType "Daily", time "500ml" and icon "drop", and no description | nullable fields that are left out are stored as null, like `isTimeMode ?? false` on line 29 | not executed | HabitController.StoreAsWritten | HabitController.NewHabitRow |
| app/Http/Controllers/DashboardController.php:111 | `$validated['note']` is read without `??`, so an `updateNote` request that sends no note raises an undefined-key error | habit_id of an existing habit, a valid date, no note | an omitted note is written as null, as `updateLog` does with `?? null` on lines 130-131 | not executed | DashboardController.NoteAsWritten | DashboardController.UpdateNote |
