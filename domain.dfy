/** Vocabulary shared by the server controllers and the client pages of the
    habit tracker: calendar days, entry statuses, request parameters and the
    outcome of a request. */
module Domain {

  /** A calendar date as a day number: the day before `d` is `d - 1`, so
      Carbon's `subDays(i)` is subtraction. */
  type Day = int

  /** An opaque server timestamp, the value `now()` returns. */
  type Timestamp = int

  /** Both controllers act for the hard-coded user 1. */
  const CurrentUser: int := 1

  datatype Option<T> = None | Some(value: T)

  /** The status of a habit on one day. */
  datatype Status = Pending | Completed | Skipped

  /** The wire name of a status, as stored in the `status` column. */
  function StatusName(s: Status): string
  {
    match s
    case Pending => "pending"
    case Completed => "completed"
    case Skipped => "skipped"
  }

  /** The rule `in:pending,completed,skipped`: exactly the three wire names
      are accepted, and each is read back as the status it names. */
  function ParseStatus(text: string): (r: Option<Status>)
    ensures r.Some? <==> text in {"pending", "completed", "skipped"}
    ensures r.Some? ==> StatusName(r.value) == text
  {
    if text == "pending" then Some(Pending)
    else if text == "completed" then Some(Completed)
    else if text == "skipped" then Some(Skipped)
    else None
  }

  lemma ParseStatusName(s: Status)
    ensures ParseStatus(StatusName(s)) == Some(s)
  {
  }

  /** A field of a request: left out of the request, sent as null, or sent
      with a value. */
  datatype Param<T> = Absent | Null | Given(value: T)

  /** PHP's `$validated['x'] ?? null`: an absent or null field reads as null. */
  function OrNull<T>(p: Param<T>): (r: Option<T>)
    ensures r.Some? <==> p.Given?
    ensures p.Given? ==> r.value == p.value
  {
    if p.Given? then Some(p.value) else None
  }

  /** A `date` argument: a string that parses as a calendar day, or one that
      does not. Calendar parsing itself is abstracted away. */
  datatype DateArg = CalendarDate(day: Day) | Unparsable(text: string)

  /** The rule `required|date`. */
  predicate ValidDate(p: Param<DateArg>)
  {
    p.Given? && p.value.CalendarDate?
  }

  /** The characters PHP's `trim` strips by default. */
  predicate TrimmedChar(c: char)
  {
    c == ' ' || c == '\t' || c == '\n' || c == '\r' || c == '\0' || c == '\U{000B}'
  }

  /** Laravel's `required` rule on a string: present, not null, and not empty
      once trimmed by PHP's `trim`. */
  predicate RequiredString(p: Param<string>)
  {
    p.Given? && exists i | 0 <= i < |p.value| :: !TrimmedChar(p.value[i])
  }

  /** The request fields whose rules can fail. */
  datatype Field =
    | HabitIdField | DateField | StatusField
    | TitleField | PeriodField | RoutineTypeField | IsTimeModeField | IconField

  /** What a controller action answers: the written row, a validation error
      naming every rule that failed (nothing is written), or a server error
      raised while reading the validated input (nothing is written). */
  datatype Response<T> =
    | Ok(value: T)
    | Invalid(fields: set<Field>)
    | ServerError(missingKey: string)
}
