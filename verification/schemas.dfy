/**
 * The Task and User records of the core package and the constraints their
 * schemas enforce: a non-empty title, a positive whole duration, at most
 * ten tags, `HH:mm` quiet hours, and the defaults filled in for absent
 * fields. Instants (`due_at`, `created_at`, ...) are milliseconds since
 * the epoch; the ISO-8601 text they travel as is not modelled.
 */
module Schemas {
  import opened Common
  import Decimal

  type Instant = int

  datatype TaskType = DeepWork | Admin | Quick

  datatype TimezoneMode = Floating | Fixed

  const MaxTags: nat := 10
  const DefaultTaskType: TaskType := Admin
  const DefaultTimezoneMode: TimezoneMode := Floating
  const DefaultTimezone: string := "UTC"
  const DefaultQuietHoursStart: string := "22:00"
  const DefaultQuietHoursEnd: string := "08:00"

  const MsPerMinute: nat := 60000
  const MsPerHour: nat := 3600000
  const MsPerDay: nat := 86400000

  datatype Task = Task(
    id: string,
    title: string,
    description: Option<string>,
    durationMinutes: int,
    taskType: TaskType,
    tags: seq<string>,
    isCompleted: bool,
    dueAt: Option<Instant>,
    timezoneMode: TimezoneMode,
    timezone: string,
    hlcTimestamp: string,
    createdAt: Instant,
    updatedAt: Instant,
    deletedAt: Option<Instant>)

  /** What `TaskSchema` demands of a parsed task. */
  predicate ValidTask(t: Task)
  {
    |t.title| >= 1 && t.durationMinutes > 0 && |t.tags| <= MaxTags
  }

  /** A task as it arrives, before defaults: the defaulted fields may be absent. */
  datatype TaskInput = TaskInput(
    id: string,
    title: string,
    description: Option<string>,
    durationMinutes: int,
    taskType: Option<TaskType>,
    tags: Option<seq<string>>,
    isCompleted: Option<bool>,
    dueAt: Option<Instant>,
    timezoneMode: Option<TimezoneMode>,
    timezone: Option<string>,
    hlcTimestamp: string,
    createdAt: Instant,
    updatedAt: Instant,
    deletedAt: Option<Instant>)

  datatype TaskIssue = EmptyTitle | NonPositiveDuration | TooManyTags

  function TaskIssues(input: TaskInput): set<TaskIssue>
  {
    (if |input.title| == 0 then {EmptyTitle} else {})
    + (if input.durationMinutes <= 0 then {NonPositiveDuration} else {})
    + (if input.tags.Some? && |input.tags.value| > MaxTags then {TooManyTags} else {})
  }

  /**
   * `TaskSchema.parse`: every violated constraint is reported; otherwise the
   * absent fields take their defaults.
   */
  function ParseTask(input: TaskInput): (r: Result<Task, set<TaskIssue>>)
    ensures r.Ok? ==> ValidTask(r.value)
    ensures r.Ok? <==> (|input.title| >= 1 && input.durationMinutes > 0
      && (input.tags.None? || |input.tags.value| <= MaxTags))
    ensures r.Err? ==> r.error != {}
    ensures r.Err? ==> (EmptyTitle in r.error <==> |input.title| == 0)
    ensures r.Err? ==> (NonPositiveDuration in r.error <==> input.durationMinutes <= 0)
    ensures r.Err? ==> (TooManyTags in r.error <==> input.tags.Some? && |input.tags.value| > MaxTags)
    ensures r.Ok? ==>
      && r.value.id == input.id && r.value.title == input.title
      && r.value.description == input.description && r.value.durationMinutes == input.durationMinutes
      && r.value.dueAt == input.dueAt && r.value.hlcTimestamp == input.hlcTimestamp
      && r.value.createdAt == input.createdAt && r.value.updatedAt == input.updatedAt
      && r.value.deletedAt == input.deletedAt
    ensures r.Ok? ==> r.value.taskType == (if input.taskType.Some? then input.taskType.value else Admin)
    ensures r.Ok? ==> r.value.tags == (if input.tags.Some? then input.tags.value else [])
    ensures r.Ok? ==> r.value.isCompleted == (input.isCompleted == Some(true))
    ensures r.Ok? ==> r.value.timezoneMode == (if input.timezoneMode.Some? then input.timezoneMode.value else Floating)
    ensures r.Ok? ==> r.value.timezone == (if input.timezone.Some? then input.timezone.value else "UTC")
  {
    var issues := TaskIssues(input);
    if issues != {} then Err(issues)
    else
      Ok(Task(
        input.id, input.title, input.description, input.durationMinutes,
        input.taskType.GetOr(DefaultTaskType),
        input.tags.GetOr([]),
        input.isCompleted.GetOr(false),
        input.dueAt,
        input.timezoneMode.GetOr(DefaultTimezoneMode),
        input.timezone.GetOr(DefaultTimezone),
        input.hlcTimestamp, input.createdAt, input.updatedAt, input.deletedAt))
  }

  /** A task spelled out with every field present. */
  function AsInput(t: Task): TaskInput
  {
    TaskInput(
      t.id, t.title, t.description, t.durationMinutes, Some(t.taskType), Some(t.tags),
      Some(t.isCompleted), t.dueAt, Some(t.timezoneMode), Some(t.timezone),
      t.hlcTimestamp, t.createdAt, t.updatedAt, t.deletedAt)
  }

  /** The schema accepts exactly the valid tasks, and returns them unchanged. */
  lemma ParseTaskAcceptsValid(t: Task)
    ensures ParseTask(AsInput(t)) == Ok(t) <==> ValidTask(t)
    ensures ParseTask(AsInput(t)).Ok? <==> ValidTask(t)
  {
  }

  datatype User = User(
    id: string,
    email: string,
    name: string,
    quietHoursStart: string,
    quietHoursEnd: string,
    timezone: string)

  /**
   * `/^([01]\d|2[0-3]):([0-5]\d)$/`: two-digit hour 00-23, a colon,
   * two-digit minute 00-59, and nothing else.
   */
  predicate IsClockTime(s: string)
  {
    && |s| == 5
    && ((('0' <= s[0] <= '1') && Decimal.IsDigit(s[1])) || (s[0] == '2' && '0' <= s[1] <= '3'))
    && s[2] == ':'
    && '0' <= s[3] <= '5' && Decimal.IsDigit(s[4])
  }

  function ClockHour(s: string): (h: nat)
    requires IsClockTime(s)
    ensures h < 24
  {
    10 * Decimal.DigitValue(s[0]) + Decimal.DigitValue(s[1])
  }

  function ClockMinute(s: string): (m: nat)
    requires IsClockTime(s)
    ensures m < 60
  {
    10 * Decimal.DigitValue(s[3]) + Decimal.DigitValue(s[4])
  }

  /** `HH:mm` for an hour and a minute of the day. */
  function FormatClockTime(h: nat, m: nat): string
    requires h < 24 && m < 60
  {
    [Decimal.DigitChar(h / 10), Decimal.DigitChar(h % 10), ':', Decimal.DigitChar(m / 10), Decimal.DigitChar(m % 10)]
  }

  /** Every hour and minute of the day is written in a form the validator accepts. */
  lemma FormatClockTimeIsValid(h: nat, m: nat)
    requires h < 24 && m < 60
    ensures IsClockTime(FormatClockTime(h, m))
    ensures ClockHour(FormatClockTime(h, m)) == h
    ensures ClockMinute(FormatClockTime(h, m)) == m
  {
  }

  /** Every string the validator accepts is the `HH:mm` form of its own hour and minute. */
  lemma ClockTimeIsFormatted(s: string)
    requires IsClockTime(s)
    ensures FormatClockTime(ClockHour(s), ClockMinute(s)) == s
  {
    var h, m := ClockHour(s), ClockMinute(s);
    assert h / 10 == Decimal.DigitValue(s[0]) && h % 10 == Decimal.DigitValue(s[1]);
    assert m / 10 == Decimal.DigitValue(s[3]) && m % 10 == Decimal.DigitValue(s[4]);
  }

  /** Milliseconds from local midnight to the wall-clock time `HH:mm`. */
  function ClockTimeMs(s: string): (ms: nat)
    requires IsClockTime(s)
    ensures ms < MsPerDay && ms % MsPerMinute == 0
  {
    ClockHour(s) * MsPerHour + ClockMinute(s) * MsPerMinute
  }

  /** What `UserSchema` demands of a parsed user. */
  predicate ValidUser(u: User)
  {
    |u.name| >= 1 && IsClockTime(u.quietHoursStart) && IsClockTime(u.quietHoursEnd)
  }

  datatype UserInput = UserInput(
    id: string,
    email: string,
    name: string,
    quietHoursStart: Option<string>,
    quietHoursEnd: Option<string>,
    timezone: Option<string>)

  datatype UserIssue = EmptyName | BadQuietHoursStart | BadQuietHoursEnd

  function UserIssues(input: UserInput): set<UserIssue>
  {
    (if |input.name| == 0 then {EmptyName} else {})
    + (if input.quietHoursStart.Some? && !IsClockTime(input.quietHoursStart.value) then {BadQuietHoursStart} else {})
    + (if input.quietHoursEnd.Some? && !IsClockTime(input.quietHoursEnd.value) then {BadQuietHoursEnd} else {})
  }

  /**
   * `UserSchema.parse`: quiet hours default to 22:00 and 08:00 and the
   * time zone to UTC; a present quiet-hours string must match `HH:mm`.
   */
  function ParseUser(input: UserInput): (r: Result<User, set<UserIssue>>)
    ensures r.Ok? ==> ValidUser(r.value)
    ensures r.Ok? <==> (|input.name| >= 1
      && (input.quietHoursStart.None? || IsClockTime(input.quietHoursStart.value))
      && (input.quietHoursEnd.None? || IsClockTime(input.quietHoursEnd.value)))
    ensures r.Err? ==> r.error != {}
    ensures r.Err? ==> (EmptyName in r.error <==> |input.name| == 0)
    ensures r.Err? ==> (BadQuietHoursStart in r.error <==>
      input.quietHoursStart.Some? && !IsClockTime(input.quietHoursStart.value))
    ensures r.Err? ==> (BadQuietHoursEnd in r.error <==>
      input.quietHoursEnd.Some? && !IsClockTime(input.quietHoursEnd.value))
    ensures r.Ok? ==> r.value.id == input.id && r.value.email == input.email && r.value.name == input.name
    ensures r.Ok? ==> r.value.quietHoursStart == (if input.quietHoursStart.Some? then input.quietHoursStart.value else "22:00")
    ensures r.Ok? ==> r.value.quietHoursEnd == (if input.quietHoursEnd.Some? then input.quietHoursEnd.value else "08:00")
    ensures r.Ok? ==> r.value.timezone == (if input.timezone.Some? then input.timezone.value else "UTC")
  {
    var issues := UserIssues(input);
    if issues != {} then Err(issues)
    else
      assert IsClockTime(DefaultQuietHoursStart) && IsClockTime(DefaultQuietHoursEnd);
      Ok(User(
        input.id, input.email, input.name,
        input.quietHoursStart.GetOr(DefaultQuietHoursStart),
        input.quietHoursEnd.GetOr(DefaultQuietHoursEnd),
        input.timezone.GetOr(DefaultTimezone)))
  }

  /** A user spelled out with every field present. */
  function AsUserInput(u: User): UserInput
  {
    UserInput(u.id, u.email, u.name, Some(u.quietHoursStart), Some(u.quietHoursEnd), Some(u.timezone))
  }

  /** The schema accepts exactly the valid users, and returns them unchanged. */
  lemma ParseUserAcceptsValid(u: User)
    ensures ParseUser(AsUserInput(u)) == Ok(u) <==> ValidUser(u)
    ensures ParseUser(AsUserInput(u)).Ok? <==> ValidUser(u)
  {
  }

  /** The default quiet hours run from 22:00 to 08:00, across midnight. */
  lemma DefaultQuietHours()
    ensures IsClockTime(DefaultQuietHoursStart) && IsClockTime(DefaultQuietHoursEnd)
    ensures ClockTimeMs(DefaultQuietHoursStart) == 22 * MsPerHour
    ensures ClockTimeMs(DefaultQuietHoursEnd) == 8 * MsPerHour
  {
  }
}
