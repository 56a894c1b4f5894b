# What's Next — a Dafny model of the sync and scheduling core

What's Next keeps a user's tasks on several devices and on a server. It
suggests which ones fit the time the user has free. This project models
the parts of it that decide what data ends up where. Each part is a pure
Dafny function, with its properties proved about it:

- **Hybrid logical clock** (`Hlc`, `HlcOrder`). A timestamp
  `<wallTime>_<counter>_<nodeId>` has a 15-digit wall time and a 5-digit
  counter. Covered:
  - parsing and formatting;
  - `tick`, and `receive` from a remote timestamp;
  - `compare`, which orders the raw strings by JavaScript's `<`.

  The string order is proved to agree with the field order while both
  numbers fit their widths. A counter of six digits or more breaks that
  agreement, and the model shows it: such a timestamp sorts below older
  ones.
- **Last-writer-wins merge** (`Merge`). This is `syncTask`. A pushed task
  replaces the stored row when no row of the user exists under its id, or
  when its stamp sorts after the stored one. The store is a map from task
  id to row. An accepted push lays the sent columns over the stored ones.
- **Sync endpoint** (`SyncRoute`). This is the `POST` handler. It pushes
  every client task through the merge in order. It then returns the
  user's rows stamped after the client's checkpoint, or all of them when
  the checkpoint is falsy. Without a session user it answers 401.
- **Time fitting** (`Selection`). This covers:
  - the quiet-hours window test, including windows that cross midnight;
  - `findFittingTasks`, a filter followed by a stable sort. The sort puts
    due tasks first, earliest first, then the rest, longest first.
- **Duration and task-string parsing** (`Nlp`):
  - The `(30m)` / `(2 hours)` annotation regex is written as a
    deterministic matcher. It is proved sound and complete against a
    declarative description of a match.
  - `parseDuration` finds the leftmost match and cuts it out.
  - In `parseTaskString`, the natural-language date parser is a parameter.
- **Schemas** (`Schemas`). These are the task and user validators, with
  their defaults and the `HH:mm` format.

Supporting modules:
- `Common`: `Option`, `Result` and `Max`.
- `LexOrder`: JavaScript string `<`, proved to be a strict total order.
- `Decimal`: digit strings, `toString`, `padStart` and `parseInt`.
- `Text`:
  - whitespace, `trim`, and `\s+` collapsing;
  - `split`, `indexOf`, and `replace` of the first occurrence.

The source and the comments in it disagree in two places. The model
follows the code. The doc comment at packages/core/src/sync/index.ts:10
shows a four-digit counter. The example at
packages/core/src/schemas/index.ts:18 shows a seven-digit counter. The
code pads the counter to five digits and the wall time to fifteen.

The `POST` handler repeats the body of `syncTask` inline rather than
calling it. The two copies are identical, so `SyncRoute.Push` is written
over `Merge.SyncTask`.

## Model

| member | source | states |
|---|---|---|
| Hlc.FromString | packages/core/src/sync/index.ts:21-31 | The parse fails on field count exactly when the string does not hold exactly two '_'. A parsed node id holds no '_' and is the tail of the string. |
| Hlc.FromFields | packages/core/src/sync/index.ts:22-30 | A string that splits into three fields, whose first two read under `parseInt` as natural numbers, parses to the timestamp of those two numbers and the third field. |
| Hlc.RoundTrip | packages/core/src/sync/index.ts:21-35 | Parsing a formatted timestamp gives back the same timestamp, for any node id without '_'. |
| Hlc.SeparatorCount | packages/core/src/sync/index.ts:33-35 | A formatted timestamp holds exactly two more '_' than its node id. So `fromString` rejects every timestamp whose node id contains '_'. |
| Hlc.Tick | packages/core/src/sync/index.ts:37-51 | The new wall time is the larger of the old one and the clock reading. The new state is strictly after the old one. No smaller counter at that wall time would be. The returned string formats the new state. |
| Hlc.Merge | packages/core/src/sync/index.ts:57-69 | The wall time is the largest of the three readings. The result is strictly after both the local state and the remote timestamp. Its counter is the least one that achieves this. |
| Hlc.Receive | packages/core/src/sync/index.ts:53-76 | It fails exactly when the remote string does not parse, and then with the parser's error. Otherwise the new clock is `Merge` of the old clock, the parsed remote timestamp and the clock reading. That state dominates all three, and the returned string formats it. |
| Hlc.Compare | packages/core/src/sync/index.ts:78-81 | The result is 0 exactly for equal strings, -1 exactly when the first sorts before the second, and 1 exactly when it sorts after. |
| Hlc.CompareAntisymmetric | packages/core/src/sync/index.ts:78-81 | Swapping the arguments negates the result. |
| Hlc.CompareTransitive | packages/core/src/sync/index.ts:78-81 | "Before" and "before or equal" are transitive. |
| LexOrder.Total | packages/core/src/sync/index.ts:80 | Of two different strings, one sorts before the other under JavaScript `<`. |
| LexOrder.Transitive | packages/core/src/sync/index.ts:80 | JavaScript string `<` is transitive. |
| LexOrder.Asymmetric | packages/core/src/sync/index.ts:80 | Two strings never sort before each other. |
| Decimal.ParseInt | packages/core/src/sync/index.ts:27-28 | A string that starts with a digit reads as the value of its leading digit run, whatever follows it. An all-digit string reads as its whole value. |
| Decimal.ParseIntSkipsWhitespace | packages/core/src/sync/index.ts:27-28 | Leading whitespace, the same set `trim` removes, does not change what is read. |
| Decimal.ParseIntSign | packages/core/src/sync/index.ts:27-28 | One '+' directly before the digits keeps their value, and one '-' negates it. A sign not followed by a digit gives NaN. |
| Decimal.ParseIntNaN | packages/core/src/sync/index.ts:27-28 | An empty string, or one that starts with neither whitespace, a sign nor a digit, gives NaN. |
| Decimal.PadStart | packages/core/src/sync/index.ts:34 | Padding never truncates. The result has length max(width, length). The input is its suffix and zeros fill the front. |
| Decimal.ValueOfPadStart | packages/core/src/sync/index.ts:34 | Leading zeros do not change a digit string's value. |
| Decimal.ValueOfToDecimal | packages/core/src/sync/index.ts:34 | `toString` of a natural number reads back as that number. |
| Decimal.ToDecimalLength | packages/core/src/sync/index.ts:34 | A number's decimal form fits in k digits exactly when the number is below 10^k. |
| Decimal.LessIsNumericLess | packages/core/src/sync/index.ts:34 | For digit strings of equal length, string `<` is numeric `<`. |
| HlcOrder.FieldWidth | packages/core/src/sync/index.ts:34 | A number below 10^k pads to exactly k digits. |
| HlcOrder.LeadingFieldDecides | packages/core/src/sync/index.ts:33-35 | When the leading fields have equal width, different leading fields decide the string order of the whole strings. |
| HlcOrder.StringOrderIsFieldOrder | packages/core/src/sync/index.ts:33-35 | While both numbers fit their widths, comparing two formatted timestamps as strings gives the order of (wall time, counter, node id). |
| HlcOrder.ToStringInjective | packages/core/src/sync/index.ts:33-35 | Within the widths, different timestamps format to different strings. |
| HlcOrder.SuccessiveTicksAscend | packages/core/tests/index.test.ts:53-58 | Two ticks in a row give strictly increasing strings, within the widths. |
| HlcOrder.ReceiveSortsAfterBoth | packages/core/tests/index.test.ts:60-80 | Within the widths, the string `receive` returns sorts after the remote string and after the clock's previous string. |
| HlcOrder.ReceiveFormatted | packages/core/src/sync/index.ts:53-57 | Receiving a formatted timestamp whose node id has no '_' always succeeds, and moves the clock to the merged state. |
| HlcOrder.MergeBehindRemote | packages/core/src/sync/index.ts:63-64 | When the remote wall time leads, the counter continues from the remote counter. |
| HlcOrder.ReceiveScenario | packages/core/tests/index.test.ts:92-124 | After a tick, a remote stamp with an older wall time gives counter 1, so the local counter goes up by one. A remote stamp with an equal wall time and counter 10 gives 11, which is max + 1. A remote stamp with a later wall time and counter 50 moves the wall time forward and gives 51. |
| HlcOrder.SixDigitCounterSortsBelow | packages/core/src/sync/index.ts:34 | At equal wall times, a six-digit counter's string sorts before a five-digit one, although its counter is larger. |
| HlcOrder.CounterPastWidthSortsBelowRemote | packages/core/src/sync/index.ts:59-67 | A receive that carries the counter past 99999 returns a string that sorts before the remote string it answered. |
| HlcOrder.CounterOverflowWrittenInFull | packages/core/tests/index.test.ts:82-90 | A counter of 1000000 is written in full, not truncated to five digits. |
| Text.Trim | packages/core/src/nlp/index.ts:27 | The result has no whitespace at either end. The input is whitespace, then the result, then whitespace. |
| Text.TrimKeepsVisible | packages/core/src/nlp/index.ts:27 | Trimming removes whitespace only. |
| Text.TrimOfTrimmed | packages/core/src/nlp/index.ts:57-58 | Trimming is idempotent. |
| Text.Collapse | packages/core/src/nlp/index.ts:23 | The result reads as the same words as the input, with every whitespace run now one space. Its words (maximal runs without whitespace) are the input's. It has no adjacent whitespace, and its only whitespace is plain spaces. Both ends stay whitespace or not as they were. |
| Text.Tidy | packages/core/src/nlp/index.ts:23 | The cleaned title is the input's words, each separated from the next by exactly one space, with no whitespace at either end. |
| Text.TrimKeepsWords | packages/core/src/nlp/index.ts:23 | Trimming does not change the words of a string. |
| Text.CollapseOfCollapsed | packages/core/src/nlp/index.ts:23 | A string with no adjacent whitespace, whose whitespace is only spaces, is its own collapse. |
| Text.TidyOfTidied | packages/core/src/nlp/index.ts:53 | Cleaning an already clean title gives it back unchanged. |
| Text.TidiedJoin | packages/core/src/nlp/index.ts:23 | Two non-empty clean titles joined by one space form a clean title. |
| Text.TidyDropsTrailingSpace | packages/core/src/nlp/index.ts:53 | Cleaning a clean title followed by one space gives the title back. |
| Text.Split | packages/core/src/sync/index.ts:22 | It gives one more part than there are separators. No part holds the separator, and joining the parts gives the input back. |
| Text.SplitJoin | packages/core/src/sync/index.ts:22 | Splitting a join of separator-free parts gives the parts back. |
| Text.IndexOf | packages/core/src/nlp/index.ts:23 | The result is the leftmost occurrence of the pattern, or none when it occurs nowhere. |
| Text.RemoveFirst | packages/core/src/nlp/index.ts:23 | The leftmost occurrence is cut out and everything around it is kept. Without an occurrence the string is unchanged. |
| Nlp.UnitAtUnique | packages/core/src/nlp/index.ts:12 | Before a ')', at most one unit of the alternation can match. So the order the alternatives are tried in does not change the match. |
| Nlp.FirstUnitOf | packages/core/src/nlp/index.ts:12 | The unit the matcher picks is an alternative that matches there, in any letter case, followed by ')'. When it picks none, no alternative matches there. |
| Nlp.MatchAtSound | packages/core/src/nlp/index.ts:12-13 | A match the matcher reports is well formed and is exactly the text at its position: '(', digits, optional whitespace, a unit, ')'. |
| Nlp.MatchAtComplete | packages/core/src/nlp/index.ts:12-13 | Every well-formed annotation in the input is found by the matcher at its position. |
| Nlp.FindFrom | packages/core/src/nlp/index.ts:13 | The search returns the leftmost position where the regex matches, or none when it matches nowhere. |
| Nlp.FirstOccurrenceIsMatch | packages/core/src/nlp/index.ts:23 | `replace(match[0], '')` cuts out exactly the matched annotation. No earlier copy of its text exists. |
| Nlp.NoParenthesisNoMatch | packages/core/src/nlp/index.ts:13 | Input without '(' has no match. |
| Nlp.Minutes | packages/core/src/nlp/index.ts:16-21 | The duration is the number written. For an hour unit it is that number times sixty. |
| Nlp.ParseDuration | packages/core/src/nlp/index.ts:11-28 | The title is always trimmed. Without a match, it is the trimmed input with 15 minutes. With one, the minutes are the match's, and the title is the input with the match removed, trimmed and collapsed. |
| Nlp.AnnotationAfterPlainText | packages/core/tests/index.test.ts:7-11 | An annotation after text without '(' is found. Its minutes are taken, and the text on both sides of it forms the title. |
| Nlp.PlainInput | packages/core/tests/index.test.ts:20-24 | Input without '(' keeps its trimmed text and lasts 15 minutes. |
| Nlp.CutDate | packages/core/src/nlp/index.ts:43-54 | Without hits the title is unchanged. With hits it is clean (words separated by single spaces, trimmed). Its words are those of the base title with the first occurrence of the last hit's text cut out, or all the base title's words when that text does not occur. |
| Nlp.WithFallback | packages/core/src/nlp/index.ts:56-59 | The final title is never empty and is trimmed. It is the cut title when that is non-empty, otherwise the duration-stripped title, otherwise "Untitled Task". |
| Nlp.ParseTaskString | packages/core/src/nlp/index.ts:30-67 | The title is non-empty and trimmed. It is the title with the date cut out when that is non-empty, else `parseDuration`'s title when that is non-empty. The minutes are `parseDuration`'s. The due instant is that of the last date hit, if any. The time zone is passed through. |
| Nlp.DateCutFromTitle | packages/core/src/nlp/index.ts:30-59 | For input "name when (annotation)", where the date parser's last hit is the text `when`, the title is `name`. The minutes are the annotation's, and the due instant is that of the hit. |
| Nlp.CallMomExample | packages/core/tests/index.test.ts:13-18 | "Call mom tomorrow at 10am (30m)", with "tomorrow at 10am" as the last date hit, gives the title "Call mom", 30 minutes and the hit's due instant. |
| Nlp.EmptyInput | packages/core/tests/index.test.ts:39-43 | Empty input gives "Untitled Task" and 15 minutes, whatever the date parser returns. |
| Nlp.OnlyAnnotation | packages/core/tests/index.test.ts:45-49 | Input that is only an annotation gives "Untitled Task" and the annotation's minutes. |
| Schemas.ParseTask | packages/core/src/schemas/index.ts:7-22 | A task is accepted exactly when its title is non-empty, its duration is positive and it has at most ten tags. A rejection names exactly the violated constraints. An accepted task keeps the id, title, description, duration, due date, stamp and the created, updated and deleted instants as given. It keeps the task type, tags, completion flag, time-zone mode and time zone when given, and otherwise takes admin, [], false, floating and UTC. |
| Schemas.ParseTaskAcceptsValid | packages/core/src/schemas/index.ts:7-22 | A fully specified task is accepted unchanged exactly when it is valid. |
| Schemas.FormatClockTimeIsValid | packages/core/src/schemas/index.ts:30-31 | Every hour and minute of the day, written as HH:mm, passes the regex and reads back. |
| Schemas.ClockTimeIsFormatted | packages/core/src/schemas/index.ts:30-31 | Every string the regex accepts is the HH:mm form of its own hour and minute. |
| Schemas.ParseUser | packages/core/src/schemas/index.ts:26-33 | A user is accepted exactly when the name is non-empty and any quiet-hours strings given are HH:mm. A rejection names exactly the violated constraints. An accepted user keeps the id, email and name. It keeps the quiet hours and time zone when given, and otherwise takes 22:00, 08:00 and UTC. |
| Schemas.ParseUserAcceptsValid | packages/core/src/schemas/index.ts:26-33 | A fully specified user is accepted unchanged exactly when it is valid. |
| Schemas.DefaultQuietHours | packages/core/src/schemas/index.ts:30-31 | The default quiet hours are valid, and run from 22:00 to 08:00. |
| Selection.InWindowIsArc | packages/core/src/time/index.ts:19-30 | The source's two-branch test equals membership in the closed arc from start to end around the clock face. |
| Selection.IsInQuietHours | packages/core/src/time/index.ts:4-31 | A time is quiet only if both strings are HH:mm. When both are, it is quiet exactly when it lies on the arc from start to end. |
| Selection.SameDayWindow | packages/core/src/time/index.ts:30 | When start ≤ end, quiet means start ≤ time ≤ end. |
| Selection.MidnightWindow | packages/core/tests/index.test.ts:166-178 | When start > end, quiet means time ≥ start or time ≤ end. |
| Selection.SingleInstantWindow | packages/core/tests/index.test.ts:180-192 | Equal start and end make exactly one instant quiet. |
| Selection.EndIsInstant | packages/core/src/time/index.ts:30 | The end is an instant, not a minute: any time strictly inside the end minute is not quiet. |
| Selection.MalformedWindowIsNeverQuiet | packages/core/src/time/index.ts:7-30 | When either quiet-hours string is not HH:mm, no time is quiet. |
| Selection.DefaultWindowBoundaries | packages/core/tests/index.test.ts:194-206 | Under 22:00–08:00, 22:00, 23:00 and 08:00 are quiet; 21:59, 08:01 and 10:00 are not. |
| Selection.FilterFitting | packages/core/src/time/index.ts:35 | Exactly the open, undeleted tasks that fit the minutes are kept, each as often as it occurs. They keep their input order: the result is a subsequence of the input. |
| Selection.FilterWithKey | packages/core/src/time/index.ts:35 | Filtering and then keeping the tasks of one sort key gives the same list as keeping them first and then filtering. |
| Selection.FilterAllFitting | packages/core/src/time/index.ts:35 | A list whose tasks all fit passes the filter unchanged. |
| Selection.ComparatorIsKeyOrder | packages/core/src/time/index.ts:36-44 | The comparator's sign is the lexicographic order of the key. The key is: due or not, then the due instant, then duration descending. |
| Selection.Insert | packages/core/src/time/index.ts:36-44 | Inserting into a sorted list keeps it sorted and adds exactly the one task. It keeps the input order of equal-key tasks, with the new one last. |
| Selection.SortTasks | packages/core/src/time/index.ts:36-44 | The output is sorted by the comparator and is a permutation of the input. Tasks with equal keys keep their input order (stability). |
| Selection.FindFittingTasks | packages/core/src/time/index.ts:33-45 | The output holds exactly the fitting tasks, with their multiplicities, sorted by the comparator. For every sort key, the tasks with that key come out as the filter leaves them, which is their input order. |
| Selection.FittingOrder | packages/core/src/time/index.ts:37-43 | In the output, due tasks come before undue ones. Due tasks are in due order, and undue tasks are longest first. |
| Selection.SortingExample | packages/core/tests/index.test.ts:152-162 | An undue task and two due ones come out as earliest due, later due, then undue. |
| Selection.FilterExamples | packages/core/tests/index.test.ts:133-150 | A 20-minute task does not fit in 15 minutes, a 10-minute one does. Completed and deleted tasks never fit. |
| Merge.SyncTask | apps/api/src/lib/sync.ts:9-30 | A write is accepted exactly when the id is new, owned by another user, or the client's stamp sorts after the user's stored one. A refused write changes nothing. An accepted one sets the stamp and write time. Only the pushed id can appear or change. |
| Merge.NewTaskInserted | apps/api/src/lib/sync.ts:14-19 | A task with a new id is stored under the session user with exactly the sent columns, whatever owner the payload names. |
| Merge.StaleIgnored | apps/api/src/lib/sync.ts:14-29 | A stamp that does not sort after the user's stored one is refused and the store is unchanged. |
| Merge.NewerOverlays | apps/api/src/lib/sync.ts:20-27 | A newer stamp keeps the columns not sent and replaces those sent. Every other row is untouched. |
| Merge.Idempotent | apps/api/src/lib/sync.ts:14 | When no other user holds the id and the payload names no owner other than the session user, pushing the same task twice is the same as once: the second push is refused. |
| Merge.LaterAssociates | apps/api/src/lib/sync.ts:14 | The "later of two stamps" the merge keeps does not depend on how three stamps are grouped. |
| Merge.LastWriterWins | apps/api/src/lib/sync.ts:14-26 | When no other user holds the id and neither payload names another owner, two pushes of the same task, in either order, leave the later of the two stamps stored. |
| Merge.ArrivalOrderMatters | apps/api/src/lib/sync.ts:14-26 | On an empty store, a task pushed with stamp "2" and no columns, then with stamp "1" and a title, ends without the title. The other order keeps the title. Both orders end with stamp "2". |
| Merge.CrossOwnerOverwrite | apps/api/src/lib/sync.ts:10-26 | A row owned by another user is rewritten by a push whose stamp is older than the row's. |
| Merge.SyncTaskIsolated | apps/api/src/lib/sync.ts:10-26 | The corrected merge refuses ids another user owns. It accepts a new id or a newer stamp, and stores the row under the session user. |
| Merge.Isolation | apps/api/src/lib/sync.ts:10-26 | The corrected merge never adds, changes or removes a row of another user. |
| Merge.IsolatedAgrees | apps/api/src/lib/sync.ts:9-30 | Where no other user holds the id and the payload names no owner other than the session user, the corrected merge equals the original one. |
| Merge.IsolatedIdempotent | apps/api/src/lib/sync.ts:14 | The corrected merge is idempotent for every payload. |
| SyncRoute.Post | apps/api/src/app/api/sync/route.ts:8-44 | Without a session user the store is unchanged and the status is 401. With one, the store is the batch pushed in order, and every row no task of the batch names is unchanged. The reply has status 200. It holds exactly the user's rows of the new store stamped after a truthy checkpoint (all of them for a falsy one), each as stored. |
| SyncRoute.UnauthorizedTouchesNothing | apps/api/src/app/api/sync/route.ts:9-10 | Without a session user, nothing is written and the reply is 401. |
| SyncRoute.Push | apps/api/src/app/api/sync/route.ts:15-33 | No row disappears. Every new row's id is named by some task of the batch. |
| SyncRoute.PushConcat | apps/api/src/app/api/sync/route.ts:15-33 | Pushing a + b equals pushing a, then b. |
| SyncRoute.PushLast | apps/api/src/app/api/sync/route.ts:15-33 | The last task of a batch meets the store the earlier ones left. |
| SyncRoute.PushKeepsUnnamed | apps/api/src/app/api/sync/route.ts:15-33 | A row whose id no task of the batch names keeps its value. |
| SyncRoute.DuplicateInBatch | apps/api/src/app/api/sync/route.ts:15-33 | When no other user holds the id and the payload names no owner other than the session user, a task sent twice in a row has the effect of sending it once. |
| SyncRoute.PushIsolated | apps/api/src/app/api/sync/route.ts:15-33 | The batch loop over the corrected merge leaves every row of other users exactly as it was. It adds none for them. |
| SyncRoute.Pull | apps/api/src/app/api/sync/route.ts:36-41 | Every row returned is a row of the store, unchanged. |
| SyncRoute.PullExactly | apps/api/src/app/api/sync/route.ts:36-41 | With a truthy checkpoint, a row is returned exactly when the user owns it and its stamp sorts after the checkpoint. |
| SyncRoute.PullOwnRowsOnly | apps/api/src/app/api/sync/route.ts:38 | No row of another user is ever returned. |
| SyncRoute.PullFalsyReturnsAll | apps/api/src/app/api/sync/route.ts:39 | An absent or empty checkpoint returns every row of the user, deleted ones included. |
| SyncRoute.PullShrinks | apps/api/src/app/api/sync/route.ts:39 | A later checkpoint returns a subset of what an earlier one returns. |
| SyncRoute.PushedTaskReturned | apps/api/src/app/api/sync/route.ts:15-41 | A task of the batch comes back in the same reply, with its own stamp, under four conditions: it is accepted where no other user holds its id, it names no owner other than the session user, no later task of the batch names its id, and its stamp is past the checkpoint. |

## Left out

- Clocks are parameters. `Date.now()`, `DateTime.now()` and `new Date()` become a `now` argument. One request uses one reading, where the source reads the clock at every write.
- Time zones are left out. Luxon's zone conversion, daylight saving and the calendar-day `set` are not modelled. The quiet-hours test takes the time of day in milliseconds since local midnight. Due dates are integer instants, and the comparator's `diff` is their difference.
- The date parser (chrono) and the ISO formatting of its result are the parameter `dates` of `Nlp.ParseTaskString`. Each hit is its matched text and an already formatted instant.
- Nlp.ParseTaskString: the time zone is a required argument. The source's default of 'UTC' for `userTimezone` (packages/core/src/nlp/index.ts:30) is not modelled.
- Nlp.ParseTaskString: when the title left after cutting a date is blank, the source returns `titleAfterDuration.trim()`. `parseDuration` has already trimmed that title, so the model returns it as is.
- Text.IsWhitespace: the same ECMAScript whitespace set serves `trim`, `\s` and `parseInt`. Case folding covers ASCII letters only.
- LexOrder.Less: a Dafny `char` is a Unicode scalar value, so strings compare by code point. JavaScript's `<` compares UTF-16 code units. The two orders differ when a character above U+FFFF meets one from U+E000 to U+FFFF: "\uFFFF" sorts before "😀" here and after it in JavaScript. Stamps built by `toString` from digits and an ASCII node id are not affected.
- Hlc.FromString: where a numeric field reads as `NaN`, the source returns a timestamp holding `NaN`; the model returns a `NotANumber` error, because it has no `NaN`. Where a field reads as a negative number, the source returns it as is; the model returns a `Negative` error, because its clock fields are natural numbers. Only a wrong field count throws in the source.
- Hlc.Receive: with a `NaN` field the source does not stop. `Math.max` then yields `NaN`, the clock's wall time becomes `NaN`, and every later `tick` and `receive` carries it. A negative field is merged as is. The model returns the parse error and leaves the clock as it was.
- Decimal.ParseInt: "-0" reads as 0, where JavaScript gives negative zero.
- Numbers are unbounded naturals. The precision loss of JavaScript numbers above 2^53 is not modelled, and neither are negative or fractional wall times.
- Hlc.ToString: its contract gives only the length and the node-id suffix. `Hlc.ToStringShape` gives the layout and `HlcOrder.FieldWidth` the field widths.
- Nlp.MatchAt: its contract only fixes the match position. What a match is, is stated by `Nlp.MatchAtSound` and `Nlp.MatchAtComplete`.
- Zod's `uuid`, `email` and `datetime` string formats are not modelled. Only the constraints the core relies on are checked: lengths, positivity, tag count, `HH:mm` and defaults.
- The database is a map from task id to row. Left out of it:
  - column defaults, not-null constraints and failed inserts;
  - the order of `findMany` rows;
  - concurrent requests between `findFirst` and the upsert.
- Postgres `>` on the stamp column is taken to be JavaScript string order.
- Merge.LastWriterWins: only the stored stamp is independent of arrival order. The columns and `updatedAt` depend on it, as `Merge.ArrivalOrderMatters` shows, because an accepted push lays its columns over whatever the earlier push left.
- A client task's `id` and `userId` keys are not modelled as overwritable columns. `userId` is modelled as the optional owner a payload may name. `createdAt` is an ordinary column and is overwritten like any other sent key.
- The HTTP and JSON encoding, `getSessionUser` (the `session` parameter), the tasks route, the database schema and the web and iOS apps are not part of this model.

## Findings

| source | as written | input that shows it | evidently intended | confidence | as-written member | corrected member |
|---|---|---|---|---|---|---|
| apps/api/src/lib/sync.ts:10-26 | The existing row is looked up by id and user together. The upsert's conflict target is the id alone, and it does not check the owner. | User A holds task X with stamp S. User B pushes X with any stamp older than S. The lookup finds no row of B, so the push is accepted. The conflict on X then overwrites A's row. | A push never changes or takes over another user's row. | medium, not executed | Merge.CrossOwnerOverwrite | Merge.SyncTaskIsolated |

The handler in apps/api/src/app/api/sync/route.ts:16-31 repeats the same
code. `SyncRoute.PushIsolated` runs the batch over the corrected merge.
`Merge.Isolation` proves the corrected merge leaves other users' rows
alone, and `Merge.IsolatedAgrees` proves it agrees with the original
wherever no other user holds the id and the payload names no other owner.

The conflict path also spreads the payload's `userId` into the update
(apps/api/src/lib/sync.ts:22-25). A payload that names another owner
therefore hands the session user's own row to that owner.
`Merge.NewerOverlays` states the owner the row ends with. The corrected
merge always stores the session user.
