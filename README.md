# Calendar tokens and the export refresh gate

This project models the two pieces of state behind everyclass-server's calendar export
(`everyclass/server/calendar/repo/calendar_token.py`):

- **The calendar-token table** (`calendar_tokens`). Each row is a bearer token for one
  person's calendar in one semester: `type` (student or teacher), `identifier`,
  `semester`, `token` (a UUID, unique by the index `idx_token`), `create_time` and
  an optional `last_used_time`. The module `CalendarToken` keeps the rows in a
  `TokenTable` object, in insertion order. Its methods are
  `InsertCalendarToken`, `UpdateLastUsedTime` and `ResetTokens`, and each is proved
  against a function of the old rows (`NewRow`, `Touched`, `WithoutUser`). The read side
  is a pure function. `FindCalendarToken` dispatches as the source does: a token first,
  then a teacher or student id together with a semester, otherwise `ValueError`. It returns the
  `_parse` projection of a matching row (`Parse`, which drops both timestamps).
- **The refresh gate `use_cache`.** This is a per-file counter in a key-value store. The
  entry is the text `"<timestamp>,<times>"` under `<prefix>:cal_tkn:<filename>`. On a fresh
  key the first two calls are served from cache and the third is refused. The refusal opens
  a new window that counts the refused call, so within the hour the answers then alternate
  (`FreshKeyWithinAnHour`). An expired window allows the cache and
  writes nothing. The module `RefreshGate` has a `Gate` class holding the store and the
  prefix, with `UseCache` and its inner `SetCurrent`. `UseCache` is proved against two
  pure functions. `Classify` turns the value read into a missing, malformed or decoded entry,
  and `Advance` is the transition on that entry. `Run` replays several calls to one file.
  The text format is `Encode`/`Decode`. These are built on `DecimalText`, which models the subset of
  Python's `str(int)`, `int(str)` and `str.split` that the gate uses.

The clock and the UUID generator are parameters (`now`, `token`). The database is the
`rows` field. The Redis store is the `store` field, and its configured prefix is the
`prefix` field of `Gate`.

Behaviour of the source that the model keeps as it is:

- A lookup given both a token and an id/semester raises nothing, and the token wins
  (`TokenTakesPrecedence`).
- Updating a token that no row carries is a silent no-op (`TouchUnknownIsNoop`).
- A lookup by student id and semester never finds anything. The query binds `tid` as the
  identifier, and `tid` is NULL on that path (`FindBySidNeverMatches`; see Findings).
- A duplicate token on insert is rejected by the unique index on `token`. The source does
  not catch that error, and the model returns `Err(UniqueViolation)` with the table unchanged.
- Once an entry's window has expired, `use_cache` answers True and never rewrites the
  entry, so the "third refresh within an hour" rule never fires again for that file
  (`ExpiredStaysExpired`; see Findings).

## Model

| member | source | states |
|---|---|---|
| CalendarToken.NewRow | everyclass/server/calendar/repo/calendar_token.py:22-26 | The inserted row: the given type, identifier, semester and token, `create_time = now`, and no `last_used_time`. It has no contract of its own; `FindAfterInsert` and `InsertCalendarToken` state its properties. |
| CalendarToken.TokenTable.InsertCalendarToken | everyclass/server/calendar/repo/calendar_token.py:10-28 | Given a fresh canonical token, appends exactly one row with the given type, identifier and semester, that token, `create_time = now` and no `last_used_time`, and returns the token. A token already present is rejected and the table is unchanged. Token uniqueness is preserved. |
| CalendarToken.FindAfterInsert | everyclass/server/calendar/repo/calendar_token.py:10-28 | After an insert, a lookup by the returned token yields exactly (type, identifier, semester, token) of the insert. |
| CalendarToken.TokenTable.UpdateLastUsedTime | everyclass/server/calendar/repo/calendar_token.py:31-38 | The new rows are `Touched(old rows, token, now)`, and token uniqueness is preserved. |
| CalendarToken.Touched | everyclass/server/calendar/repo/calendar_token.py:31-38 | The update keeps the number of rows. |
| CalendarToken.TouchedAt | everyclass/server/calendar/repo/calendar_token.py:31-38 | Row i gets `last_used_time = now` if its token is the given one and is otherwise unchanged; no other field changes. |
| CalendarToken.TouchUnknownIsNoop | everyclass/server/calendar/repo/calendar_token.py:31-38 | Updating a token that no row carries leaves the table exactly as it was, with no error. |
| CalendarToken.TouchKeepsWellFormed | everyclass/server/calendar/repo/calendar_token.py:31-38 | The update keeps every token unique and canonical. |
| CalendarToken.TouchKeepsFind | everyclass/server/calendar/repo/calendar_token.py:31-38 | In the model, no lookup's answer changes after an update, because `_parse` drops the timestamps (see Left out for the triple path). |
| CalendarToken.TokenTable.ResetTokens | everyclass/server/calendar/repo/calendar_token.py:41-48 | The new rows are `WithoutUser(old rows, id, typ)`, with `typ` defaulting to student. Token uniqueness is preserved. |
| CalendarToken.WithoutUser | everyclass/server/calendar/repo/calendar_token.py:41-48 | A row survives exactly when it was in the table and is not (that type, that identifier), in any semester. The table never grows. |
| CalendarToken.WithoutUserAppend | everyclass/server/calendar/repo/calendar_token.py:41-48 | Survivors keep their order: deleting from a concatenation deletes from each part. |
| CalendarToken.WithoutUserIdempotent | everyclass/server/calendar/repo/calendar_token.py:41-48 | Resetting twice equals resetting once. |
| CalendarToken.WithoutNullTypeIsNoop | everyclass/server/calendar/repo/calendar_token.py:41-47 | With `typ = None` (SQL NULL) nothing is deleted. |
| CalendarToken.WithoutUserKeepsWellFormed | everyclass/server/calendar/repo/calendar_token.py:41-48 | Deleting keeps every remaining token unique and canonical. |
| CalendarToken.TouchKeepsAnswers | everyclass/server/calendar/repo/calendar_token.py:31-38 | After an update, an answer is acceptable for a lookup exactly when it was acceptable before, whatever order the database returns matches in. |
| CalendarToken.FindAfterResetByToken | everyclass/server/calendar/repo/calendar_token.py:41-48 | After a reset, the token of every deleted row is no longer found. |
| CalendarToken.FindAfterResetByTeacher | everyclass/server/calendar/repo/calendar_token.py:41-48 | After a teacher's reset, a lookup of that teacher finds nothing in any semester. |
| CalendarToken.IssueUseResetForgetsToken | everyclass/server/calendar/repo/calendar_token.py:10-48 | Issuing a token, recording a use and resetting its holder leaves the token unknown to a lookup. |
| CalendarToken.Parse | everyclass/server/calendar/repo/calendar_token.py:51-55 | `_parse`: the row's type, identifier, semester and token. It has no contract of its own; `ParseDropsOnlyTimestamps` states what it keeps and drops. |
| CalendarToken.ParseDropsOnlyTimestamps | everyclass/server/calendar/repo/calendar_token.py:51-55 | Two rows have the same `_parse` projection exactly when they differ at most in their timestamps. |
| CalendarToken.Select | everyclass/server/calendar/repo/calendar_token.py:77-90 | The rows fetched are exactly the table's rows that satisfy the WHERE clause, and none are fetched exactly when no row matches. |
| CalendarToken.FindCalendarToken | everyclass/server/calendar/repo/calendar_token.py:73-93 | Fails with `ValueError` exactly when there is no non-empty token and not both an id and a semester. Otherwise the answer is absent exactly when no row matches, and is otherwise the projection of some matching row. A token selects by token alone. Otherwise the kind is teacher iff `tid` is given and the identifier is `tid` itself. |
| CalendarToken.TokenTakesPrecedence | everyclass/server/calendar/repo/calendar_token.py:76-84 | With a non-empty token, tid/sid/semester are ignored: the same answer and never an error. |
| CalendarToken.FindByTokenIsExact | everyclass/server/calendar/repo/calendar_token.py:76-83 | In a table with unique tokens, looking up a row's token returns that row's projection. |
| CalendarToken.FindByTeacher | everyclass/server/calendar/repo/calendar_token.py:84-91 | A tid lookup returns a teacher row with that identifier and semester. It is absent exactly when no such row exists. |
| CalendarToken.FindBySidNeverMatches | everyclass/server/calendar/repo/calendar_token.py:84-91 | A lookup by sid and semester alone always answers absent. |
| CalendarToken.FindCalendarTokenFixed | everyclass/server/calendar/repo/calendar_token.py:73-93 | The corrected lookup: the same contract, except that the identifier on the triple path is `tid` when given and `sid` otherwise. |
| CalendarToken.FixedFindByStudent | everyclass/server/calendar/repo/calendar_token.py:84-91 | The corrected sid lookup returns a student row with that identifier and semester. It is absent exactly when none exists. |
| CalendarToken.FixedAgreesUnlessSidOnly | everyclass/server/calendar/repo/calendar_token.py:73-93 | The correction gives the same answer as the original except on a search by sid alone. |
| CalendarToken.SidLookupMissesStoredRow | everyclass/server/calendar/repo/calendar_token.py:84-91 | A table holding student 2020001's row for 2023-Fall: the original sid lookup answers absent, and the corrected one returns that row. |
| DecimalText.NatToString | everyclass/server/calendar/repo/calendar_token.py:150 | `str(n)` is a non-empty digit string whose decimal value is n. |
| DecimalText.IntToString | everyclass/server/calendar/repo/calendar_token.py:150 | `int(str(i)) == i`, and the text holds no comma. |
| DecimalText.ParseInt | everyclass/server/calendar/repo/calendar_token.py:158 | `int(s)`: an optional sign followed by at least one ASCII digit, and None otherwise. It has no contract of its own; `IntToString` states that it reads back every integer that `str` writes. |
| DecimalText.Split | everyclass/server/calendar/repo/calendar_token.py:158 | `s.split(",")` gives at least one comma-free piece, and joining the pieces with commas gives s back. |
| DecimalText.SplitPair | everyclass/server/calendar/repo/calendar_token.py:158 | `(a + "," + b).split(",") == [a, b]` for comma-free a and b. |
| RefreshGate.Encode | everyclass/server/calendar/repo/calendar_token.py:150 | The text `f"{timestamp},{times}"`. It has no contract of its own; `EncodeDecode` states that it reads back. |
| RefreshGate.Decode | everyclass/server/calendar/repo/calendar_token.py:158 | `map(int, r.split(","))` unpacked into two values, and None where Python raises `ValueError`. It has no contract of its own; `EncodeDecode` states that it inverts `Encode`. |
| RefreshGate.Classify | everyclass/server/calendar/repo/calendar_token.py:153-158 | An absent key and an empty value are missing, unparsable text is malformed, and anything else is the decoded entry. It has no contract of its own; `ClassifyEncode` states that written entries read back. |
| RefreshGate.Key | everyclass/server/calendar/repo/calendar_token.py:152 | The key `prefix:cal_tkn:filename`. It has no contract of its own; `KeyInjective` states that it is injective in the file name. |
| RefreshGate.Advance | everyclass/server/calendar/repo/calendar_token.py:153-171 | One call on the value read. A missing entry writes `(now, 2)` and allows the cache; a malformed entry raises. In the window, a count of 1 writes `(now, 2)` and refuses, and a larger count is decremented and allows. An expired entry allows and writes nothing. It has no contract of its own; `AdvanceKeepsRange`, `RefusalRestartsWindow`, `RefusalThenAllow` and `ExpiredAllowsWithoutWriting` state its properties. |
| RefreshGate.EncodeDecode | everyclass/server/calendar/repo/calendar_token.py:150-167 | Parsing the text `"ts,n"` written by the gate gives back (ts, n) for all integers. |
| RefreshGate.ClassifyEncode | everyclass/server/calendar/repo/calendar_token.py:153-158 | Reading back the text the gate writes gives the entry it encodes. It is never taken for a missing or malformed entry. |
| RefreshGate.KeyInjective | everyclass/server/calendar/repo/calendar_token.py:152 | Under one prefix, two file names share a key exactly when they are equal. |
| RefreshGate.Gate.SetCurrent | everyclass/server/calendar/repo/calendar_token.py:149-150 | Writes `(now, 2)` under the key and changes nothing else. |
| RefreshGate.Gate.UseCache | everyclass/server/calendar/repo/calendar_token.py:141-171 | Returns the decision of `Advance` on the file's entry and writes only that file's key, and only what `Advance` writes. When every gate entry is in range, the call never raises and keeps every entry in range. |
| RefreshGate.AdvanceKeepsRange | everyclass/server/calendar/repo/calendar_token.py:153-168 | From a missing entry or a count of 1 or 2, a call never raises, and the count it leaves is 1 or 2. |
| RefreshGate.WriteKeepsRange | everyclass/server/calendar/repo/calendar_token.py:149-168 | When every gate entry in the store is in range, a call never raises, and after its write every gate entry is still in range. |
| RefreshGate.RefusalRestartsWindow | everyclass/server/calendar/repo/calendar_token.py:160-164 | A False answer always leaves the entry at `(now, 2)`. |
| RefreshGate.RefusalThenAllow | everyclass/server/calendar/repo/calendar_token.py:149-168 | The call after a False answers True, whatever the clock reads. |
| RefreshGate.NoRefusalTwiceInARow | everyclass/server/calendar/repo/calendar_token.py:141-171 | In any sequence of calls to one file, False never follows False. |
| RefreshGate.ExpiredAllowsWithoutWriting | everyclass/server/calendar/repo/calendar_token.py:169-171 | When `now - ts >= 3600` the call answers True and writes nothing. |
| RefreshGate.ExpiredStaysExpired | everyclass/server/calendar/repo/calendar_token.py:160-171 | With a clock that does not go back, an expired entry answers True on every later call and is never rewritten. |
| RefreshGate.ExpiredBurstNeverRefused | everyclass/server/calendar/repo/calendar_token.py:169-171 | On an expired entry, three calls in the same second all answer True. |
| RefreshGate.AdvanceFixed | everyclass/server/calendar/repo/calendar_token.py:160-171 | The corrected transition treats an expired entry exactly as an absent key: it is `Advance` on `Missing` (a new window `(now, 2)`, cache allowed) when the entry is an hour old or more, and `Advance` on the slot otherwise. |
| RefreshGate.FixedBurstIsRefused | everyclass/server/calendar/repo/calendar_token.py:160-171 | With the corrected transition, from any in-range entry, three calls in the same second include a refusal. |
| RefreshGate.RunInsideWindow | everyclass/server/calendar/repo/calendar_token.py:160-168 | Inside one window starting from count n, the answers alternate, with False exactly when (position + n) is odd. |
| RefreshGate.FreshKeyWithinAnHour | everyclass/server/calendar/repo/calendar_token.py:152-168 | On a fresh key, calls within one hour of the first answer True, True, False, True, False, ... |

## Left out

- `init_table` (schema DDL): only the unique index on `token` is kept, as the `WellFormed` invariant of the table. The secondary index on (type, identifier, semester) only affects performance.
- The `varchar(15)` limit on `identifier` and `semester` is not modelled. The database would reject or trim longer values.
- Type strings other than `student` and `teacher`, which the database enum rejects, are excluded by the `PeopleType` datatype.
- Connections, cursors and commits: the table is the in-memory `rows` field, and each operation is one atomic step.
- The Redis client: the store is a `map<string, string>`. Byte values and `r.decode()` are modelled as text.
- The configured `redis_prefix` is the constructor argument `prefix`, not a fixed value.
- `uuid.uuid4()`, `datetime.datetime.now()` and `time.time()` are parameters. `use_cache` reads `time.time()` twice (for the window test and again inside `set_current`), and the model uses one `now` for both.
- `uuid.UUID(token)`: tokens passed to the update and to a lookup are required to be canonical UUID text. Other spellings that the library accepts (upper case, braces, no hyphens) are not modelled, and neither is the `ValueError` that a malformed token raises.
- `int(...)` is modelled as an optional sign followed by ASCII digits. Surrounding whitespace, `_` separators and non-ASCII digits, which the gate never writes, are not modelled.
- The `@overload` stubs are typing only.
- The read-then-write race in `use_cache` is a concurrency concern, outside this sequential model.
- The database returns matches in no defined order, and an UPDATE may change that order. The model returns the first match in table order. `FindCalendarToken` promises only "some matching row", and `TouchKeepsAnswers` states the order-free effect of an update.
- CalendarToken.TouchKeepsFind: on the id/semester path, its exact equality of answers before and after an update depends on the model's fixed table order. The database's order may change after an UPDATE, so the source promises only what `TouchKeepsAnswers` states. On the token path, where at most one row matches, the equality holds outright.

## Findings

| source | as written | input that shows it | evidently intended | confidence | as-written member | corrected member |
|---|---|---|---|---|---|---|
| everyclass/server/calendar/repo/calendar_token.py:84-91 | On the sid path the query binds `identifier = tid`, which is NULL when only `sid` is given, so no row can match. | A table holding (student, "2020001", "2023-Fall", t), with `sid="2020001", semester="2023-Fall"`: the answer is None. | Compare the identifier against `sid` when no `tid` is given, as the docstring ("by token or sid/tid + semester") says. | high; not executed | CalendarToken.FindBySidNeverMatches | CalendarToken.FixedFindByStudent |
| everyclass/server/calendar/repo/calendar_token.py:160-171 | When the window has expired, `use_cache` returns True and leaves the entry as it is. Every later call then sees an expired window, so the file is never again refused. | An entry `(ts, 1)` and three calls at `ts + 3600`: all three answer True. | Start a new window on expiry, as for an absent key, so that a third refresh within an hour is refused again, as the docstring's rule says. | medium; not executed | RefreshGate.ExpiredBurstNeverRefused | RefreshGate.FixedBurstIsRefused |
