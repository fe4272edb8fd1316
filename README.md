# Hong Kong traffic-news history harvester: a Dafny model

This project models the core of a script that collects the Transport Department's
special traffic news. Once a minute the archive holds a snapshot of the feed. Each run
of the script does the following:

- It walks a minute cursor from a stored checkpoint up to one minute before now.
- It fetches each minute's snapshot, bucketed by a `YYYYMMDD-HHMM` string.
- It merges the minute's snapshot into a history keyed by incident number, when the
  snapshot holds exactly one message.
- It stores the advanced checkpoint.
- It purges incidents not updated for three days.

The model has five modules:

- `Values` (values.dfy) holds the shared vocabulary:
  - instants in microseconds since 0001-01-01, Python's datetime origin;
  - feed field values (`Null` for an empty XML element, or text);
  - Python truthiness;
  - the errors a merge can raise;
  - the truncation of `now` to whole seconds that gives `now_iso`.
- `IncidentHistory` (history.dfy) models `History.push_msg` and `History.remove_expire`:
  - `History` is a class with the `history` map as its field.
  - `PushMsg` and `RemoveExpire` are methods that update it in place. Each is proved
    against a specification function, `Merge` and `Expire`.
  - `ExtractFields` is the field-repair loop: it pops six fields and puts `''` for each
    one that is missing.
- `HistoryLemmas` (history_lemmas.dfy) states what a merge and an expiry promise:
  - the location choice;
  - the three merge cases (new incident, new announcement, re-delivery);
  - the failure cases;
  - the append-only growth of the history;
  - idempotence;
  - the expiry boundary.
- `TickFormat` (tick_format.dfy) models the bucket string `f'{t.year}{t.month:02d}…'`:
  - the string can be parsed back into the fields it was made from;
  - it is 13 characters from year 1000 on;
  - the year is not zero-padded, so before year 1000 the string is shorter.
- `Poller` (poller.dfy) models the driver loop:
  - `PollTick` is one iteration, `PollFrom` the `while` loop, and `Run` a whole
    invocation (loop, checkpoint, expiry). `Start` is an invocation from start-up,
    loading the stored history and checkpoint first.
  - The specification function `ApplyTicks` folds the tick step over the minutes visited.
  - Lemmas prove the cursor bounds and that the run's loop only extends the history.
  - Replaying a pass's minutes on the history it produced, with the same snapshots
    and lookups, changes nothing. Replaying them with any other snapshots and
    lookups only extends that history.

The functions the code calls but that belong to its environment are parameters of the
model (`Env`):

- the snapshot fetch `get_as_obj`, returning `None` when it raises or yields no single
  message;
- the district lookup `get_district`, returning `None` when it raises;
- the calendar that turns a day number into year, month and day.

The clock `now` is a parameter of each operation.

Points where the code's behaviour differs from what its field names suggest. The model
follows the code in each:

- `last_announcement` is the announcement time just merged, not the latest by date.
  A late, older announcement overwrites it (`MergeNewAnnouncement`).
- `last_update` is set to `now_iso` whenever a new announcement is added, with no
  comparison. It records when the harvester last wrote the record, not when the
  incident was last announced.
- A failing district lookup does not store the incident with an empty district. It
  raises, and the whole message is dropped for that minute (`MergeFailures`). The lookup
  is made even for an incident already stored, whose district is then not changed.
- The text `''` chosen as location still goes to the lookup. Only `None` skips it.

## Model

| member | source | states |
|---|---|---|
| Values.NowIso | main.py:20 | `now_iso` is the whole second at or just before `now`: `t <= now < t + 1 s` and `t` is a whole number of seconds |
| IncidentHistory.History.constructor | main.py:27-31 | the history starts as the stored one when there is one, otherwise empty |
| IncidentHistory.ChooseLocation | main.py:44 | the chosen location is a truthy value or, failing that, the direction field; a failure is a missing-key error naming a location field the message lacks |
| IncidentHistory.ResolveDistrict | main.py:45-48 | the lookup raises exactly when the location is text and the lookup of that text fails, and then with a lookup error; otherwise the district is the lookup's answer, or `None` without a location |
| IncidentHistory.Store | main.py:58-75 | the write half of a merge: the ids become the old ids plus the incident's, the announcement time is among that incident's announcements, and every other record is unchanged |
| IncidentHistory.Merge | main.py:40-75 | a successful merge needs the incident number; it leaves the old ids plus that incident, with the announcement time (or `''`) among its announcements, and every other record unchanged |
| IncidentHistory.History.PushMsg | main.py:40-75 | when `Merge` succeeds the call reports success and the history becomes the merged one; when it fails the call reports that error and the history is unchanged |
| IncidentHistory.ExtractFields | main.py:50-56 | what remains is the message minus the six extracted fields; the update has exactly the five update fields, each the message's value or `''` when missing; the announcement time is the message's or `''` |
| IncidentHistory.History.RemoveExpire | main.py:77-84 | the history becomes exactly `Expire` of the old one: the records whose last update is not older than `now - delta` |
| HistoryLemmas.LocationIsFirstTruthy | main.py:44 | whenever the choice succeeds, it yields the value of the first location field, in order of preference, that is present and truthy with every earlier field present and falsy, or the direction field when both earlier ones are present and falsy; with all three fields present it succeeds |
| HistoryLemmas.LocationMissingKey | main.py:44 | the choice raises if and only if it reaches a missing field with every earlier field present and falsy; the error names one of the three location fields |
| HistoryLemmas.MergeFailures | main.py:42-48 | a merge raises if and only if the incident number is missing, the location choice raises, or the chosen location is text and its lookup raises |
| HistoryLemmas.MergeFailureIgnoresHistory | main.py:42-48 | whether a merge raises does not depend on the history or the clock, so nothing is written before the raise |
| HistoryLemmas.MergeNewIncident | main.py:42-75 | an unknown incident gains exactly one record: the message minus the incident number and extracted fields as description, one announcement with its repaired update, the looked-up district (`None` without a location), `last_update = now_iso`, `last_announcement` the merged time; every other record is unchanged |
| HistoryLemmas.MergeNewAnnouncement | main.py:58-65 | a new announcement time for a known incident adds exactly that key to its messages and keeps the earlier ones, the description and the district; it sets `last_update = now_iso` and `last_announcement` to that time; the id set and every other record are unchanged |
| HistoryLemmas.MergeRedelivery | main.py:58-60 | re-delivering an announcement already stored leaves the whole history unchanged, stamps included |
| HistoryLemmas.MergeGrows | main.py:58-75 | a merge only extends the history (no incident or announcement lost or rewritten; description and district fixed; a record without a new announcement unchanged), and every record it changes carries `now_iso` |
| HistoryLemmas.StoreGrows | main.py:58-75 | the write step of a merge only extends the history and stamps what it changes with `now_iso` |
| HistoryLemmas.MergeKeepsWellFormed | main.py:50-75 | if every record's last announcement is one of its announcements and every update has exactly the five update fields, that stays so after a merge |
| HistoryLemmas.StoreKeepsWellFormed | main.py:58-75 | the write step of a merge keeps records well formed |
| HistoryLemmas.MergeAbsorbed | main.py:58-60 | once a message is merged, merging it again into any extension of the result, at any clock, changes nothing |
| HistoryLemmas.MergeIdempotent | main.py:40-75 | merging the same message twice gives the same history as merging it once |
| IncidentHistory.Expire | main.py:77-84 | the records kept are exactly those with `now - delta <= last_update`, and they are unchanged |
| HistoryLemmas.ExpireBoundary | main.py:82 | a record stamped exactly `now - delta` is kept; one a microsecond or a second older is removed; one a second newer is kept |
| HistoryLemmas.ExpireIdempotent | main.py:77-84 | expiring twice with the same clock is expiring once |
| HistoryLemmas.ExpireKeepsWellFormed | main.py:77-84 | expiry keeps records well formed |
| HistoryLemmas.FreshRecordSurvives | main.py:80-82 | a record stamped with this run's `now_iso` survives this run's expiry for any retention of a second or more, although `now` carries microseconds |
| TickFormat.CivilOf | main.py:126 | year, month and day are the calendar date of the instant's day; hour (below 24) and minute (below 60) are those of the instant: the day's start plus that hour and minute is at most the instant, and less than a minute before it |
| TickFormat.TimeOfDay | main.py:126 | an instant lies in the minute given by its day's start plus `(t / 1 h) % 24` hours and `(t / 1 min) % 60` minutes |
| TickFormat.DecimalRoundTrip | main.py:126 | `str(n)` is all digits and reads back as `n` |
| TickFormat.DecimalLength | main.py:126 | `str(n)` has 1, 2, 3 or 4 characters for `n` below 10, 100, 1000 or 10000 |
| TickFormat.Pad2RoundTrip | main.py:126 | a `:02d` field below 100 is two digits that read back as the field |
| TickFormat.FormatRoundTrip | main.py:126 | for a four-digit year the bucket string is 13 characters with `-` at position 8, and parsing it gives back year, month, day, hour and minute, so distinct minutes give distinct buckets |
| TickFormat.TickStringShape | main.py:126 | every tick in a year from 1000 to 9999 requests a 13-character bucket naming its own date, hour and minute |
| TickFormat.ShortYearTick | main.py:126 | in a year before 1000 the bucket is shorter than 13 characters, because the year is not zero-padded |
| Poller.ProgramData.constructor | main.py:22-24 | the checkpoint holds the given cursor |
| Poller.InitialCursor | main.py:118-122 | the cursor starts at the stored checkpoint, or exactly one hour before `now` when there is none |
| Poller.TickCount | main.py:125 | the number of minutes `t0, t0 + 1 min, …` the loop visits: zero exactly when `t0` is past the limit, otherwise the last one visited is at most the limit and the next one past it |
| Poller.TickCountStep | main.py:125-134 | visiting one tick at or before the limit leaves exactly one tick fewer to visit |
| Poller.AdvanceTick | main.py:125-134 | the ticks still due from `t` are the tick at `t` followed by those due from `t + 1 min` |
| Poller.CursorBounds | main.py:124-135 | after `N` ticks the cursor `t0 + N min` is past `now - 1 min`, is not below `t0`, and the last tick visited was at or before `now - 1 min` |
| Poller.FreshStartTicks | main.py:121-125 | a first run starts an hour back, polls exactly sixty minutes and leaves the cursor at `now` |
| Poller.TickStep | main.py:128-133 | one tick, whether its fetch or merge succeeds or raises, only extends the history, stamps what it writes with `now_iso` and keeps records well formed |
| Poller.TickStepAbsorbed | main.py:128-133 | a tick replayed at any clock on any extension of its own result changes nothing |
| Poller.ApplyTicksExtends | main.py:125-134 | over any number of ticks that each extend the history, the whole loop extends it |
| Poller.ApplyTicksStamped | main.py:125-134 | over ticks that each stamp what they write, every record the loop changes carries `now_iso` |
| Poller.ApplyTicksWellFormed | main.py:125-134 | ticks that keep records well formed keep them so over the whole loop |
| Poller.ReplayIsNoOp | main.py:125-134 | replaying the ticks on anything that extends the first pass's result changes nothing |
| Poller.ReplayIsIdempotent | main.py:125-134 | replaying a pass's minutes on the history it produced, with the same snapshots and lookups, at any clock, changes nothing |
| Poller.ReplayExtends | main.py:125-134 | polling minutes again on a history, whatever the snapshots and lookups then return, only extends it: no incident or announcement is lost or rewritten |
| Poller.RunGrows | main.py:124-140 | a run's loop loses no incident or announcement and changes no district or description; it keeps records well formed; every record it creates or changes carries this run's `now_iso` and survives this run's expiry |
| Poller.PollTick | main.py:126-133 | one loop iteration leaves the history as the tick step at this minute makes it (the step is passed as `tick`, required to be `TickStep` at this clock and environment): the merged history when fetch and merge succeed, otherwise unchanged |
| Poller.PollFrom | main.py:124-134 | the loop visits the `N` minutes `t0, t0 + 1 min, …` that are at most `now - 1 min`, in order; it returns the cursor `t0 + N min`; the history becomes the tick step folded over those minutes |
| Poller.Start | main.py:116-140 | from start-up: the history is the stored one (or empty), the cursor the stored checkpoint (or an hour back); the minutes visited, the final checkpoint and the history are those `Run` gives from there; a first run polls exactly sixty minutes and leaves the checkpoint at `now` |
| Poller.Run | main.py:124-140 | the stored cursor moves to `t0 + N min`, past `now - 1 min`; the minutes visited are exactly `t0 + i min` for `i < N`, each at most `now - 1 min`; the history becomes the fold of the tick step over them, then expired with the three-day retention |

## Left out

- The HTTP requests and the XML repair and parsing in `get_as_obj` and `get_district` are not modelled. They become the `fetch` and `resolve` parameters of `Env`.
- A snapshot that is not a single message is folded into a failed fetch. This covers a non-ok response, for which `get_as_obj` returns `None`, and a list of messages; in the code both make `push_msg` raise and the minute is skipped.
- Loading and saving the JSON history and the pickled checkpoint, `History.save` and `__str__` are not modelled. The constructors take the loaded value.
- The JSON round trip of the history is not modelled. `last_update` is written with `isoformat` and read back with `strptime`; the model keeps instants as numbers, and a stored string that `strptime` rejects is not represented. Ids and announcement times are already strings, except `None`, which `json.dump` writes as the key `"null"`. In the next run a message whose incident number or announcement time is `None` no longer matches that key, so the merge adds a `None` key beside `"null"`; the save then writes `"null"` twice and the load keeps only the last one. For such keys re-delivery across runs is neither idempotent nor append-only: `MergeIdempotent` and `ReplayIsIdempotent` hold within one run, on the history held in memory.
- The `print` calls are not modelled.
- The fetch and the district lookup are deterministic within a run: `Env.fetch` and `Env.resolve` are fixed functions, so the same bucket or location text always gets the same answer in one run. In the code a repeated request may fail once and succeed the next time. `Run` and `Start` rely on this for their exact fold; the growth, cursor and replay lemmas hold for any step.
- A field value is `None` or text. `xmltodict` also yields a dict for an element with attributes or children and a list for a repeated element, and these are not represented. As incident number or announcement time such a value cannot be a dict key, so the merge raises where it is used as one (main.py:58, 60 or 70), before any write, and the minute is dropped. A non-empty one in a location field is truthy, so it is chosen and sent to the lookup.
- The window between storing the checkpoint and saving the history is not modelled. The checkpoint is written before the history is saved, so a run that dies after storing the checkpoint and before saving the history loses that run's merges, and those minutes are never polled again.
- The clock and time zone are not modelled: `now` is a parameter.
- The calendar is a parameter. Turning a day number into year, month and day is the datetime library's arithmetic. Hour and minute are computed exactly.
- The datetime range is not modelled. Arithmetic past year 9999 raises `OverflowError` in the code; the model's instants are unbounded.
- `push_msg` removes the incident number and the six extracted fields from the caller's `message` dict. For a new incident it stores that same dict as `description` (main.py:68). The model takes the message as a value because neither the loop nor the history changes that dict again.
- IncidentHistory.History.RemoveExpire: deletes in an unspecified order, where the code follows the order of `list(history)`. The resulting map does not depend on the order.
- Poller.Run: the minutes visited are a ghost output. The fetches themselves are not observable in the model, so they appear only through the fold `ApplyTicks`.
