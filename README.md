# Shuttle-bus departure board: timetable, selection and announcement logic

This project models the core of a kiosk departure board for the free shuttle bus
that leaves 仁愛大学. The board reads a CSV timetable, shows the next two
departures, and runs a background thread that announces the next departure by
synthesized voice every cycle. When the last bus has left, it says once that
service has ended.

The model covers the five pieces of logic in `GUI_test.py`. Each module is one
Dafny file:

- `Rows` (`rows.dfy`): a CSV row as `csv.DictReader` yields it, a map from column
  name to cell text, and the `Option` type that stands for Python's `None`.
- `Text` (`text.dfy`): the Python built-ins the logic depends on. These are
  `sep.join`, `str.split`, `filter` with a `lambda` and `dict.fromkeys`.
  The join/split round trips and the first-occurrence order of `dict.fromkeys`
  are proved.
- `Timetable` (`timetable.dfy`): `load_timetable`. `strptime(s, '%H:%M')` is
  modelled the way CPython's regular expression applies it. The hour is one
  digit, or two digits of at most 23. The minute is one digit, or two digits of
  at most 59. The whole cell must be used up. A row is kept exactly when its
  `ETD` cell exists and parses. The sort is a stable sort by time, proved
  sorted, a permutation, stable and unique.
- `Selector` (`selector.dfy`): `update_display_rows`. The clock reading `now`
  is a parameter, a `datetime.time` down to the microsecond. `Select` is one
  tick as a pure step. The class `Board` holds the two module globals
  `display_rows` and `announcement_info`. Its invariant: there is an
  announcement target exactly when rows are shown, and the target's `ETD` text
  is that of the first shown row.
- `StopInfo` (`stopinfo.dfy`): `create_stop_info`. It classifies the six stop
  positions, handles the extra 仁愛大学 skip, filters and de-duplicates the
  skips, and builds one of the three sentences.
- `Announcer` (`announcer.dfy`): the text built inside `announcement_loop` and
  its end-of-service flag. An announcement is kept as its parts (time text,
  destination, platform and target row); `Render` fills them into the spoken
  sentence. What a cycle sees of the locked snapshot is an `Observation`. One
  cycle is a step from the flag and that observation to an action and a new
  flag, and `Trace` chains the cycles. `AnnouncementLoop` runs one cycle per
  snapshot in a sequence and is proved to produce that trace.

Three behaviours of the code to note:

- The time is read out with the cell's own digits, so `08:30` becomes
  `08時30分`, not `8時30分`.
- The announcement target changes when the `ETD` text of the first row changes.
  The departure time is not compared. `8:30` and `08:30` count as different.
- A short CSV line that has no `ETD` cell ends the whole load, not just that
  row (see Left out).

## Model

| member | source | states |
|---|---|---|
| `Text.Split` | GUI_test.py:231 | `str.split(':')` returns at least one piece, and no piece contains the separator |
| `Text.JoinSplit` | GUI_test.py:231 | joining the pieces of a split with the separator gives back the original string |
| `Text.SplitJoin` | GUI_test.py:231 | splitting a join of separator-free pieces gives back the pieces |
| `Text.SplitAfterPiece` | GUI_test.py:231 | a separator-free head followed by the separator splits off as the first piece |
| `Text.SplitWithoutSeparator` | GUI_test.py:231 | a string without the separator splits into itself alone |
| `Text.Join` | GUI_test.py:104-106 | a join of one piece is that piece, and a join of several starts with the first piece |
| `Text.Without` | GUI_test.py:100 | the filter keeps exactly the skipped names that are not stops, and never grows the list |
| `Text.WithoutAppend` | GUI_test.py:100 | the filter goes element by element, so the survivors keep their order and their repeats |
| `Text.Dedup` | GUI_test.py:101 | `dict.fromkeys` leaves no duplicates and keeps exactly the same names |
| `Text.DedupKeepsFirstOccurrenceOrder` | GUI_test.py:101 | the surviving names appear in the order of their first occurrences |
| `Timetable.ParseField` | GUI_test.py:29 | a `%H`/`%M` field is accepted only with a value within its bound |
| `Timetable.ParseFieldIff` | GUI_test.py:29 | a `%H`/`%M` field parses to `v` if and only if `v` is within the bound and the text is `v` as one digit or as two digits |
| `Timetable.ParseEtd` | GUI_test.py:29 | a parsed time is a valid time of day with zero seconds, and the text has exactly one colon |
| `Timetable.ParseEtdIff` | GUI_test.py:29 | an hour text, a colon and a minute text parse to a time if and only if the time has hour at most 23, minute at most 59, zero seconds, and each text writes its field |
| `Timetable.ParsedEtdShape` | GUI_test.py:29 | every `ETD` text that parses is a field text for the hour, a colon and a field text for the minute |
| `Timetable.ParseFormatted` | GUI_test.py:29 | every minute of the day written as zero-padded `HH:MM` parses back to itself |
| `Timetable.ParseEtdOneDigitFields` | GUI_test.py:29 | one-digit hour and minute fields are accepted, as `strptime` accepts them |
| `Timetable.ParseEtdRejectsHour24` | GUI_test.py:29-31 | hour 24 is a `ValueError`, so the row is skipped |
| `Timetable.ParseEtdRejectsSeconds` | GUI_test.py:29-31 | text left after the minutes is a `ValueError`, so the row is skipped |
| `Timetable.EtdOf` | GUI_test.py:29-34 | a row has a departure time only when it has an `ETD` cell that parses, and then it is that parsed time, a valid time with zero seconds |
| `Timetable.Loaded` | GUI_test.py:26-34 | the reading loop keeps at most one departure per row, each paired with its row's parsed `ETD` |
| `Timetable.LoadedAppend` | GUI_test.py:26-30 | rows are read in file order: loading two parts of the file gives the departures of the first part followed by those of the second |
| `Timetable.LoadedKeepsExactly` | GUI_test.py:26-34 | the reading loop keeps a row if and only if it has an `ETD` cell that parses, paired with that time; other rows are skipped and the load goes on |
| `Timetable.Insert` | GUI_test.py:43 | inserting adds exactly one element and keeps every other one |
| `Timetable.InsertSorted` | GUI_test.py:43 | inserting into a sorted timetable keeps it sorted |
| `Timetable.SortByTime` | GUI_test.py:43 | the sorted timetable is ascending by departure time and is a permutation of its input |
| `Timetable.SortIsStable` | GUI_test.py:43 | departures that share a time keep their input order |
| `Timetable.SortedAndStableDetermineOrder` | GUI_test.py:43 | a sorted sequence with the same departures at every time as another sorted one is equal to it, so the stable sort's result is unique |
| `Timetable.LoadTimetable` | GUI_test.py:20-44 | the loaded timetable is sorted, holds exactly the rows whose `ETD` parses, each with its parsed time, and equals the stable sort of the kept rows |
| `Selector.Upcoming` | GUI_test.py:52 | the future rows are exactly the timetable rows whose time is at or after `now` |
| `Selector.UpcomingOfSortedIsSuffix` | GUI_test.py:52 | on a sorted timetable the future rows are a suffix, and every row before it has already left |
| `Selector.AllUpcoming` | GUI_test.py:52 | when the first row of a sorted timetable has not left, every row is a future row |
| `Selector.NextTwo` | GUI_test.py:55 | `future_timetable[:2]` is the first `min(2, n)` future rows |
| `Selector.Select` | GUI_test.py:52-72 | shows the first `min(2, n)` future rows, in order, each at or after `now`; afterwards the target is empty exactly when no row is shown, and otherwise has the first row's `ETD` text |
| `Selector.SelectKeepsTarget` | GUI_test.py:60-63 | when the target's `ETD` text equals the first row's, the target stays as it was |
| `Selector.SelectRetargets` | GUI_test.py:60-64 | with no target, or a different `ETD` text, the target becomes the first future row |
| `Selector.SelectAfterLastDeparture` | GUI_test.py:65-72 | no row is shown and there is no target if and only if every departure is before `now` |
| `Selector.SelectIdempotent` | GUI_test.py:58-72 | a second tick at the same time changes nothing |
| `Selector.SelectScenario` | GUI_test.py:52-63 | at 08:15, with departures at 08:00, 08:30 and 09:00, the board shows 08:30 and 09:00 and targets 08:30 |
| `Selector.Board.constructor` | GUI_test.py:16-17 | the globals start with no rows and no target, which satisfies the board invariant |
| `Selector.Board.UpdateDisplayRows` | GUI_test.py:46-72 | the new globals are one `Select` step from the old target, and the board invariant is kept |
| `Selector.Board.Snapshot` | GUI_test.py:219-223 | the announcer's locked copy exists exactly when rows are shown, and is then the target's row, which has an `ETD` cell |
| `StopInfo.StopsAt` | GUI_test.py:83-94 | a name is a stop if and only if some position with that name is flagged `'1'` |
| `StopInfo.PassedAt` | GUI_test.py:83-94 | a name is passed if and only if some position with that name is not flagged `'1'` |
| `StopInfo.EveryPositionClassifiedOnce` | GUI_test.py:83-94 | each position goes into exactly one of the two lists |
| `StopInfo.StopsAtAppend` | GUI_test.py:83-94 | positions are classified one by one in route order, so the stop list keeps route order and duplicates |
| `StopInfo.PassedAtAppend` | GUI_test.py:83-94 | the passed list likewise keeps route order and duplicates |
| `StopInfo.Skips` | GUI_test.py:99-101 | the skips after filtering and `dict.fromkeys` have no duplicates and contain no stop |
| `StopInfo.DestinationText` | GUI_test.py:97 | the destination is `終点：仁愛大学` if and only if `destination == '0'`, and `終点：武生駅` otherwise |
| `StopInfo.CreateStopInfo` | GUI_test.py:75-110 | the result is `本日のバスは終了しました。` if and only if the row is absent or empty |
| `StopInfo.SkipsMembership` | GUI_test.py:95-101 | final skips have no duplicates and no stops; a name is skipped if and only if it is not a stop and it is passed somewhere, or it is 仁愛大学 with `jindai == '0'` |
| `StopInfo.EveryPositionNamed` | GUI_test.py:83-101 | every position's name appears among the stops or the skips |
| `StopInfo.StopInfoShape` | GUI_test.py:103-108 | with no stops the text is the destination sentence alone; otherwise it opens with `停車駅は、`; the caution ends it if and only if there are stops and skips |
| `StopInfo.AllServed` | GUI_test.py:83-94 | when every position is served, the stops are all position names in route order and nothing is passed |
| `StopInfo.StopsWhenAllServed` | GUI_test.py:83-101 | when all six positions are served and `jindai` is not `'0'`, the stops are the six names with duplicates and the skips are empty |
| `StopInfo.JoinPositionNames` | GUI_test.py:83-103 | the six stop names joined with `、` read `越前たけふ駅、帆山町、国高、武生駅、国高、帆山町` |
| `StopInfo.AllServedNoCaution` | GUI_test.py:83-108 | such a row reads `停車駅は、`, the six names joined with `、`, `、`, the destination and `です。`, with no caution |
| `Announcer.SplitsInTwoIffSeparator` | GUI_test.py:231-232 | `split(':')` gives a second piece if and only if the text contains a colon |
| `Announcer.TimeText` | GUI_test.py:231-232 | the time text is missing (`IndexError`) if and only if the `ETD` text has no colon |
| `Announcer.TimeTextOfFields` | GUI_test.py:231-232 | an hour and a minute text around one colon are read out verbatim, with `時` and `分` appended |
| `Announcer.TimeTextOfLoaded` | GUI_test.py:231-232 | for a loaded departure the time text is the parsed hour digits, `時`, the minute digits, `分`, taken verbatim |
| `Announcer.TimeTextExamples` | GUI_test.py:231-232 | `08:30` is read as `08時30分` and `8:30` as `8時30分` |
| `Announcer.DestinationName` | GUI_test.py:233 | the destination is missing (`KeyError`) if and only if the column is absent, and is 仁愛大学 if and only if the cell is `'0'`, 武生駅 otherwise |
| `Announcer.PlatformText` | GUI_test.py:234 | the platform is the `platform` cell, or `未定` when that column is absent |
| `Announcer.Middle` | GUI_test.py:235 | the middle of the sentence is `発、無料シャトルバス、`, the destination, `行きは、`, the platform and `番乗り場から、発車します。乗車位置で、1列に並んで、お待ちください。`, each at its place |
| `Announcer.Render` | GUI_test.py:235 | the spoken text opens with `次に、仁愛大学から発車します、` and the time text, then the middle, and ends with the stop information of the target |
| `Announcer.ComposeAnnouncement` | GUI_test.py:227-235 | an announcement is built if and only if the row has an `ETD` cell with a colon and a `destination` cell, and then its parts are the time text, the destination name, the platform text and the target row; otherwise the thread raises |
| `Announcer.ComposeLoaded` | GUI_test.py:227-235 | a loaded departure can be announced if and only if its row has a `destination` column |
| `Announcer.Spoken` | GUI_test.py:237-247 | an announcement speaks its rendered text, the end of service speaks `本日のシャトルバスの運行は終了しました。`, and nothing else is spoken |
| `Announcer.Observe` | GUI_test.py:219-225 | a cycle sees no target exactly when the locked copy is `None` or empty, and otherwise sees the announcement composed from it |
| `Announcer.ObserveAll` | GUI_test.py:218-225 | one observation per snapshot, each that snapshot's observation |
| `Announcer.Cycle` | GUI_test.py:225-250 | one cycle plays the end message if and only if it sees no target and the flag is clear; it crashes if and only if the target cannot be composed; it announces if and only if the target composes, and then that announcement; without a crash the flag ends set exactly when there was no target |
| `Announcer.Trace` | GUI_test.py:218-250 | a run has at most one action per cycle |
| `Announcer.TraceShape` | GUI_test.py:218-250 | a run stops early only by a crash, and a crash can only be its last action |
| `Announcer.AnnounceIff` | GUI_test.py:225-238 | a cycle announces if and only if it sees a target whose announcement could be composed, and then announces exactly that; a target that cannot be composed crashes the thread |
| `Announcer.EndOfServiceIff` | GUI_test.py:238-248 | the end message plays in a cycle if and only if it sees no target and the previous cycle saw one; in the first cycle, if the flag is clear |
| `Announcer.EndOfServiceOncePerStretch` | GUI_test.py:238-248 | between two end messages some cycle announced a departure |
| `Announcer.EndOfServiceAfterTarget` | GUI_test.py:216-248 | from the initial clear flag, the end message plays exactly in a cycle whose snapshot is empty while the previous cycle's was not, or in the first cycle when its snapshot is empty |
| `Announcer.RunCycle` | GUI_test.py:219-250 | one pass of the loop body takes the action of one `Cycle` on what it sees, and sets the flag as `Cycle` does |
| `Announcer.AnnouncementLoop` | GUI_test.py:213-250 | the loop, starting with the flag clear, produces exactly the run of `Trace` over its snapshots |

## Left out

- The pygame window, fonts, drawing and scrolling in `main` are presentation only.
- The voice service requests, chime and playback (`voicevox_api_request`,
  `play_voice`, `play_announcement`) are not modelled. They become the abstract
  actions `Announce(announcement)` (speaking `Render(announcement)`) and
  `EndOfService`. Their failures are logged and do
  not change the loop's state.
- `threading.Lock`, the daemon thread, `time.sleep(60)` and the 10-second
  polling are not modelled. The lock only guards copy and replace, so each
  `Board` method is one atomic step.
- The announcement loop never ends. `AnnouncementLoop` runs one cycle per given
  snapshot, so a finite run stands for a prefix of the real one.
- Opening the file, CSV parsing and the fatal `sys.exit` on a read error are not
  modelled. The rows are given as an in-memory sequence.
- `csv.DictReader` gives `None` for cells missing from a short line. Rows are
  modelled as maps of strings, so such cells are not modelled. When the `ETD`
  cell is missing, `strptime` raises `TypeError` and the outer handler ends the
  program. When another cell is missing, the row is loaded with a `None` cell.
  A `None` `destination` is then announced as 武生駅 rather than raising, and a
  `None` `platform` is read out as `None`. The model's missing column stands
  only for a column the header lacks, which raises `KeyError`.
- `strptime` takes any Unicode decimal digit for `\d`. The model accepts ASCII
  digits only.
- `datetime.now()` is not called. `now` is a parameter.
- The `dt_time.max` sort default and the `dt_time.min` filter default are not
  modelled. Every kept row has an `ETD_time`, so these defaults are never used.
- Log messages (`print`) are not modelled.
- `voicebox_test.py` is a straight-line test script of HTTP requests and
  playback, with no logic to model.
