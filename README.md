# Fleet Chat Relay / X-UP counter — a verified model

This project models the core of fleet-chat-relay. It is a Windows tool for
EVE Online that:

- finds the running game clients from their window titles;
- lets the user pick a character;
- finds that character's newest fleet chat log;
- tails the log and keeps a count of "x-ups". A line such as `Bob > x` or
  `Bob > x5` adds 1 or 5 to the count, and any line with a dash resets it.

The model is written in Dafny. It covers:

- **`Text`**: the Python string built-ins the code relies on (`isspace`,
  `strip`, `startswith`, `replace`, `int` on digit strings) and `re.search`
  as a leftmost search.
- **`LineClassifier`**: the `x_pattern` and `multi_x_pattern` regular
  expressions of `monitor_log_updates`, and the effect of one line on the
  counter (`Step`) and of many lines (`Fold`). Each pattern appears twice.
  One form is a ghost predicate that reads the pattern literally. The other
  is an executable scan with greedy matching resolved. Lemmas prove that the
  two agree in both directions, and that a match's captured group is the same
  whichever way the regex engine backtracks.
- **`LogResolver`**: `get_latest_log`. The directory listing is a snapshot
  of (name, modification time, decoded text or read error). The
  newest-first sort is a stable insertion sort. The main lemma is
  `FirstMatchIsNewest`: the log chosen is the newest eligible one, and ties
  go to the one listed first.
- **`Session`**: the `Monitor` class holds `stop_event`, `monitor_thread`,
  `count_holder[0]`, `count_var`, `log_file_var` and the error boxes shown.
  Its methods model the tail loop (`monitor_log_updates`),
  `start_monitoring` and `load_character_monitor`. The background thread
  runs over an explicit schedule of loop passes, writes by the game, stop
  requests and read failures. Joining a live task can still count one line
  that task had already read.
- **`Helpers`**: `extract_eve_timestamp`, with the calendar rules that
  `strptime` and `datetime` enforce and the conversion to epoch seconds.
  Also `send_to_discord`: its payload and how it treats the response
  status.
- **`Eve`**: `get_eve_windows`, as a loop over the windows the enumeration
  visits, and the client dropdown (`Dropdown`) that `refresh_eve_clients`
  updates.

Some of what the code does is easy to misread. The model follows the code:

- The docstring of `monitor_log_updates` says an x-up is capped at 25 per
  match. The code has no cap: `IncrementUncapped` proves that ` > x100` adds
  100.
- The pattern needs a literal space before `>` and accepts only spaces after
  it, so `Bob> x` and ` >\tx` do not count: see `SpaceBeforeArrowRequired`.
- The `\d\s?x` branch of `x_pattern` takes a single digit, so ` > 15x`
  leaves the count unchanged (`TwoDigitsBeforeXIgnored`). `multi_x_pattern`
  alone would have read 15.
- `send_to_discord` treats only 200 and 204 as success; any other status,
  other 2xx codes included, is logged as a failure. It does not catch
  exceptions from `requests.post`, so they reach its caller (`SendOutcome`).
- A read failure is not retried: any exception ends the tail thread (`Fail`
  in the schedule).

## Model

| member | source | states |
|---|---|---|
| Text.Strip | monitor.py:33 | `strip()` returns the middle of the text between two whitespace runs; it neither begins nor ends with whitespace |
| Text.StripUnique | monitor.py:120 | any split into leading whitespace, a middle with non-space ends, and trailing whitespace gives exactly what `strip()` returns |
| Text.StripIdempotent | monitor.py:33 | stripping the name that `load_character_monitor` already stripped changes nothing |
| Text.ReplaceAllAbsent | eve.py:31 | `replace` returns its input unchanged when the pattern does not occur |
| Text.ReplaceSkipsHead | eve.py:31 | text in which no occurrence of the pattern starts is kept as it is, and the rest is handled on its own |
| Text.ReplaceRemovesOccurrence | eve.py:31 | an occurrence after other text is removed, not only one at the start: `a + pat + b` becomes `a` followed by the removal from `b` |
| Text.ReplaceAll | eve.py:31 | removing every occurrence of a pattern (replacing it by nothing) never lengthens a text |
| Text.ParseInt | monitor.py:80-82 | `int()` on a captured group succeeds exactly when the group is a non-empty run of digits; otherwise the error path applies |
| Text.FirstFrom | monitor.py:77 | `re.search` returns the first start position where the pattern matches, and no earlier position matches |
| LineClassifier.XAtMeans | monitor.py:54 | the scan at position i succeeds exactly when `x_pattern`, read literally, matches from i |
| LineClassifier.XFoundMeans | monitor.py:54 | `x_pattern.search(line)` succeeds exactly when the pattern matches somewhere |
| LineClassifier.MultiAtMeans | monitor.py:55 | the scan at position i returns exactly the groups of every `multi_x_pattern` match from i, so backtracking order cannot change them |
| LineClassifier.MultiSearchMeans | monitor.py:77 | `multi_x_pattern.search` finds nothing exactly when the pattern matches nowhere; otherwise it gives the groups of the leftmost match |
| LineClassifier.MultiAtCaptures | monitor.py:80 | a match fills exactly one of the two groups, and that group is a digit string `int()` accepts |
| LineClassifier.MultiplierMeaning | monitor.py:77-84 | the increment is the number captured by the leftmost `multi_x_pattern` match, or 1 when there is none |
| LineClassifier.StepMeaning | monitor.py:70-87 | a dash resets the count to 0; without an `x_pattern` match the count is unchanged; otherwise it grows by the captured number, or by 1 |
| LineClassifier.Multiplier | monitor.py:77-84 | with no `multi_x_pattern` match the increment is 1; with a match, it is the number in the one group the match filled |
| LineClassifier.Step | monitor.py:70-87 | a line with a dash gives 0; a line without a dash never lowers the count, and without an `x_pattern` match leaves it unchanged |
| LineClassifier.Fold | monitor.py:62-87 | the count stays non-negative however many lines are read |
| LineClassifier.FoldWithoutDashNeverLowers | monitor.py:62-87 | over lines without a dash, the count never falls below its starting value |
| LineClassifier.FoldAppend | monitor.py:62-87 | lines are handled strictly in read order: after a+b the count is the count after b, starting from the count after a |
| LineClassifier.FoldForgetsBeforeDash | monitor.py:70-74 | after a line with a dash, the final count does not depend on the starting count or on earlier lines |
| LineClassifierExamples.XThenDigits | monitor.py:76-85 | ` > x<digits>` adds the value of the digits |
| LineClassifierExamples.DigitThenX | monitor.py:76-85 | ` > <digit>x` adds that digit |
| LineClassifierExamples.XRunCountsOnce | monitor.py:76-85 | a run of x's with no number counts as one |
| LineClassifierExamples.DigitsAfterXCount | monitor.py:76-85 | ` > x5` adds 5: digits after the x's are the multiplier |
| LineClassifierExamples.DigitBeforeXCounts | monitor.py:76-85 | ` > 5x` adds 5: without digits after, a digit before the x is the multiplier |
| LineClassifierExamples.PlainXCountsOnce | monitor.py:76-85 | ` > xxxxx` and ` > x` add 1 |
| LineClassifierExamples.IncrementUncapped | monitor.py:80-85 | ` > x100` adds 100: nothing caps the increment |
| LineClassifierExamples.TwoDigitsBeforeXIgnored | monitor.py:54 | ` > 15x` does not match `x_pattern`, so the count is unchanged |
| LineClassifierExamples.SpaceBeforeArrowRequired | monitor.py:54 | `Bob> x` (no space before `>`) and ` >\tx` (tab after `>`) do not count |
| LineClassifierExamples.DashInNameResets | monitor.py:70-74 | a dash anywhere in the line resets the count, even one in the speaker's name |
| LogResolver.FleetLogs | monitor.py:20-21 | the candidates are exactly the listed entries whose names start with `Fleet_` |
| LogResolver.Insert | monitor.py:30 | inserting adds one element, the new entry, and keeps every entry already there |
| LogResolver.NewestFirst | monitor.py:30 | the sort keeps the length and exactly the entries of its input |
| LogResolver.InsertKeepsCandidates | monitor.py:30 | inserting into the sorted list adds exactly that one entry |
| LogResolver.InsertKeepsOrder | monitor.py:30 | inserting into a newest-first list keeps it newest-first |
| LogResolver.NewestFirstSorts | monitor.py:30 | the sort is a newest-first permutation of its input |
| LogResolver.ListenerFoundMeans | monitor.py:33-37 | for a stripped name, the scan succeeds exactly when `Listener:`, at least one whitespace character and the name occur together in the text |
| LogResolver.NewestEligibleUnique | monitor.py:30-41 | at most one entry is the newest eligible one, so the choice is determined |
| LogResolver.FirstMatch | monitor.py:34-41 | the loop returns a readable log that mentions the character, and returns nothing exactly when no log qualifies |
| LogResolver.FirstMatchOfInsert | monitor.py:30-41 | inserting a log into the sorted list changes the first match only if that log matches and no strictly newer matching log comes before it |
| LogResolver.NoMatchMeansNoneEligible | monitor.py:30-44 | no log is chosen exactly when no listed entry is a readable `Fleet_` log naming the character |
| LogResolver.FirstMatchIsNewest | monitor.py:30-41 | the chosen log is the newest eligible entry; among entries with the same time, the first listed wins |
| LogResolver.GetLatestLog | monitor.py:11-44 | an unlistable directory gives None; otherwise the result is None exactly when nothing is eligible, and else the newest eligible entry |
| LogResolver.EligibleMeans | monitor.py:20-37 | an entry can be chosen exactly when it is a `Fleet_` log, can be read, and matches the listener pattern as written |
| LogResolverExamples.NameIsNotDelimited | monitor.py:33 | the name is matched as a prefix, so `Ali` also matches the text `Listener: Alice` |
| LogResolverExamples.SpaceAndCaseMatter | monitor.py:33 | `Listener:Alice` (no space) and `Listener: alice` (wrong case) do not name Alice |
| Session.LineEnd | monitor.py:63 | `readline` stops just after the next newline, or at the end of the text written so far, and returns nothing only at the end |
| Session.ReadLineIsLine | monitor.py:63-64 | a non-empty `readline` result contains a newline only as its last character |
| Session.EndsSnoc | monitor.py:62 | the loop ends at a pass that finds the stop event set, or when reading raises |
| Session.EndsIsFinal | monitor.py:62 | once the loop has ended, later events do not revive it |
| Session.StopEndsAtNextPoll | monitor.py:62 | without a stop request or a failure the loop keeps running; after a stop request it ends at the next pass |
| Session.Next | monitor.py:62-89 | one event never moves the read position back or past the text, never shortens the text, sets the stop flag only on a stop request, and moves the position only on a pass of a live loop whose stop event is clear |
| Session.RunAlive | monitor.py:62 | the loop is alive after a schedule exactly when it was alive before and the schedule did not end it |
| Session.StoppedReadsNothing | monitor.py:62-89 | once the loop has ended, no later event reads anything or moves the position |
| Session.EndedReadsNothing | monitor.py:62-89 | after the events that end the loop, whatever follows leaves the position and the lines read as they were |
| Session.PollReadsLine | monitor.py:62-64 | a pass of a live loop with the stop event clear and unread text reads exactly one line, up to its newline or the end of the text |
| Session.RunReadsText | monitor.py:62-87 | over any schedule, the lines read, joined, are the text between the start position and the current one, each a single `readline` result |
| Session.Joined | monitor.py:98-100 | after the join, the previous task is no longer alive |
| Session.SelectedName | monitor.py:120 | the cleaned dropdown text is no longer than the text and neither begins nor ends with whitespace |
| Session.JoinCount | monitor.py:98-100 | joining changes the count only when a live task had a line in flight: a line with a dash then gives 0, a line without one never lowers it |
| Session.SelectedNameOfEntry | monitor.py:120 | a dropdown entry without a dash is used as the name after stripping |
| Session.PlaceholderRecognised | monitor.py:120-122 | the placeholder text survives the clean-up, so loading it is ignored |
| SessionExamples.ResetCanBeOvertaken | monitor.py:123-125 | the reset happens before the old task is joined, so a line that task had already read still counts: an in-flight ` > x5` leaves the count at 5, not 0 |
| Session.Monitor.constructor | gui.py:73-76 | at start there is no task, the stop event is clear, the count is 0 and the log label is "None" |
| Session.Monitor.ReadLine | monitor.py:63-87 | one `readline` moves the position to the end of the line; a non-empty piece is appended to the lines read, continues the text read without a gap, and is folded into the count by `Step` |
| Session.Monitor.Advance | monitor.py:62-89 | one event around the loop: a write extends the log, a stop request sets the event, a failure ends the loop, and a pass of a live loop ends it when the event is set; otherwise the pass moves the position to the end of the next line and appends that line to the lines read, and no other event moves it. The new state is `Next` of the old, and the count stays the fold over the lines read |
| Session.Monitor.MonitorLogUpdates | monitor.py:46-89 | the final position, the lines read, the stop event and liveness are those of `Run` over the schedule from the start state; so the task reads, in order and without gaps, the text between its old and new positions, one `readline` result at a time; the count is the fold of `Step` over those lines; the task ends exactly when a pass finds the stop event set or reading raises |
| Session.Monitor.StopPrevious | monitor.py:98-100 | a live task is stopped and joined after it has handled the line it was reading; the count changes only by that line |
| Session.Monitor.StartMonitoring | monitor.py:91-113 | a live task is stopped and joined, and the stop event is cleared. If an eligible log exists, one new live task tails the newest one from its end and the label shows its name. Otherwise no task is live, the label is unchanged, and one error box is added |
| Session.Monitor.LoadCharacterMonitor | monitor.py:115-125 | the placeholder changes nothing. Otherwise the count is reset to 0 before `start_monitoring` runs, even if no log is found |
| Helpers.StampAt | helpers.py:24 | a match at a position starts with `[` there and captures a group of the `YYYY.MM.DD HH:MM:SS` shape |
| Helpers.StampAtMeans | helpers.py:24 | the scan at position i succeeds exactly when the timestamp pattern, read literally, matches from i, and it returns that match's group |
| Helpers.ParseStamp | helpers.py:27 | `strptime` succeeds exactly when the fields name an existing date and time (year 1-9999, real month day, hour up to 23, minute and second up to 59) |
| Helpers.ExtractEveTimestamp | helpers.py:18-31 | a result is the epoch seconds of the leftmost bracketed timestamp, and that timestamp names an existing time |
| Helpers.ExtractAtFirstStamp | helpers.py:24-31 | when a bracketed timestamp starts at i and none starts earlier, the result is that timestamp's epoch seconds if it names an existing time, and None otherwise |
| Helpers.NoStampNoTimestamp | helpers.py:24-31 | a line with no bracketed timestamp gives None |
| Helpers.Format | helpers.py:21 | the `YYYY.MM.DD HH:MM:SS` form of a valid time has the right shape and reads back as that time |
| Helpers.RoundTrip | helpers.py:18-31 | a line whose first `[` opens `[ <time> ]` yields that time's epoch seconds, whatever text surrounds it |
| Helpers.FormatOfFields | helpers.py:24-27 | every group that names an existing time is exactly how that time is written |
| Helpers.InvalidFirstStamp | helpers.py:24-31 | only the first timestamp is tried: if it names a time that does not exist, the result is None even when a valid one follows |
| Helpers.Timestamp | helpers.py:28 | a valid time's epoch seconds lie within its day: at or after that day's midnight in the given zone and before the next one |
| Helpers.DaysBeforeNextYear | helpers.py:28 | the day count before a year grows by 366 in leap years and by 365 otherwise |
| Helpers.OrdinalIncreasing | helpers.py:28 | of two valid dates, the earlier one has the smaller day number |
| Helpers.TimestampIncreasing | helpers.py:28 | a strictly earlier valid time gives strictly fewer epoch seconds, so distinct times give distinct results |
| HelpersExamples.EpochAnchors | helpers.py:28 | 1970-01-01 00:00:00 UTC is second 0 and 2024-01-01 00:00:00 UTC is second 1704067200; the zone offset shifts the result |
| HelpersExamples.CalendarLimits | helpers.py:27 | leap days exist in 2000 and 2024, not in 1900 or 2023; month 13, hour 24, second 60 and year 0 are rejected |
| Helpers.BuildPayload | helpers.py:8-12 | the payload carries the configured name and avatar, and the message as its content |
| Helpers.SendOutcome | helpers.py:13-15 | only statuses 200 and 204 pass silently; every other status is logged with its code; an exception from the POST reaches the caller |
| Helpers.SendToDiscord | helpers.py:7-15 | posts that payload and handles the response as above |
| Eve.ClientName | eve.py:21-34 | a window contributes a name exactly when it is visible, has a title, the title was copied and it starts with `EVE - ` |
| Eve.GetEveWindows | eve.py:7-44 | the clients are the names the windows contribute, in enumeration order; a window whose calls raise is skipped |
| Eve.ClientNamesAppend | eve.py:36-44 | enumerating two batches gives the clients of the first, then those of the second |
| Eve.ClientNamesMembers | eve.py:21-44 | a name is listed exactly when some enumerated window contributes it |
| Eve.ClientNames | eve.py:36-44 | there are never more clients than enumerated windows |
| Eve.ClientNameOfTitle | eve.py:30-31 | the title `EVE - <name>` gives `<name>` when the name does not itself contain the prefix |
| Eve.ClientNameRemovesEveryOccurrence | eve.py:31 | a title that starts with `EVE - ` loses that prefix, and the rest of the title has every occurrence removed as well |
| Eve.ClientNameDropsLaterPrefix | eve.py:30-31 | in `EVE - <name>EVE - <rest>` the second prefix is removed too: the client is `<name>` followed by the cleaned `<rest>` |
| EveExamples.SecondPrefixRemoved | eve.py:31 | the title `EVE - Bob EVE - x` gives the client `Bob x` |
| Eve.Reselect | eve.py:62-64 | after a refresh the selection is a listed client; it is unchanged exactly when it is still listed |
| Eve.Dropdown.constructor | gui.py:64-87 | the dropdown starts read-only on the first client, or disabled on the placeholder when there are none |
| Eve.Dropdown.Refresh | eve.py:46-71 | with clients: read-only, those values, selection kept or moved to the first. With none, or when enumeration raises: disabled, showing only the placeholder. The selection is always a listed value |

## Left out

- Printing, `time.sleep(0.1)`, the 5-second rescheduling of `refresh_eve_clients`, and the Tk widgets themselves. The model keeps only the values the GUI shows: the count, the log label, the dropdown and the error boxes.
- Threads. The tail thread runs over an explicit schedule (`Tick`) of loop passes, writes by the game client, stop requests and read failures. Joining a live task may count one line it had already read (`inFlight`). No other interleaving is modelled.
- The Windows API calls (`EnumWindows`, `IsWindowVisible`, `GetWindowTextLengthW`, `GetWindowTextW`). They become a `Window` value per enumerated window. A failed or raising `EnumWindows` is modelled by the windows it visited before it stopped.
- File system access. The log directory is a snapshot of entries: name, modification time (an integer here, a float in Python), and decoded text or a read error. Expanding the directory path, `os.path.join` and `os.path.basename` are not modelled: the label is the entry's name. UTF-16 decoding with ignored errors is taken as already done.
- Session.Monitor.StartMonitoring: the new task starts at the end of the text the resolver read. If the file grows between that read and the tail's `seek`, the model's start position is earlier than the real one.
- LogResolver.GetLatestLog: `os.path.getmtime` raising inside the sort is not modelled. In the code that exception is not caught and leaves `get_latest_log`.
- Session.LineEnd: newline translation in text mode (`\r\n` and `\r` read as `\n`) is not modelled. Lines end at `\n` only.
- `\d` and `\w` match ASCII digits and word characters only. Python also accepts other Unicode digits and letters. `re.IGNORECASE` is modelled as accepting `x` and `X`.
- Helpers.ExtractEveTimestamp: `timestamp()` on a naive datetime uses the local time zone. The zone's UTC offset for that date is a parameter. Daylight-saving gaps and overlaps, and platform errors from `timestamp()`, are not modelled. On Windows those errors would also give None.
- `unix_timestamp` (helpers.py:34-35) only reads the clock, so it is not modelled.
- `requests.post` is the `Response` parameter of `SendToDiscord`: a status code, or an exception.
- config.py (loading and saving the JSON configuration) is not part of this model. Only the webhook name and avatar constants are used.
- gui.py's `reset_count`, `on_close`, the always-on-top toggle and the about box are not part of this model. They are user-interface code outside the core.
