# Activity monitor: dashboard summary, retention sweep and agent change detector

This project models in Dafny the three parts of the activity-monitoring tool that contain logic of their own:

* **Dashboard summary** (`logs_dashboard` in `server/server.py`). The `search` argument is lower-cased. When it is non-empty, only the log rows whose lower-cased username contains it are kept; a null username counts as `""`. The kept rows are grouped by `(username, pc_name)`. Each group gets its row count and its latest timestamp. The result is one `users` entry per group, in the dictionary's insertion order. A query error, or a null data attribute, gives an error response instead.
* **Retention sweep** (`auto_delete_old_logs` in `server/server.py`). Each cycle deletes every row whose timestamp is strictly before "now minus three days". Any exception is caught and logged, and nothing is rolled back. A cycle whose delete did not take effect is `Failed`; one whose delete committed and then raised is a `Swept` cycle.
* **Agent change detector** (`monitor.py`). `monitor_loop` uploads an observation only when the window title is truthy and differs from `last_window`, and then sets `last_window` to it. `start_monitoring` and `stop_monitoring` set and clear the `monitoring` flag. Start does nothing when the flag is already set.

Modules:

* `Common` (common.dfy): `Option`, `Result`, `IsSubsequence` and `NoDuplicates`.
* `Text` (text.dfy): `str.lower()` and the substring test `in`, with `Contains` proved equal to "occurs at some position".
* `Logs` (logs.dfy): the `logs` table row.
* `Dashboard` (dashboard.dfy): the search filter is a pure function. The group-by is the imperative loop `Summarize`, which updates a map plus its insertion-order key list. `BuildUsers` is the append loop. `LogsDashboard` is the whole handler, with the query result passed in.
* `Retention` (retention.dfy): the delete predicate as a pure filter, and the sweep loop over a finite run of cycles.
* `Monitor` (monitor.py → monitor.dfy): `Uploads` is the specification of what the loop sends. The module-level flag and thread become the fields of class `Agent`. Its `MonitorLoop` reads a sequence of ticks. A tick is either a polled title or a stop request, which stands for `stop_monitoring` running on the tray thread during the sleep.

Modelling choices:

* Timestamps are integers: seconds on one clock (see "Left out" for the agent's UTC offset). Three days is `3 * 24 * 60 * 60`.
* In the dashboard, `username` and `pc_name` are `Option<string>`, because database columns can be null. A key with a null username is distinct from one whose username is `""`, as it is in the Python dictionary.
* The dashboard rows may come in any order. Every property holds whatever order the database query returns.

## Model

| member | source | states |
|---|---|---|
| Text.Lower | server/server.py:95 | `lower()` keeps the length, maps each character through the ASCII case map, and leaves no upper-case letter |
| Text.Contains | server/server.py:106 | the substring test `search in name`: the empty needle is always found, and a found needle is no longer than the haystack |
| Text.ContainsIff | server/server.py:106 | the substring test succeeds exactly when the needle occurs at some position of the haystack; the empty needle always does |
| Dashboard.FilterBySearch | server/server.py:106 | the comprehension keeps no more rows than it is given, and every kept row is an input row that matches the search |
| Dashboard.FilterBySearchCounts | server/server.py:106 | a matching row is kept exactly as often as it occurs in the input; a non-matching row is never kept |
| Dashboard.FilterBySearchIsSubsequence | server/server.py:106 | the kept rows are a subsequence of the input: relative order is preserved |
| Dashboard.FilterByEmptySearchKeepsAll | server/server.py:105-106 | an empty search string keeps every row |
| Dashboard.KeptIffSubstring | server/server.py:106 | a row is kept iff it is an input row and the lower-cased search occurs in its lower-cased username, null counting as "" |
| Dashboard.SearchedRows | server/server.py:95-106 | the rows the dashboard summarises: no more rows than were queried, each a queried row whose lower-cased username contains the lower-cased `search` argument |
| Dashboard.SearchedRowsIsFilter | server/server.py:95-106 | lower-casing then filtering only when non-empty equals always filtering; an absent or empty `search` argument keeps all rows |
| Dashboard.CountKeyPositive | server/server.py:110-112 | a key occurs among the rows exactly when its count is at least one |
| Dashboard.DistinctKeysSpec | server/server.py:108-118 | the insertion-order key list holds each occurring key once and no other key |
| Dashboard.SummaryStep | server/server.py:110-115 | one loop iteration (defaultdict entry, `log_count += 1`, conditional `last_active` update) keeps every entry exact for the rows seen so far |
| Dashboard.Summarize | server/server.py:108-115 | after the loop the summary keys are exactly the keys that occur; each entry's count is that key's row count; its `last_active` is set and is the maximum timestamp, attained by one of its rows; the key order is first-occurrence order |
| Dashboard.BuildUsers | server/server.py:117-124 | one `users` entry per summary key, in insertion order, carrying the key, its `log_count` and its `last_active` |
| Dashboard.LogsDashboard | server/server.py:94-126 | a truthy query error gives an error with that message; otherwise null data gives "No data returned"; otherwise the page lists the summary of the searched rows together with the lower-cased search |
| Dashboard.SumOfDistinctCounts | server/server.py:110-112 | the counts of the distinct keys add up to the number of rows |
| Dashboard.SummaryFacts | server/server.py:108-124 | a summary has no two entries for one key and one entry for each occurring key; every count is at least one; the counts sum to the number of rows |
| Dashboard.DashboardCountsSearchedRows | server/server.py:105-124 | the page's counts sum to the number of rows the search keeps; each entry's count is the number of kept rows with its key |
| Retention.DeleteBefore | server/server.py:27 | the delete leaves no more rows than before, and every survivor is an original row that is not before the cutoff |
| Retention.Cutoff | server/server.py:24 | the cutoff is exactly three days (259200 seconds) before the clock reading `now` |
| Retention.Sweep | server/server.py:24-27 | one successful cycle: no more rows than before, each survivor an original row with timestamp at or after `now - 3 * 86400` |
| Retention.DeleteBeforeCounts | server/server.py:27 | exactly the rows strictly before the cutoff are removed; every other row survives as often as it occurred |
| Retention.DeleteBeforeIsSubsequence | server/server.py:27 | the survivors keep their relative order |
| Retention.SweepKeepsIff | server/server.py:24-27 | a row survives a sweep at `now` iff it was in the table and its timestamp is at or after `now - 3 * 86400` |
| Retention.DeleteBeforeTwice | server/server.py:21-32 | two consecutive deletions equal one deletion with the later cutoff |
| Retention.SweepIdempotent | server/server.py:21-32 | a second sweep at the same clock reading deletes nothing more |
| Retention.AutoDeleteOldLogs | server/server.py:21-32 | after a run of cycles the table equals one sweep at the latest successful clock reading; with no successful cycle it is unchanged |
| Retention.NoExpiredRowSurvives | server/server.py:21-32 | after the loop no surviving row is expired with respect to any successful cycle's cutoff |
| Monitor.Uploads | monitor.py:81-87 | the titles the loop sends for a run of observations: at most one per observation, each non-empty and equal to an observed title |
| Monitor.FinalWindow | monitor.py:79-87 | the final `last_window`: either its starting value or a truthy observed title |
| Monitor.UploadsAreNewAndNonEmpty | monitor.py:83 | every uploaded title is non-empty, and the first one differs from the starting `last_window` |
| Monitor.UploadsHaveNoRepeats | monitor.py:81-88 | no two consecutive uploads carry the same title |
| Monitor.UploadsAreSubsequence | monitor.py:81-88 | the uploaded titles are a subsequence of the titles read |
| Monitor.FinalWindowIsLastUpload | monitor.py:83-87 | `last_window` ends as the latest uploaded title; with no upload it keeps its starting value |
| Monitor.UploadsSnoc | monitor.py:82-87 | one more observation appends its title exactly when it is truthy and differs from the current `last_window`, which then becomes that title; otherwise uploads and `last_window` are unchanged |
| Monitor.FirstTruthyIsUploaded | monitor.py:79-83 | from `last_window = None`, the first truthy observation is the first upload |
| Monitor.Agent.constructor | monitor.py:17-18 | the agent starts not monitoring, with no loop thread |
| Monitor.Agent.StartMonitoring | monitor.py:90-96 | afterwards the flag is set; one loop thread is started only if the flag was clear, so a second start changes nothing |
| Monitor.Agent.StopMonitoring | monitor.py:98-101 | afterwards the flag is clear; no thread is started |
| Monitor.Agent.MonitorLoop | monitor.py:75-88 | runs no iteration when the flag is clear on entry; otherwise uploads exactly `Uploads(None, polls before the first stop)`; stops at the first guard check after a stop; `last_window` ends as the last upload |

## Left out

- Text.Lower: implements only ASCII case mapping. Python's `str.lower()` applies full Unicode case mapping, which has no counterpart in Dafny.
- Supabase calls are foreign service calls, so they are not modelled. This covers storage upload, public URL lookup, insert, the select/order query and the range delete. The query result of `logs_dashboard` is a parameter. Only the filtering meaning of the `.lt("timestamp", cutoff)` delete is modelled.
- `receive_log` and `user_logs`, with `secure_filename`, are left out. They are request orchestration around those service calls.
- Flask routing, `render_template` and the JSON error responses are left out. `LogsDashboard` returns the template arguments or the error message instead.
- Time handling is left out: `datetime.fromisoformat`, `strftime("%Y-%m-%d %H:%M:%S")`, `utcnow()`, `timedelta` and ISO-8601 strings.
  - Timestamps are integers, and every row is assumed to parse.
  - `fromisoformat` at line 113 raises on a malformed timestamp, and that error path is not modelled.
  - `last_active` is returned as the timestamp value, not as the formatted string.
  - Whether the `.lt` filter compares parsed timestamps or ISO strings depends on the database column type, which is not visible in the source.
- The agent's OS and network I/O are left out. This covers `pygetwindow`, the `mss`/PIL screenshot, `socket.gethostname`, `requests.post`, loading the user name from the config file or a tkinter prompt, the `pystray` tray icon and every `time.sleep`. A polled title is an input tick. An upload is represented by its title alone, without name, host, timestamp or image.
- Threads are left out, including the unsynchronised sharing of `monitoring` between the tray thread and the loop thread. Start, stop and the loop are sequential. A stop during the loop is a tick in its input, and the started thread appears only as the `loopsStarted` counter. `exit_app` and a start issued while an old loop is still running are not modelled.
- Retention.Cutoff: the model puts row timestamps and the cutoff on one clock, which hides an offset. Rows carry the agent's local wall-clock time without an offset (`datetime.datetime.now()`, monitor.py:84). The cutoff is server UTC (`utcnow()`, server.py:24). So the real retention window is shifted by the agent's UTC offset; for an agent at UTC+7 a row survives about 3 days 7 hours.
- Monitor.Agent.MonitorLoop: the loop thread can die from an exception, and that path is not a separate case.
  - The causes are `take_screenshot()` outside any `try` (monitor.py:85), and `load_user_name()` ending the thread through `sys.exit(0)` (monitor.py:53) or a failing `json.load` (monitor.py:46).
  - The end of the tick sequence also stands for such a crash: the loop returns with `monitoring` still set.
  - A later `StartMonitoring` is then a no-op (monitor.py:92; `loopsStarted` unchanged by its contract) until a stop comes first.
- The `while True` retention loop runs over a finite sequence of cycles. Rows inserted between cycles and the 24-hour sleep are not modelled.
- The admin IP allowlist, the date filter and the ON/OFF status are not part of this model. They are not present in this revision of `server/server.py`.
