# zk-smoketest analysis scripts, modelled in Dafny

zk-smoketest drives a ZooKeeper ensemble through batches of operations and
records two kinds of output for each run:

- `latencies.txt`, with the per-operation timing lines that `zk-latencies.py`
  prints;
- one kernel trace per operation (`created.txt`, `set.txt`, `get.txt`,
  `deleted.txt`) with the KVM `apic_write`, `apic_read` and `pio_write`
  events.

This project models the parts of the three Python scripts that turn those
files into numbers:

- **`zk-latencies.py`**: the znode naming (`child_path`), the path check after
  an asynchronous batch, reading a `zoo.cfg`-style configuration
  (`read_zk_config`) and choosing the server list (`get_zk_servers`).
- **`parse_kvm_event.py`**:
  - `EventSeries.try_add` and `get_rate`;
  - the latency report (`ParseZKLatency` and `get_info`);
  - `Series2D` and `append_to_row`;
  - the main block's loops, which fill four tables (request rate and three
    event rates) with one row per run and one column per operation.
- **`plot_event_flows.py`**: its own `EventSeries` (`try_add` with the
  `first_event` bookkeeping, `get_throughput`, `get_time_series`) and the
  x/y extents of each plotted curve.

Modules, one per file:

| module | file | what it holds |
|---|---|---|
| `Outcomes` | outcomes.dfy | `Option`, `Result` and the `Error` kinds:<br>- `sys.exit()` after "Wrong format." or "Error: No event!";<br>- Python's `ZeroDivisionError`, `TypeError`, `IndexError`, `KeyError`, `ValueError` and `IOError`;<br>- the invalid-path `SmokeError`;<br>- a loop that never ends.<br>Also `ReadLines`, over a file system given as a map from path to lines. |
| `Text` | text.dfy | Character classes, `rstrip`, `split`, `split(c, 1)`, `join` and substring search. |
| `Decimal` | decimal.dfy | Digit strings and their values, and `str()` of an integer. |
| `TraceLine` | trace_line.dfy | The timestamp pattern `.+\s(\d+)\.(\d+):\s.+`, microseconds, and `get_rate`. |
| `KvmEvents` | kvm_events.dfy | `EventSeries` of `parse_kvm_event.py`, and reading one file through several series at once. |
| `EventFlows` | event_flows.dfy | `EventSeries` of `plot_event_flows.py`, the time series, and the plot extents. |
| `Series` | series2d.dfy | `Series2D`. |
| `LatencyReport` | latency_report.dfy | The latency pattern, both as written and as intended, and `ParseZKLatency`. |
| `RateTables` | rate_tables.dfy | The main block of `parse_kvm_event.py`. |
| `ZkConfig` | zk_config.dfy | `child_path`, the path check, `read_zk_config` and `get_zk_servers`. |

Conventions:

- A line of a file is a `string` without its terminator. In Python the
  terminator is still on the line, and `.` does not match it. None of the
  three patterns needs to match the terminator: `.+` is followed by a
  character that is not a newline, and `\s.+` needs only one character
  after the colon. So removing the final newline changes no match.
- Python's regular expressions are written as scanners, with the greedy and
  leftmost choices Python's engine makes:
  - `re.search` takes the leftmost start;
  - a greedy `.+` takes the last position from which the rest still matches;
  - `\d+` and `\S+` take the maximal run.
- Each such scanner has a lemma stating the choice it makes.
- Python's `long` is Dafny's `int`. Rates are `real`, so `float` rounding is
  not modelled.
- A script that prints an error and calls `sys.exit()` returns `Err`, as does
  one that raises.

## Model

| member | source | states |
|---|---|---|
| ZkConfig.ChildPath | zk-smoketest/zk-latencies.py:117-118 | The path starts with the root followed by `/`, and is longer than the root plus `/session_`. |
| ZkConfig.ChildPathInjective | zk-smoketest/zk-latencies.py:117-118 | Two indices give the same path only if they are equal, so every operation of a batch names its own znode. |
| ZkConfig.CheckPathsOk | zk-smoketest/zk-latencies.py:227-231 | The check after a batch passes exactly when every reported path `j` is `child_path(j)`. |
| ZkConfig.CheckPathsFirstMismatch | zk-smoketest/zk-latencies.py:227-231 | A failing check raises the invalid-path error for the first operation whose path differs; all earlier paths match. |
| ZkConfig.Entry | zk-smoketest/zk-latencies.py:343 | The key a line contributes has no `=`, and key, `=` and value put back together give the right-stripped line. |
| ZkConfig.EntryCases | zk-smoketest/zk-latencies.py:343 | A line contributes an entry exactly when it is non-blank after `rstrip` and has an `=`; the entry is a prefix of the line. |
| ZkConfig.ReadZkConfig | zk-smoketest/zk-latencies.py:341-344 | A missing file is an IOError for that file name; otherwise the result is the dictionary built from the file's lines. |
| ZkConfig.ConfigOk | zk-smoketest/zk-latencies.py:343 | The file reads exactly when no non-blank line lacks an `=`, and a failed read is a ValueError. |
| ZkConfig.ConfigOfStep | zk-smoketest/zk-latencies.py:343 | One more line fails the read exactly when the earlier lines fail or the new line is malformed; the error is the earlier one or ValueError. |
| ZkConfig.ConfigOfFold | zk-smoketest/zk-latencies.py:343 | A file that reads gives the dictionary built from its entries, one per line. |
| ZkConfig.FoldLastWins | zk-smoketest/zk-latencies.py:343 | The built dictionary has a key exactly when some entry defines it, with the value of the last entry that does. |
| ZkConfig.ConfigLastWins | zk-smoketest/zk-latencies.py:341-344 | A key is in the configuration exactly when some line defines it, and its value comes from the last such line. |
| ZkConfig.ServerEntry | zk-smoketest/zk-latencies.py:352 | The entry is the value's host part followed by `:` and the client port. The host part is the longest prefix of the value without `:`: the whole value, or the text before its first `:`. |
| ZkConfig.ConfigFileNameIrrelevant | zk-smoketest/zk-latencies.py:349-353 | With no truthy cluster, any two truthy file names give the same result: the file read is always the `configfile` option. |
| ZkConfig.GetZkServersPrecedence | zk-smoketest/zk-latencies.py:346-355 | The precedence is: a truthy cluster option, then a truthy file name, then the server list. With a truthy file name the result is a TypeError when the configfile option is unset, and a one-element list when it succeeds. |
| ZkConfig.ConfigServers | zk-smoketest/zk-latencies.py:349-353 | The configuration case succeeds exactly when the configfile exists, reads, and has `clientPort`. It then returns one string, the server entries joined by `,`: one entry per `server.` key of the file, and no other entries. |
| ZkConfig.ServerEntriesListed | zk-smoketest/zk-latencies.py:352-353 | For any key order, every entry comes from a listed `server.` key of the configuration, and every such key gives its entry. |
| ZkConfig.ServerEntriesCount | zk-smoketest/zk-latencies.py:352-353 | An order without repeated keys gives exactly one entry per listed `server.` key of the configuration. |
| ZkConfig.ServerEntriesSpec | zk-smoketest/zk-latencies.py:352-353 | Over an iteration order of the configuration (each key exactly once), the entries are those of the configuration's `server.` keys, one per key. |
| ZkConfig.ServerEntriesAppend | zk-smoketest/zk-latencies.py:352-353 | The entries of two concatenated key orders are the two orders' entries, concatenated. |
| ZkConfig.ServerEntriesPermutation | zk-smoketest/zk-latencies.py:352-353 | Two key orders that are permutations of each other give the same entries up to permutation. |
| ZkConfig.OrdersOfConfig | zk-smoketest/zk-latencies.py:352-353 | Any two iteration orders of one configuration give the same entries up to permutation, so the dictionary's order changes only the sequence of the servers. |
| ZkConfig.ServersListRoundTrip | zk-smoketest/zk-latencies.py:354-355 | In the server-list case, joining the result with `,` gives back the option, and the list has one more entry than the option has commas. |
| Text.JoinSplit | zk-smoketest/zk-latencies.py:355 | Joining the pieces of `split(c)` with `c` gives back the string. |
| Text.SplitJoin | zk-smoketest/zk-latencies.py:355 | Splitting a join of pieces that do not contain `c` gives back the pieces. |
| Text.SplitPieces | zk-smoketest/zk-latencies.py:355 | `split(c)` gives one piece more than the number of `c`s in the string, and no piece contains `c`. |
| Text.SplitOnce | zk-smoketest/zk-latencies.py:343 | `split(c, 1)` gives one piece, the string itself, exactly when `c` is absent. Otherwise it gives two pieces: a first without `c`, and a second that put back together with it reproduces the string. |
| Text.RStrip | zk-smoketest/zk-latencies.py:343 | The result is a prefix of the line that does not end in whitespace, and everything removed is whitespace. |
| Decimal.NatToString | zk-smoketest/zk-latencies.py:117 | `"%d"` of a non-negative number is a digit string without leading zeros (only `0` starts with `0`) whose value is the number. |
| Decimal.IntToString | zk-smoketest/parse_kvm_event.py:146 | `str(exp_idx)` is canonical text: digits without leading zeros, with a `-` exactly when the index is negative and never `-0`, whose value is the index. |
| Decimal.IntTextRoundTrip | zk-smoketest/parse_kvm_event.py:146 | Every canonical integer text is `str()` of its value, so `str()` is a bijection between integers and canonical text. |
| Decimal.IntToStringInjective | zk-smoketest/parse_kvm_event.py:146 | Different run indices give different run names. |
| TraceLine.MicrosSplits | zk-smoketest/parse_kvm_event.py:73 | For a microsecond field below one million, the stamp divided by 10^6 gives back the seconds and the remainder gives back the microseconds. |
| TraceLine.MicrosInjective | zk-smoketest/parse_kvm_event.py:73 | Two timestamps whose microsecond fields are below one million give the same stamp only if they are equal. |
| TraceLine.LastTokenAtOrBelow | zk-smoketest/parse_kvm_event.py:61 | The greedy `.+` before `\s(\d+)\.(\d+):\s.+`: the result is a timestamp position, and no later position up to the bound is one. |
| TraceLine.ParseTime | zk-smoketest/parse_kvm_event.py:61 | There is no match exactly when no timestamp position exists. Otherwise the groups are those of the last timestamp position. |
| TraceLine.ParseFormattedLine | zk-smoketest/parse_kvm_event.py:61 | On `<prefix> <sec>.<usec>: <message>`, with a message without whitespace, the pattern yields `sec` and `usec`. |
| TraceLine.MatchStamp | zk-smoketest/parse_kvm_event.py:64-78 | A line is rejected exactly when it contains the event pattern and has no timestamp. A matching line gives its stamp; any other line gives none. |
| TraceLine.WellFormedIff | zk-smoketest/parse_kvm_event.py:64-78 | A file is read without "Wrong format." exactly when every line that contains the pattern has a timestamp. |
| TraceLine.StampsCons | zk-smoketest/parse_kvm_event.py:162-165 | The stamps of a file are the first line's stamp followed by the stamps of the rest. |
| TraceLine.Rate | zk-smoketest/parse_kvm_event.py:81-91 | No events is NoEvent, a zero duration is ZeroDivision, and otherwise the rate times the duration is the count times 10^6. |
| KvmEvents.TryAdd | zk-smoketest/parse_kvm_event.py:63-78 | A line is rejected with WrongFormat exactly when it contains the pattern but has no timestamp. The events keep their prefix and gain the line's stamp only when the line contains the pattern. |
| KvmEvents.TryAddStamp | zk-smoketest/parse_kvm_event.py:63-78 | `try_add` succeeds exactly when the line's stamp is defined, and appends exactly that stamp. |
| KvmEvents.CollectEvents | zk-smoketest/parse_kvm_event.py:162-165 | Feeding a file to one series succeeds exactly when the file is well formed for its pattern. The events are then the earlier ones followed by the stamps of the matching lines, in file order. |
| KvmEvents.CollectSucceeds | zk-smoketest/parse_kvm_event.py:162-165 | Feeding a file succeeds exactly when the file is well formed for the series' pattern. |
| KvmEvents.CollectAppends | zk-smoketest/parse_kvm_event.py:162-165 | A successful feed leaves the pattern and appends the file's stamps. |
| KvmEvents.AddToEachSpec | zk-smoketest/parse_kvm_event.py:163-165 | One line given to several series succeeds exactly when each `try_add` does, and each series is updated on its own. |
| KvmEvents.ScanAllIndependent | zk-smoketest/parse_kvm_event.py:162-165 | Reading a file line by line through several series succeeds exactly when each series alone would read the whole file, with the same result per series. |
| Series.New | zk-smoketest/parse_kvm_event.py:109-111 | `Series2D(ysize)` has `ysize` empty rows, or none when `ysize` is not positive, and remembers `ysize`. |
| Series.AppendToRow | zk-smoketest/parse_kvm_event.py:113-115 | A row index outside `-len..len-1` is an IndexError. Otherwise the row Python's indexing selects gains the item at its end, and every other row is unchanged. |
| LatencyReport.HeadAtSpec | zk-smoketest/parse_kvm_event.py:98 | `(\S+)\s+(\d+)\s+permanent` matches from a position in exactly one way, the greedy one. |
| LatencyReport.LastRateFromSpec | zk-smoketest/parse_kvm_event.py:98 | The greedy `.+` before `(\d+\.\d+)/sec\)` stops at the last position from which the rest matches, and there is none when the result is absent. |
| LatencyReport.GreedyRateOneDigit | zk-smoketest/parse_kvm_event.py:98 | At the position the greedy `.+` leaves, the rate group's integer part is a single digit. |
| LatencyReport.MatchAtAsWrittenShape | zk-smoketest/parse_kvm_event.py:98 | The pattern as written captures a non-blank operation, a digit count, and a rate of the form `<one digit>.<digits>`. |
| LatencyReport.MatchAtShape | zk-smoketest/parse_kvm_event.py:98 | The corrected capture has the same operation and count, and a whole `<digits>.<digits>` rate. |
| LatencyReport.FirstMatch | zk-smoketest/parse_kvm_event.py:98 | `re.search` finds the leftmost start from which the pattern matches, or none when it matches nowhere. |
| LatencyReport.ParseLineAsWritten | zk-smoketest/parse_kvm_event.py:98-99 | The literal pattern: no match exactly when it matches at no position. Otherwise the groups of the leftmost match, with a one-digit integer part. |
| LatencyReport.ParseLine | zk-smoketest/parse_kvm_event.py:98-99 | The corrected pattern: it matches on the same lines as the literal one, with the leftmost match's groups and a whole decimal rate. |
| LatencyReport.AsWrittenKeepsLastDigit | zk-smoketest/parse_kvm_event.py:98 | Both captures match on the same lines with the same operation and count, and the literal rate is a suffix of the whole one. |
| LatencyReport.TimingLineAsWritten | zk-smoketest/parse_kvm_event.py:98 | On a timing line `<op> <count> permanent ... <whole>.<frac>/sec)` the literal pattern yields the operation and count, but only the last digit of `whole`. |
| LatencyReport.TimingLineLosesDigits | zk-smoketest/parse_kvm_event.py:98 | When the integer part has two digits or more, the stored rate differs from the printed one. |
| LatencyReport.TimingLineRoundTrip | zk-smoketest/parse_kvm_event.py:98 | The corrected pattern gives back the printed operation, count and whole rate `whole.frac`. |
| LatencyReport.EphemeralLineIgnored | zk-smoketest/parse_kvm_event.py:98-99 | A line without `permanent` is never recorded. |
| LatencyReport.ParseWith | zk-smoketest/parse_kvm_event.py:98-99 | `AsWritten` selects the literal pattern of the script, and `Corrected` the intended one. |
| LatencyReport.AddLine | zk-smoketest/parse_kvm_event.py:98-101 | For either capture, a non-matching line changes nothing. A matching line sets its operation's rate to the captured rate text and sets the znode count to its count. |
| LatencyReport.ParseReport | zk-smoketest/parse_kvm_event.py:94-101 | An empty file gives an empty report. The report of a file is the report of all but its last line, updated with the last line. |
| LatencyReport.LastLineWins | zk-smoketest/parse_kvm_event.py:94-101 | For either capture, an operation is in the report exactly when some line matches for it, and its rate is the one captured from the last such line. |
| LatencyReport.ZnodeCountFromLastLine | zk-smoketest/parse_kvm_event.py:100 | The znode count is unset exactly when no line matches; otherwise it is the count of the last matching line. |
| LatencyReport.TimingReport | zk-smoketest/parse_kvm_event.py:94-101 | A file of one timing line records its operation with the rate the capture yields, and its count as the znode count. |
| LatencyReport.ReportLosesDigits | zk-smoketest/parse_kvm_event.py:94-101 | The report the script builds from a timing line whose rate has two integer digits or more stores only the last integer digit, not the printed rate. |
| LatencyReport.ReportRoundTrip | zk-smoketest/parse_kvm_event.py:94-101 | With the corrected capture, the report of a timing line stores the printed rate `whole.frac` and the count. |
| LatencyReport.GetInfo | zk-smoketest/parse_kvm_event.py:105-106 | A present operation gives its stored rate, and a missing one is a KeyError for that operation. |
| RateTables.TrioScan | zk-smoketest/parse_kvm_event.py:159-165 | The interleaved pass of the three series succeeds exactly when the file is well formed for each pattern, and each series ends with its own pattern's stamps. |
| RateTables.OperationRatesSpec | zk-smoketest/parse_kvm_event.py:152-169 | An operation yields its rates exactly when three things hold: the report has the operation, its trace file exists, and each pattern parses with a defined rate. The rates are then the report's entry and the rate of each pattern's stamps. |
| RateTables.OperationRatesErrors | zk-smoketest/parse_kvm_event.py:153-158 | A missing operation is a KeyError, raised before the trace file is opened. A missing trace file is an IOError for its path. |
| RateTables.RatesForSpec | zk-smoketest/parse_kvm_event.py:152-169 | The operations loop completes exactly when every operation does, and entry `j` is then operation `j`'s rates. |
| RateTables.RatesForFirstError | zk-smoketest/parse_kvm_event.py:152-169 | A loop that stops early stops with the error of the first failing operation, and all earlier operations succeeded. |
| RateTables.ExperimentRatesSpec | zk-smoketest/parse_kvm_event.py:145-169 | A missing latency file is an IOError. Otherwise a run succeeds exactly when every operation does against the report parsed from that run's file with the chosen capture, and entry `j` is operation `j`'s rates. |
| RateTables.FillRow | zk-smoketest/parse_kvm_event.py:152-169 | The operations loop appends each operation's four rates to row `k` of the four tables, in order. |
| RateTables.BuiltRows | zk-smoketest/parse_kvm_event.py:140-169 | After the first runs, each of their rows holds that run's columns, and every later row is still empty. |
| RateTables.FillTables | zk-smoketest/parse_kvm_event.py:137-169 | For either capture (`AsWritten` is the script), the main loop succeeds exactly when every run in the index range does, and fails with the first failing run's error. On success every table has `n_exps` rows, and row `k` holds run `min + k`'s rates, one per operation. |
| EventFlows.TryAdd | zk-smoketest/plot_event_flows.py:55-82 | A line is rejected with WrongFormat exactly when it contains the pattern but has no timestamp. The pattern and stamps change as in `parse_kvm_event.py`'s `try_add`. `first_event` is set from the first timestamped line while unset, and falsy 0 counts as unset. |
| EventFlows.CollectBase | zk-smoketest/plot_event_flows.py:134-137 | Tracking `first_event` changes neither which files make the script exit nor the stamps collected. |
| EventFlows.CollectEvents | zk-smoketest/plot_event_flows.py:134-137 | Feeding a trace file succeeds exactly when it is well formed for the pattern. The events are then the matching lines' stamps, in order. |
| EventFlows.CollectFirstEvent | zk-smoketest/plot_event_flows.py:56-66 | After a file, `first_event` is as follows: kept if it was already set; the first non-zero timestamp of the file otherwise; 0 when the only stamps are 0; unchanged when no line has a timestamp. |
| EventFlows.Throughput | zk-smoketest/plot_event_flows.py:85-95 | No events is NoEvent. Otherwise, for a non-zero duration, the throughput times the duration is the count times 10^6. |
| EventFlows.TimeSeries | zk-smoketest/plot_event_flows.py:98-118 | The series is defined exactly when `first_event` is set, there are events, and the leading loop ends. An unset `first_event` is a TypeError and no events is an IndexError. |
| EventFlows.GetTimeSeries | zk-smoketest/plot_event_flows.py:98-118 | The loops of `get_time_series` compute the windowed counts. |
| EventFlows.LeadingWindows | zk-smoketest/plot_event_flows.py:104-107 | The number of leading empty windows is the least `k` whose window end reaches the first event. |
| EventFlows.SeriesShape | zk-smoketest/plot_event_flows.py:98-118 | The series starts with its leading zeros. Its counts are non-negative, and counts plus closed windows are at most the leading windows plus the events. |
| EventFlows.OpenWindow | zk-smoketest/plot_event_flows.py:109-118 | At the end, the open window starts `len(ts)` widths after `first_event`, one width before its end, and its count is not reported. |
| EventFlows.OpenWindowDropped | zk-smoketest/plot_event_flows.py:109-112 | A new last event inside the open window does not change the series, and adds one to the open window's count; nothing else in the loop state changes. |
| EventFlows.StaleEventSkipped | zk-smoketest/plot_event_flows.py:110 | A new last event before the open window leaves the whole loop state unchanged: the series, the window and its count. |
| EventFlows.ClosingEventNotCounted | zk-smoketest/plot_event_flows.py:113-117 | A new last event past the open window closes it with the count so far, and is itself not counted. |
| EventFlows.PlotExtent | zk-smoketest/plot_event_flows.py:145-153 | `RES` 0 is a ZeroDivisionError. Otherwise the x extent is `len(ts)*RES`, clamped by `max_ts`, and the number of y points is the length of `ts[:x_axis/RES]`. For a positive `RES`, there are three cases. When the clamp does not bite, the y points are all of `ts`. For `0 <= max_ts < len(ts)*RES`, they are the floor of `max_ts/RES`. For a negative `max_ts`, the slice drops the last `ceil(-max_ts/RES)` counts, or all of them. |
| EventFlows.ArangeLen | zk-smoketest/plot_event_flows.py:149 | `np.arange(0, x, RES)` has the least length `k` with `k*RES >= x`, or none when `x <= 0`. |
| EventFlows.PlotLengthsDisagree | zk-smoketest/plot_event_flows.py:145-153 | With 5 windows, `RES` 10 and `max_ts` 25, the x axis has 3 points but the y slice has 2. |
| EventFlows.PlotLengthsDiffer | zk-smoketest/plot_event_flows.py:145-153 | Take a positive `RES` and a `max_ts` that clamps the axis to a non-negative value. If `max_ts` is not a multiple of `RES`, the x axis has exactly one point more than the y slice. If it is a multiple, the two lengths agree. |
| EventFlows.AlignedPlotExtent | zk-smoketest/plot_event_flows.py:145-153 | The corrected extent takes as many y points as `np.arange` gives x points, never more than the series has, and all of them when `max_ts` does not clamp. |

## Left out

- Everything in `zk-latencies.py` other than `child_path`, the path check, `read_zk_config` and `get_zk_servers` is left out. That covers the ZooKeeper client and its callbacks, sessions, watches, timers, `print_elap`, starting and stopping traces through `subprocess`, and option parsing. These are I/O against a live ensemble.
- ZkConfig.CheckPaths: `cb.waitForSuccess()` and the handle in the error message are left out. The reported paths are a parameter.
- ZkConfig.GetZkServers: the iteration order of `config.items()` is a parameter, since Python's dict order is not part of the program. The order is required to list every key of the configuration file exactly once (ZkConfig.OrderFits). ZkConfig.OrdersOfConfig shows that the order only permutes the result.
- File contents come from a map from path to lines. A missing path is an IOError, and a `None` file name is a TypeError. Reading, encodings and line terminators are left out.
- Python's `float()` of the captured rate text (parse_kvm_event.py:101) is left out. The report stores the captured text, and the request column holds that text. With the `AsWritten` capture this is the text the script's pattern captures.
- Multiplying the request rate by `TIME_SCALE` (parse_kvm_event.py:133-135, 155) is left out, as floating point.
- `get_rate` and `get_throughput` are computed on exact reals, so `float` rounding is not modelled.
- The `long()` ValueError branches (parse_kvm_event.py:76-78, plot_event_flows.py:64-66 and 80-82) are left out. The captures are non-empty digit runs, so `long()` cannot fail on them.
- Every `print`, `Series2D.get_means`, `get_std` and `dump`, and all plotting with numpy and matplotlib are left out, since they produce output only. The extents passed to `plt.plot` are modelled.
- `argparse` is left out. The input prefix, index bounds, resolution and `max_ts` are parameters.
- The per-operation driver of `plot_event_flows.py` (lines 128-184) is not modelled as one function. Its parts are modelled:
  - reading a file through a series (EventFlows.CollectEvents);
  - the time series (EventFlows.TimeSeries);
  - the plot extents (EventFlows.PlotExtent).
- The three series there each keep their own state, so interleaving their `try_add` calls is the same as reading the file once per series. The same holds in `parse_kvm_event.py`, shown by KvmEvents.ScanAllIndependent.
- The unbounded leading loop of `get_time_series` (plot_event_flows.py:104-107) is modelled as the error Diverges, when the window width is not positive and the first event lies beyond the first window.
- RateTables.FillTables: `req_rates` gains an operation's request rate before its trace file is opened (parse_kvm_event.py:154-158). When a later step fails, the script exits and the partly filled tables are never used, so the model returns only the error.
- RateTables.FillTables: the capture is a parameter. `AsWritten` fills the request table as the script does, and `Corrected` as intended; see Findings.
- EventFlows.PlotExtent: for a negative `RES` the contract states only the clamp bounds and that the y points are at most `len(ts)`. The script's resolution option is a positive number of milliseconds.

## Findings

| source | as written | input that shows it | evidently intended | confidence | as-written member | corrected member |
|---|---|---|---|---|---|---|
| zk-smoketest/parse_kvm_event.py:98 | `permanent.+(\d+\.\d+)/sec\)`: the greedy `.+` keeps all but the last integer digit of the rate. | The line `created   10000 permanent znodes  in   1234 ms (0.123400 ms/op 8103.727715/sec)` stores the rate `3.727715`. | The whole printed rate, `8103.727715`. | not executed | LatencyReport.ReportLosesDigits | LatencyReport.ReportRoundTrip |
| zk-smoketest/plot_event_flows.py:145-153 | The x axis is `np.arange(0, x_axis, RES)`, and the y values are `ts[:x_axis/RES]`, with floor division. | With 5 windows, `RES` 10 and `max_ts` 25, the x axis has 3 points and the y slice has 2, so `plt.plot` is given sequences of different lengths. | As many y values as x points. | not executed | EventFlows.PlotLengthsDiffer | EventFlows.AlignedPlotExtent |
