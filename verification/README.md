# RaspberryJam size humaniser and report log, in Dafny

RaspberryJam watches a directory and, on each file event, sends a report of
host metrics through a chat bot. The only self-contained logic in it is:

- `get_size`: turns a byte count into a human-readable size. It divides the
  count by 1024 while walking the prefixes `""`, `K`, `M`, `G`, `T`, `P`. It
  stops at the first prefix at which the scaled value is below 1024, and
  renders that value, the prefix and a suffix (default `B`). Counts of 1024^6
  or more run off the end of the loop, so the function returns `None`.
- `ResourceMonitor.print_log`: appends one line, plus a newline, to the
  monitor's report log. The log starts empty.

This project models both as pure functions and proves what they compute.

- `get_size.dfy` (module `Sizes`): the count is an exact `real`. This covers
  both the integer byte counts and the floating-point percentages that the
  callers pass. `ScaleFrom` follows the loop one iteration at a time.
  `GetSizeLoop` is the same loop written as a `while` loop that also counts its
  comparisons. `IsUnitFor` is an independent reference definition: "k is the
  least index in 0..5 with bytes / 1024^k < 1024", where the count is divided
  by 1024 k times as the loop does (`Shrink`). `UnitByThreshold` gives a
  second one: 1024^k <= bytes < 1024^(k+1). The `.2f` rendering of the
  magnitude is the uninterpreted parameter `fmt`.
- `report_log.dfy` (module `ReportLog`): the monitor's log as a `Monitor`
  value. `PrintLog` models one call and `PrintAll` models a sequence of calls.
  `SplitLines` reads a log back into its lines.
- `wrappers.dfy` (module `Wrappers`): the `Option` type that stands for
  Python's implicit `None` return.

## Model

| member | source | states |
|---|---|---|
| `Sizes.GetSize` | raspberry_jam.py:12-25 | Returns no value exactly when the count is at least 1024^6. Otherwise it returns `fmt(bytes / 1024^k)` followed by prefix k and the suffix, for an index k that is the least one in 0..5 at which the scaled count is below 1024. |
| `Sizes.ScaleFrom` | raspberry_jam.py:22-25 | The loop from iteration i. Any chosen prefix index lies between i and 5, and the returned magnitude is below the factor 1024. |
| `Sizes.ShrinkIsDivPow` | raspberry_jam.py:25 | Dividing the count by 1024 k times, as the loop does, gives the count divided by 1024^k. |
| `Sizes.ScaleFromMeaning` | raspberry_jam.py:22-25 | Given that the earlier iterations all failed, the loop picks an index satisfying the reference definition, and the magnitude is the count divided k times by 1024. If it returns nothing, the count divided by each of the six powers 1024^0 to 1024^5 was still at least 1024. |
| `Sizes.ScaleIsUnitFor` | raspberry_jam.py:22-24 | The loop picks index k exactly when k is the least index in 0..5 at which the count divided by 1024^k is below 1024, in both directions. So no earlier prefix qualifies, and no other index could be chosen. |
| `Sizes.UnitByThreshold` | raspberry_jam.py:22-24 | Prefix k is chosen exactly when k <= 5, bytes < 1024^(k+1), and either k = 0 or 1024^k <= bytes. Negative counts and counts below 1024 get the empty prefix. |
| `Sizes.NoneExactlyAtTop` | raspberry_jam.py:22-25 | The loop returns nothing exactly when the count is at least 1024^6, because there is no return after the loop. |
| `Sizes.MagnitudeBounds` | raspberry_jam.py:20-25 | When a result is returned, its prefix index is at most 5. Its magnitude is strictly below 1024 and equals the count divided by 1024 to the power of the index. |
| `Sizes.SmallUnscaled` | raspberry_jam.py:23-24 | A count below 1024 is returned unscaled, with the empty prefix. |
| `Sizes.PercentUnscaled` | raspberry_jam.py:125-133 | A percentage between 0 and 100 passed to `get_size`, as the disk report (line 125) and the memory report (line 133) do, renders as the unscaled value followed by just `B`. |
| `Sizes.SuffixVerbatim` | raspberry_jam.py:24 | The rendered string ends with the suffix exactly as given, and the chosen prefix comes immediately before it. |
| `Sizes.GetSizeLoop` | raspberry_jam.py:20-25 | The `for` loop as written computes the same result as `GetSize`. It makes at most six comparisons: k+1 when prefix k is chosen, and all six when nothing is returned. |
| `ReportLog.PrintLog` | raspberry_jam.py:63-64 | The old log is kept unchanged as a prefix. Exactly `text + "\n"` is added after it, and nothing else changes. |
| `ReportLog.PrintAllAppends` | raspberry_jam.py:63-64 | A sequence of `print_log` calls keeps the old log as a prefix. It appends exactly the newline-terminated texts, in call order. |
| `ReportLog.SplitJoin` | raspberry_jam.py:63-64 | Splitting the concatenation of newline-terminated, newline-free lines at its newlines gives back exactly those lines. |
| `ReportLog.ReportReadsBack` | raspberry_jam.py:47-64 | The log of a fresh monitor, which starts empty, reads back after any sequence of `print_log` calls with newline-free texts as exactly those texts, in order. |

## Left out

- Sizes.GetSize: the `.2f` float-to-string rendering is the uninterpreted parameter `fmt`. Only how its output is combined with the prefix and suffix is modelled.
- Sizes.GetSize: arithmetic is exact over reals. The model does not cover Python's rounding when an integer above 2^53 becomes a float on the first division.
- Sizes.GetSize: NaN and infinite inputs are not modelled. NaN compares false against 1024 and +inf never falls below it, so `get_size` returns `None` for both. -inf is below 1024 on the first comparison, so it is returned at once with the empty prefix.
- Sizes.GetSize: Python's `OverflowError` is not modelled. The first `bytes /= factor` (raspberry_jam.py:25) divides two integers, and it raises when the quotient is too large for a float. That happens for counts above about 1.8e311 (the quotient, not the count, must exceed the float range). For those counts the model returns `None`. Counts between about 1.8e308 and 1.8e311 give a finite float quotient, so `get_size` returns `None` for them, as the model does. A negative integer below about -1.8e308 makes the `.2f` formatting (raspberry_jam.py:24) raise, where the model returns `fmt(bytes)` followed by the suffix. No caller in the program passes such values.
- Sizes.NoneExactlyAtTop: the boundary 1024^6 holds for exact reals. For Python integers from 2^60 - 64 to 2^60 - 1, the first division rounds to exactly 2^50. The loop then reaches exactly 1024.0 at prefix `P` and returns `None`, where the model returns a value with prefix `P`. So for integers, `None` starts at 2^60 - 64.
- Metric collection in `ResourceMonitor.__init__` and the `system_info`, `proc_info`, `ram_info`, `disk_info` and `network_info` methods (raspberry_jam.py:38-139): these call psutil and platform for live OS counters. The `print_log` and `get_size` calls they make are covered by the members above. The metric values they pass are not modelled.
- Writing the log to `raspberryjam.txt`, reading it back, and the bot sends in `call_all` and `submit` (raspberry_jam.py:28-33, 49-61): file and network I/O.
- The pyinotify watch and notifier loop, the `Handler` event callbacks and their `datetime.now()` timestamps (raspberry_jam.py:142-180): OS event subscription, a blocking loop and a clock.
- Command-line handling in `main` (raspberry_jam.py:183-198): plumbing around the above.
