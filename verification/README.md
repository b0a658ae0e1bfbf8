# aws-dashboard: a verified model of the table parsers

aws-dashboard is a small command-line dashboard for AWS. It asks EC2 and RDS
for their instances and turns each record into a row of strings. It then
filters and sorts the rows by environment, state and a chosen column, and
prints them as a table or as one separator-joined line per row. Its `start`
and `stop` commands remove repeated instance ids before they call EC2.

This project models that core in Dafny and proves what it does:

- `TimeFormat` models `td_format`, which renders a whole number of seconds as
  "N day(s) N hour(s) N minute(s)". The loop is a method, proved equal to a
  recursive specification. Lemmas then give the closed form, the bounds, the
  plural rule, the empty-string case and worked examples.
- `Parsers` holds the table headers, `make_it_shine`, the filter/sort engine
  `sort_parsed_data` and the line-mode presenter.
  - `sort_parsed_data` is a method. Its two filter loops sit in a helper
    method, `FilterParsedData`. Both are proved equal to specification
    functions.
  - Lemmas about that function state what the filters keep, counted per row,
    and that the sort is a stable, non-increasing permutation.
- `Sorting` models Python's `sorted(rows, key=itemgetter(k), reverse=True)`.
  It is a stable sort into non-increasing order of one column, under Python's
  code-point string order.
- `Ec2` models `EC2Service`: the tag map, the state label, the state-time
  dispatch (including the regular expression over the state-transition
  reason) and the six-cell row. The nested loop of `_parse_api_data` is a
  method. Its inner loop, over one reservation's instances, is the helper
  method `ParseInstances`.
- `Rds` models `RDSService`: the status label, the endpoint and the four-cell
  row. Its record loop is a method.
- `IdDedup` models `list(dict.fromkeys(ids))` from the `start` and `stop`
  commands.
- `Strings` and `Wrappers` give Python's string operations and a few value
  types:
  - `str.lower` on ASCII, `in`, `str.find`, `str.join`, `str(int)`,
    `list.index` and string comparison;
  - `Option`, `Result`, and `Collect`, which is a loop that appends values
    and stops at the first exception.

The service classes only keep a client and a colour flag, both set once. So
their methods are modelled as functions that take `color` and the colour
codes (`Palette`) as parameters.

Where a call raises in the source, the model returns an `Err` naming the
cause:

- `Tags` is missing, and the loop iterates over `None`;
- a running instance has a transition reason, or a stopped one has none, so
  `datetime` meets `str`;
- the reason has no "(...)" part, so `.group` is called on `None`;
- the date parser rejects the captured text;
- an RDS record has no `Endpoint`.

In `_parse_api_data`, the first such error ends the whole parse.

`td_format` takes each period only when the remaining seconds are strictly
greater than it. So exact multiples do not roll up:

| seconds | `td_format` returns |
|---|---|
| 3600 | "60 minutes" |
| 3661 | "1 hour 1 minute" |
| 86400 | "24 hours" |
| 90000 | "1 day 60 minutes" |

The lemmas `TdTextOneHour`, `TdTextHourAndMinute`, `TdTextOneDay` and
`TdTextDayAndHour` prove these values.

## Model

| member | source | states |
|---|---|---|
| Wrappers.CollectSpec | src/parsers.py:105-111 | the collecting loop succeeds exactly when every item succeeds, then keeps every value in order; otherwise it fails with the first item's error and every earlier item succeeded |
| Wrappers.CollectErrSticks | src/parsers.py:105-111 | after an exception, later items do not change the outcome |
| Strings.Lower | src/parsers.py:65 | `state.lower()`: same length, each ASCII capital lowered by 32, nothing else changed, no capital left |
| Strings.LowerAll | src/parsers.py:72 | the lower-cased header list has one lower-cased entry per header |
| Strings.ContainsAt | src/parsers.py:65 | Python's `needle in hay` holds exactly when `needle` occurs at some position of `hay` |
| Strings.Find | src/parsers.py:60 | `str.find` is -1 exactly when the needle does not occur, and otherwise a position within the text |
| Strings.FindFirst | src/parsers.py:60 | a position `str.find` returns is where the needle occurs, and it occurs nowhere earlier |
| Strings.Join | src/parsers.py:48 | joining nothing gives "", one part gives that part, and the result starts with the first part |
| Strings.SplitJoin | src/parsers.py:102-103 | a line joined with a one-character separator that no part contains splits back into its parts, so each sh line gives back its row's cells |
| Strings.NatToString | src/parsers.py:210 | `str(n)` is decimal digits with no leading zero |
| Strings.NatToStringRoundTrip | src/parsers.py:210 | the digits of `str(n)` read back as `n` |
| Strings.IntToString | src/parsers.py:210 | `str(i)` of a negative number is "-" followed by the digits of its magnitude |
| Strings.LessIrreflexive | src/parsers.py:76 | no string is less than itself under Python's string order |
| Strings.LessAsymmetric | src/parsers.py:76 | if a < b then not b < a |
| Strings.LessSplit | src/parsers.py:76 | if a < c then a < b or b < c, for any b; so "not less than" is transitive |
| Strings.LessTotal | src/parsers.py:76 | two strings neither of which is less than the other are equal |
| Strings.IndexOf | src/parsers.py:72 | `list.index` finds the first position holding the value; it is None (ValueError) exactly when the value is absent |
| Sorting.SortDesc | src/parsers.py:76 | `sorted(..., reverse=True)` returns a permutation of its input with the same length |
| Sorting.SortDescNonIncreasing | src/parsers.py:76 | the sorted rows are non-increasing in the key column |
| Sorting.SortDescStable | src/parsers.py:76 | rows with equal keys keep their relative order |
| Sorting.SortDescOfSorted | src/parsers.py:76 | rows already non-increasing in the key come back unchanged |
| TimeFormat.Segments | src/parsers.py:37-47 | at most one segment per period, each with value at least 1 |
| TimeFormat.TdFormat | src/parsers.py:34-48 | the loop over day, hour and minute returns the specification text `TdText` |
| TimeFormat.TdSegments | src/parsers.py:37-47 | the segments are the non-zero days, hours and minutes, in that order, each period taken only when the remainder strictly exceeds it |
| TimeFormat.TdTextIs | src/parsers.py:34-48 | the text is that of the duration's whole days, then hours, then minutes, each left out when zero |
| TimeFormat.TdBreakdown | src/parsers.py:43-45 | days·86400 + hours·3600 + minutes·60 + dropped seconds is the input; hours ≤ 24, minutes ≤ 60, dropped ≤ 60; at most 60 seconds gives no segment |
| TimeFormat.TdTextEmptyIff | src/parsers.py:34-48 | the result is "" exactly when the duration is at most 60 seconds, negative durations included |
| TimeFormat.TdSegmentOrder | src/parsers.py:37-47 | every segment is a day, hour or minute with value ≥ 1, in strictly increasing unit rank |
| TimeFormat.SegmentPlural | src/parsers.py:46-47 | a segment's text ends in "s" exactly when its value is more than one |
| TimeFormat.TdTextUnderAMinute | src/parsers.py:34-48 | 59, 60 and -5 seconds render as "" |
| TimeFormat.TdTextOneMinute | src/parsers.py:34-48 | 61 seconds render as "1 minute" |
| TimeFormat.TdTextOneHour | src/parsers.py:34-48 | 3600 seconds render as "60 minutes" |
| TimeFormat.TdTextHourAndMinute | src/parsers.py:34-48 | 3661 seconds render as "1 hour 1 minute" |
| TimeFormat.TdTextOneDay | src/parsers.py:34-48 | 86400 seconds render as "24 hours" |
| TimeFormat.TdTextDayAndHour | src/parsers.py:34-48 | 90000 seconds render as "1 day 60 minutes" |
| TimeFormat.TdTextTwoDays | src/parsers.py:34-48 | 172800 seconds render as "2 days" |
| Parsers.MakeItShine | src/parsers.py:28-31 | the label is the colour code, then the text unchanged, then the reset code |
| Parsers.ShineShowsColour | src/parsers.py:28-31 | with two distinguishable colour codes, a label starts with green exactly when green was chosen and with red exactly when red was |
| Parsers.ColumnsAreHeaderIndexes | src/parsers.py:55-56 | `header.index` finds "Env" (EC2) or "Address" (RDS) and "State" at the columns the filters use |
| Parsers.FilterParsedData | src/parsers.py:53-69 | the env loop (skipped for env "all") and the state loop (replaced by all of the data for state "all") build `Selected`: the env matches, then the state matches |
| Parsers.SortParsedData | src/parsers.py:51-76 | the filter loops and the optional sort return `SortParsed`: the selected rows, sorted on the column whose lower-cased header is order_by, if any |
| Parsers.KeepCount | src/parsers.py:58-66 | a filter pass keeps each row as often as it occurs in the input if its cell contains the needle, and never otherwise |
| Parsers.KeepAll | src/parsers.py:58-66 | a pass in which every row matches keeps the input unchanged |
| Parsers.SelectedCount | src/parsers.py:58-69 | with a state filter, a row occurs as often as the env pass keeps it (only when env is not "all") plus as often as the state pass keeps it for `state.lower()`; a row matching both appears twice |
| Parsers.AllStatesKeepsEveryRow | src/parsers.py:63-69 | with state "all" the result is a permutation of the input with the same length, whatever env and order_by are |
| Parsers.OrderBy | src/parsers.py:71-76 | an order_by that is no lower-cased header returns the filtered rows in order; otherwise the result is a permutation of them, non-increasing in that column, stable on equal keys |
| Parsers.LowerHeaders | src/parsers.py:72 | the accepted sort keys are the lower-cased EC2 and RDS headers |
| Parsers.OrderByIsCaseSensitive | src/parsers.py:72-74 | an order_by with a capital letter never sorts |
| Parsers.ShLines | src/parsers.py:102-103 | one line per row, each the row's cells joined by the separator |
| Ec2.TagMap | src/parsers.py:132-137 | the tag map always has "Name" and "environment" |
| Ec2.TagMapLastWins | src/parsers.py:132-137 | the map holds exactly the two defaults and every tag key; each key maps to the value of its last tag, else "<None>" |
| Ec2.GetInstanceTags | src/parsers.py:132-137 | the loop over the tags builds `TagMap` |
| Ec2.GetInstanceState | src/parsers.py:139-147 | the code is passed on; without colour the name is unchanged; with colour it is shone green for code 16 and red otherwise |
| Ec2.StateColourIff | src/parsers.py:139-147 | with colour on, the label starts with green exactly when the code is 16 and with red exactly when it is not |
| Ec2.GetCorrectStateKey | src/parsers.py:149-152 | the launch time is used exactly when the reason is empty, else the reason |
| Ec2.LastParenthesisedSpec | src/parsers.py:161-163 | on one line, the capture exists exactly when some "(" precedes some ")"; it then follows a "(", ends at the last ")", and holds no "(" |
| Ec2.ReasonTimestampSpec | src/parsers.py:161-163 | the regular expression matches exactly when the reason, less one final newline, has no newline and some "(" precedes some ")" |
| Ec2.GetInstanceStateTime | src/parsers.py:154-168 | a code other than 16 and 80 gives "No Info" |
| Ec2.GetInstanceStateTimeRunning | src/parsers.py:155-158 | code 16 succeeds exactly with the launch time, giving `td_format(now - launch)`; given a reason it fails |
| Ec2.GetInstanceStateTimeStopped | src/parsers.py:160-166 | code 80 succeeds exactly with a reason whose parenthesised text the parser accepts, giving `td_format(now - t)`; given the launch time it fails; with no match it fails with the no-match error |
| Ec2.PublicIp | src/parsers.py:125-126 | "<None>" exactly when the address is absent, empty or itself "<None>"; the address otherwise |
| Ec2.ParseInstanceData | src/parsers.py:113-130 | a parsed row has one cell per EC2 header |
| Ec2.ParseInstanceDataSpec | src/parsers.py:113-130 | a missing tag list fails first; otherwise the row fails exactly when the state time does, and is [Name tag, state label, state time, public IP, environment tag, instance id] |
| Ec2.ParseAllSpec | src/parsers.py:105-111 | the parse succeeds exactly when every instance of every reservation does, with their rows in order; otherwise it carries the first failing instance's error |
| Ec2.ParseAllFits | src/parsers.py:105-111 | every parsed row has a cell for each EC2 column |
| Ec2.ParseAllNext | src/parsers.py:107-109 | the rows after one more reservation are the rows so far followed by that reservation's rows, unless one of its instances fails |
| Ec2.ParseAllStops | src/parsers.py:107-109 | the first reservation with a failing instance decides the outcome of the whole parse |
| Ec2.ParseInstances | src/parsers.py:108-109 | the inner loop over one reservation's instances collects their rows in order, or stops at the first error |
| Ec2.ParseApiData | src/parsers.py:105-111 | the loop over the reservations returns `ParseAll` over the instances of all reservations |
| Rds.GetDbInstanceState | src/parsers.py:213-217 | without colour the status is unchanged; with colour it is the green code, the status and the reset when the status is "available", and the same with the red code otherwise |
| Rds.DbStateColourIff | src/parsers.py:213-217 | with colour on, the label starts with green exactly when the status is "available" and with red otherwise |
| Rds.GetInstanceEndpoint | src/parsers.py:219-220 | the address and port of the endpoint; a missing endpoint fails |
| Rds.ParseDbInstanceData | src/parsers.py:205-211 | a parsed row has one cell per RDS header |
| Rds.ParseDbInstanceDataSpec | src/parsers.py:205-211 | a record fails exactly when it has no endpoint; otherwise the row holds the cluster id or "<None>", the state label, the address, and `str(port)`: the port's digits without leading zeros, after a "-" when negative, reading back as the port |
| Rds.ParseDbExample | src/parsers.py:205-211 | a complete record for "db1" gives ["db1", "available", "db1.example", "5432"] |
| Rds.ParseApiData | src/parsers.py:188-193 | the record loop returns the collected rows, or the first failing record's error |
| Rds.ParseApiDataSpec | src/parsers.py:188-193 | rows come out exactly when every record has an endpoint, one per record in order, each with a cell per RDS column |
| IdDedup.Dedup | src/aws.py:75 | the result is never longer than the input |
| IdDedup.DedupSameIds | src/aws.py:75 | the result holds exactly the ids of the input, with no id twice |
| IdDedup.DedupFirstSeenOrder | src/aws.py:75 | the ids appear in the order of their first occurrence in the input |
| IdDedup.DedupOfDistinct | src/aws.py:88 | ids without repeats come back unchanged |
| IdDedup.DedupIdempotent | src/aws.py:88 | removing repeats twice is removing them once |

## Left out

- The AWS calls and what surrounds them: `describe_instances`, `describe_db_instances`, start/stop of instances and clusters, and the `sys.exit(-1)` on an empty response. These are network calls. The model starts from the records they return.
- Table rendering with `tabulate`, the `print` calls, and the fancy coloured headers. These are third-party output.
- The colorama constants. The colour and reset codes are the `Palette` parameter.
- The clock and the date parser. The current time `now` and the parser `parseTime` are parameters, in whole seconds. `LaunchTime` is an integer.
- TimeFormat.TdFormat: takes whole seconds, so the truncation `int(total_seconds())` of a fractional duration is not modelled.
- Strings.Lower: models `str.lower` on ASCII letters only; other Unicode case mappings are not modelled.
- Parsers.SortParsedData: requires every row to have a cell for each header column. The source raises IndexError only on a row too short for a column it reads: the env column, column 1, or the sort column. A shorter row that no pass reads goes through unchanged, and this model excludes such rows. Rows from both parsers always fit (`Ec2.ParseAllFits`, `Rds.ParseApiDataSpec`).
- Parsers.FilterParsedData: requires the same of its rows, for the same reason.
- A `None` cell in a row, which makes the env filter raise. Model rows hold strings only.
- Missing record fields other than `Tags`, `PublicIpAddress`, `StateTransitionReason`, `DBClusterIdentifier` and `Endpoint`. Records are typed values in which every other field is present, so the model does not capture what the source does when one is missing:
  - `Instances` in a reservation, or `State` in an instance: iterating over or calling `.get` on `None` raises.
  - `InstanceId`: the row carries `None`.
  - The state's `Name`: with colour on, `make_it_shine` raises TypeError (src/parsers.py:30); without colour the row carries `None`.
  - The state's `Code`: the time is "No Info", and with colour the label is red.
  - `LaunchTime` when the reason is empty: code 16 raises TypeError at src/parsers.py:157, and code 80 raises in `re.search`.
  - A tag's `Key` or `Value`: KeyError at src/parsers.py:135.
  - `DBInstanceStatus`: with colour on, `make_it_shine` raises; without colour the row carries `None`.
  - The endpoint's `Address`: the row carries `None`.
  - The endpoint's `Port`: the cell is `str(None)`, that is "None" (src/parsers.py:210, 220).
- A record field of the wrong type.
- The rest of `src/aws.py`: the click commands, options, confirmation prompts and global clients. Also `bulk_start` and `bulk_stop`, which call `sort_parsed_data` without its `state` argument, so they raise TypeError before any start or stop.
- The top-level `aws.py` imports parser classes from a module that is not part of this model. `setup.py` is packaging metadata.
