# JSON log analyzer — a verified model

This project models `JsonLogAnalyzer`, the analysis engine of the JSON Logs
MCP server (`json_logs_mcp_server.py:24-268`). The analyzer does four things:

- It keeps a catalog of the `*.log*` files in one directory: a dictionary from
  file name to descriptor (path, size, modification time).
- It reads a file line by line and parses each line into a log entry. A line
  that is not valid JSON, lacks a required field or has an unparsable
  timestamp is skipped.
- It answers three queries over the entries of several files:
  - `query_logs`: conjunctive filters, newest first, cut at a limit;
  - `aggregate_logs`: a group-by with per-group counts and first and last timestamps;
  - `get_log_stats`: corpus-level statistics.
- Each multi-file query skips a file that cannot be resolved or read.

## Modules

| module | file | models |
|---|---|---|
| `Wrappers` | wrappers.dfy | `Option` and `Result` |
| `Text` | text.dfy | ASCII `upper`/`lower`, substring `in`, code-point order, `sorted` of a string set |
| `Sorting` | sorting.dfy | `list.sort(key=…, reverse=True)`: a stable sort into non-increasing key order |
| `Counting` | counting.dfy | dict key order (first-seen) and counters |
| `Entries` | entries.dfy | `parse_log_entry`, the line loop of `read_log_file`, `min`/`max` of timestamps |
| `Catalog` | catalog.dfy | the directory scan, the catalog dictionary, name resolution, file reads, the multi-file loop |
| `Query` | query.dfy | the filters, ordering and truncation of `query_logs` |
| `Aggregation` | aggregate.dfy | the grouping and statistics of `aggregate_logs` |
| `Statistics` | stats.dfy | the running totals of `get_log_stats` |
| `Analyzer` | analyzer.dfy | class `JsonLogAnalyzer`, whose methods update the catalog in place, and the loops of its operations |

The outside world is given to each method as a value. `Disk` holds the
directory listing and each file's lines, or the fact that the file cannot be
read. Three library calls are function-valued fields of `Codecs`, and nothing
is assumed about them:

- `json.loads` of the stripped line;
- `datetime.fromisoformat`;
- `strftime("%Y-%m-%d %H:00")`.

The catalog is the class's fields `cache` (the dictionary) and `order` (its
key order, which a Python dict keeps). Each method that loops in the source
is a Dafny method with a loop, proved against a specification function. The
file loop is specified by `Catalog.Gather`, the grouping loop by
`Aggregation.GroupsOf`, the statistics loop by `Statistics.TallyOf`, and the
line loop by `Entries.ParseAll`. Lemmas then state what those functions mean.

Timestamps are integers: an instant on one time line.

## Model

| member | source | states |
|---|---|---|
| Entries.ParseLogEntry | json_logs_mcp_server.py:58-70 | a line yields an entry exactly when it decodes to an object with all six required fields, string-valued text fields and a timestamp that parses; the entry carries the record plus `parsed_timestamp`, all other lines give None |
| Entries.ParseLogEntryAsWritten | json_logs_mcp_server.py:58-70 | the code as written: a line that does not decode is skipped; a line is parsed exactly when it decodes to an object with the six fields whose timestamp is a string that parses, and the result is then that record with `parsed_timestamp` set to the parsed instant; the code raises exactly on the shapes RaisesOn names (a number, boolean or null; an object with the six fields and a non-string timestamp; a string or array in which all six names occur), and every other string or array line is skipped |
| Entries.NumberLineRaises | json_logs_mcp_server.py:61-68 | a line decoding to the number 42 raises as written, and the corrected parser skips it |
| Entries.NumericTimestampRaises | json_logs_mcp_server.py:64-68 | a record with a numeric timestamp raises as written, and the corrected parser skips it |
| Entries.ParseAgreesAsWritten | json_logs_mcp_server.py:58-70 | on every line except an object holding the six fields with a non-string level, message, module or function: the corrected parser accepts exactly the lines the code as written parses, with the same record and instant, and returns None wherever the code raises |
| Entries.HasRequired | json_logs_mcp_server.py:63-64 | the `all(field in entry ...)` test: all six required keys are present; ParseLogEntry and ParseLogEntryAsWritten state that a record parses only when it holds |
| Entries.RaisesOn | json_logs_mcp_server.py:61-68 | the decoded values on which the source raises an uncaught TypeError: a number, boolean or null (`in` at :64), a record with the required fields and a non-string timestamp (`fromisoformat` at :65), and a string or list that contains all six field names (so :64 passes and :65 indexes it); ParseLogEntryAsWritten raises exactly on these |
| Entries.NumericLevelAccepted | json_logs_mcp_server.py:64-67 | a record with all six fields, a parsable timestamp and the number 1 as level is parsed by the code as written and rejected by the corrected parser |
| Entries.MinTs | json_logs_mcp_server.py:211-212 | `min` of the timestamps: a lower bound that some entry attains |
| Entries.MaxTs | json_logs_mcp_server.py:213-214 | `max` of the timestamps: an upper bound that some entry attains |
| Entries.ParseAll | json_logs_mcp_server.py:84-90 | the entries kept from some lines: no more entries than lines, and every entry well formed (its typed fields agree with its record, which carries `parsed_timestamp`) |
| Entries.Examined | json_logs_mcp_server.py:84-86 | the lines examined under `max_lines` are a prefix of the file |
| Entries.ParseAllSubsequence | json_logs_mcp_server.py:84-90 | the entries are, in order, those of the parsable lines: the j-th comes from the j-th parsable line, the indices increase, and no parsable line is dropped |
| Entries.ParseAllAppend | json_logs_mcp_server.py:84-90 | parsing two runs of lines gives the entries of the first followed by those of the second |
| Entries.BoundedRead | json_logs_mcp_server.py:85-86 | a positive cap n yields at most n entries, a negative cap none, and no cap (None or 0) the whole file's entries |
| Entries.BoundedReadPrefix | json_logs_mcp_server.py:84-90 | a capped read returns a prefix of the uncapped read's entries |
| Text.Upper | json_logs_mcp_server.py:123 | `upper()` keeps the length and maps each character to its upper-case form |
| Text.Lower | json_logs_mcp_server.py:135 | `lower()` keeps the length and maps each character to its lower-case form |
| Text.Contains | json_logs_mcp_server.py:135 | Python's `needle in hay` on strings, also used for the `.log` test of :39; ContainsAt proves it holds exactly when the needle occurs at some offset |
| Text.ContainsAt | json_logs_mcp_server.py:135 | the substring test holds exactly when the needle occurs at some offset |
| Text.InsertSorted | json_logs_mcp_server.py:260 | inserting a new string into a strictly sorted list keeps it strictly sorted and adds exactly that string |
| Text.SortedList | json_logs_mcp_server.py:260 | `sorted(list(modules))` is strictly increasing and has exactly the set's elements, each once |
| Text.Less | json_logs_mcp_server.py:260 | the `<` that `sorted` uses on strings: code-point lexicographic order; LessIrreflexive, LessTransitive and LessTotal prove it a strict total order |
| Text.SortedUnique | json_logs_mcp_server.py:260 | two strictly sorted lists of the same strings are equal, so `sorted(list(modules))` depends only on the set |
| Sorting.InsertDesc | json_logs_mcp_server.py:50 | insertion keeps a non-increasing order and adds exactly one element |
| Sorting.SortDesc | json_logs_mcp_server.py:50 | the reverse sort is non-increasing in the key and a permutation of its input |
| Sorting.SortDescStable | json_logs_mcp_server.py:159 | the sort is stable: entries with equal keys keep their relative order |
| Counting.FirstSeen | json_logs_mcp_server.py:196-198 | the key order of a dict filled by inserting the items in turn; FirstSeenKeys and FirstSeenDistinct state what it holds |
| Counting.Histogram | json_logs_mcp_server.py:239 | the counter dict `d[k] = d.get(k, 0) + 1` after every item: each occurring item mapped to its number of occurrences; HistogramKeys, HistogramTotal and HistogramStep state its properties |
| Counting.FirstSeenKeys | json_logs_mcp_server.py:196-198 | a dict's key order lists every inserted key exactly once and nothing else |
| Counting.FirstSeenDistinct | json_logs_mcp_server.py:51 | keys inserted without repetition keep their insertion order |
| Counting.OccPositive | json_logs_mcp_server.py:239 | a key has a positive count exactly when it occurs |
| Counting.HistogramTotal | json_logs_mcp_server.py:239 | the counters of a dict filled from a sequence add up to its length |
| Counting.HistogramKeys | json_logs_mcp_server.py:239 | the counter dict has a key for exactly the items that occur |
| Counting.HistogramStep | json_logs_mcp_server.py:239 | `d[k] = d.get(k, 0) + 1`: a new key starts at 1, a known one goes up by 1 |
| Catalog.LogFiles | json_logs_mcp_server.py:38-47 | the scan keeps at most as many descriptors as the directory has entries |
| Catalog.LogFilesFrom | json_logs_mcp_server.py:39-47 | the scan keeps exactly the regular files whose name contains ".log", and distinct names stay distinct |
| Catalog.NewestFirst | json_logs_mcp_server.py:49-50 | `sort(key=modified, reverse=True)` via Sorting.SortDesc; that it is newest first and a permutation is stated by CatalogListing |
| Catalog.Scan | json_logs_mcp_server.py:34-50 | the descriptor list of a refresh: none for a missing directory, else the log files newest first; what it holds is stated by CatalogListing and CatalogNames |
| Catalog.ToMap | json_logs_mcp_server.py:51 | the dict comprehension, a later descriptor of a name replacing an earlier one; its keys and values are stated by ToMapValues, ToMapKeys and ToMapRoundTrip |
| Catalog.KeyOrder | json_logs_mcp_server.py:51 | the key order of the comprehension's dict: each name once, where it first appears; ToMapKeys and ToMapRoundTrip state it |
| Catalog.CatalogOf | json_logs_mcp_server.py:34-51 | the dict _refresh_log_files installs: empty for a missing directory, otherwise the scan keyed by name; CatalogNames states its keys |
| Catalog.CatalogOrder | json_logs_mcp_server.py:34-51 | the key order of that dict; CatalogListing states that its values in this order are the matching files newest first |
| Catalog.NameList | json_logs_mcp_server.py:51 | the names of the descriptors, one per descriptor, in order |
| Catalog.ToMapValues | json_logs_mcp_server.py:51 | the dict comprehension has exactly the descriptors' names as keys, each mapped to a descriptor of that name |
| Catalog.ToMapKeys | json_logs_mcp_server.py:51 | as ToMapValues, and the key order lists each key once |
| Catalog.ToMapRoundTrip | json_logs_mcp_server.py:51 | with distinct names, the key order is the list's order and each name maps back to its own descriptor |
| Catalog.ToMapLast | json_logs_mcp_server.py:51 | with distinct names, every descriptor is the value under its name |
| Catalog.ListingRoundTrip | json_logs_mcp_server.py:51-56 | with distinct names, the dict's values in key order are the list it was built from |
| Catalog.ScanDistinct | json_logs_mcp_server.py:39-50 | the newest-first list of a directory with distinct names has distinct names |
| Catalog.CatalogListing | json_logs_mcp_server.py:32-56 | after a refresh: a missing directory gives an empty catalog; otherwise listing it gives the matching files, each once, newest first, a permutation of the scan |
| Catalog.CatalogNames | json_logs_mcp_server.py:32-51 | after a refresh the catalog holds exactly the regular `*.log*` files in the directory; names no longer listed are gone |
| Catalog.Resolve | json_logs_mcp_server.py:74-79 | a cached name is served without a refresh; a miss replaces the catalog by a fresh one and retries once; a descriptor is found exactly when the name is in the resulting catalog |
| Catalog.ContentAt | json_logs_mcp_server.py:83 | `open(file_path)`: the lines of the file at that path, or an unreadable file when there is none; Read maps the unreadable case to ReadError |
| Catalog.Read | json_logs_mcp_server.py:72-94 | the catalog after the read is the old one on a hit and the fresh one on a miss; NotFound exactly when the name is not in that catalog; ReadError exactly when the file at its descriptor's path cannot be read; otherwise the entries of the examined lines of that file |
| Catalog.IsLogName | json_logs_mcp_server.py:39 | the glob `*.log*`: the name contains ".log" |
| Catalog.Listing | json_logs_mcp_server.py:56 | `list(cache.values())`: the descriptors in key order; with a fresh catalog of a directory with distinct names it is the scan itself, by ListingRoundTrip and CatalogListing |
| Catalog.Gather | json_logs_mcp_server.py:107-117 | the file loop leaves either the catalog it started with or the fresh one, and leaves the catalog untouched when every name read is already in it |
| Catalog.GatherNext | json_logs_mcp_server.py:112-117 | one more file: its entries are appended when the read succeeds, and the catalog is the one the read leaves |
| Catalog.GatherFresh | json_logs_mcp_server.py:112-117 | started on a fresh catalog, a multi-file read never changes it |
| Catalog.GatherSettles | json_logs_mcp_server.py:112-117 | repeating a multi-file read with no change on disk: from the second run on, the catalog and the result stay the same |
| Query.Given | json_logs_mcp_server.py:123-148 | a filter argument restricts only when it is truthy: present and not empty |
| Query.Bound | json_logs_mcp_server.py:140-154 | a time bound applies only when given and parsable by `fromisoformat`; a ValueError leaves it out |
| Query.Matches | json_logs_mcp_server.py:122-154 | the six filters of the loop, each applied only when its argument is truthy, a time bound only when it parses; what the filter keeps is stated by FilterExact |
| Query.FilterEntries | json_logs_mcp_server.py:119-156 | the matching entries in input order; stated by FilterCounts, FilterExact, NoRestriction and FilterMonotone |
| Query.QueryResult | json_logs_mcp_server.py:158-160 | the filtered entries sorted newest first and cut at `limit`; stated by QueryProperties |
| Query.FilterCounts | json_logs_mcp_server.py:119-156 | each matching entry is kept as often as it occurs, and no other entry is kept |
| Query.FilterExact | json_logs_mcp_server.py:119-156 | the filtered entries are exactly the entries that satisfy every supplied predicate, as a sub-multiset of the input |
| Query.NoRestriction | json_logs_mcp_server.py:119-156 | when every filter is omitted or empty and no time bound parses, every entry is kept in order |
| Query.FilterMonotone | json_logs_mcp_server.py:119-156 | dropping filter arguments never removes a match |
| Query.PrefixTo | json_logs_mcp_server.py:160 | `s[:limit]` is a prefix with min(limit, \|s\|) elements; a negative limit drops that many from the end |
| Query.PrefixOfSorted | json_logs_mcp_server.py:158-160 | a prefix of a newest-first list is newest first, and nothing left out is newer than anything kept |
| Query.QueryProperties | json_logs_mcp_server.py:119-160 | every result matches all filters; results run newest first; there are min(limit, #matches) of them; a large enough limit returns every match; nothing cut off is newer than anything returned |
| Query.LevelIgnoresCase | json_logs_mcp_server.py:123 | level "error" selects exactly the entries whose upper-cased level is "ERROR" |
| Aggregation.KeyOf | json_logs_mcp_server.py:180-194 | the group key of one entry; on a parsed entry, for every `group_by` but "hour", it is `entry.get(group_by, "UNKNOWN")` on the record |
| Aggregation.GroupOf | json_logs_mcp_server.py:196-198 | `groups[k]`: the entries appended under key k; GroupOfExact states that it holds exactly the entries with that key, in order |
| Aggregation.Keys | json_logs_mcp_server.py:180-194 | one key per entry, in entry order |
| Aggregation.GroupOfExact | json_logs_mcp_server.py:196-198 | a group holds exactly the entries with its key, as many as the key occurs |
| Aggregation.GroupsOfExact | json_logs_mcp_server.py:178-198 | the `groups` dict has a key exactly when some entry has it, and under it that key's entries in order |
| Aggregation.GroupsOf | json_logs_mcp_server.py:178-198 | the `groups` dict after the entries, each appended to the list under its key; stated by GroupsOfExact |
| Aggregation.KeysSnoc | json_logs_mcp_server.py:180-198 | one more entry appends its key |
| Aggregation.GroupsOrderStep | json_logs_mcp_server.py:196-198 | one more entry: a new key joins the dict's key order |
| Aggregation.GroupsNext | json_logs_mcp_server.py:180-198 | the grouping loop's step: the key order and the dict after one more entry |
| Aggregation.StatsOf | json_logs_mcp_server.py:208-215 | a group's count is its size, and its first timestamp is at most its last |
| Aggregation.GroupsCover | json_logs_mcp_server.py:196-207 | the result's key order lists exactly the dict's keys |
| Aggregation.GroupOfNonEmpty | json_logs_mcp_server.py:196-198 | a group that exists is non-empty and no larger than the input |
| Aggregation.StatsMap | json_logs_mcp_server.py:207-215 | the statistics of each group under its own key and no other key; what they hold is stated by AggregateAt and AggregateTimeBounds |
| Aggregation.Aggregate | json_logs_mcp_server.py:200-217 | the result of aggregate_logs on the gathered entries; stated by AggregateKeys, AggregateCounts and AggregateTimeBounds |
| Aggregation.AggregateKeys | json_logs_mcp_server.py:178-217 | `total_entries` is the number of entries; the keys are distinct and exactly the groups'; every entry's key has a group; there are no groups exactly when there are no entries |
| Aggregation.AggregateCounts | json_logs_mcp_server.py:196-209 | each group's count is the number of entries under its key, and the counts add up to `total_entries` |
| Aggregation.AggregateTimeBounds | json_logs_mcp_server.py:211-214 | a group's `first_seen` and `last_seen` are the least and greatest timestamps of its entries, and both are attained |
| Aggregation.AggregateAt | json_logs_mcp_server.py:207-215 | the statistics under a key are those of its non-empty group |
| Statistics.Levels | json_logs_mcp_server.py:238 | the level of every entry, in order |
| Statistics.Describes | json_logs_mcp_server.py:256-268 | the fields of get_log_stats' result in terms of the selected files and the entries read; what follows from it is stated by StatsConsistent |
| Statistics.DescribesUnique | json_logs_mcp_server.py:256-268 | two reports that both describe the same files and entries are equal |
| Statistics.StatsConsistent | json_logs_mcp_server.py:256-268 | the level counts add up to `total_entries`; the modules come sorted without duplicates; the time range is absent exactly when no entry was read; otherwise earliest <= every timestamp <= latest, both attained |
| Statistics.LevelCountsPositive | json_logs_mcp_server.py:238-239 | every reported level has a positive count, and every entry's level is reported |
| Statistics.LevelOrderStep | json_logs_mcp_server.py:239 | one more entry: a new level joins the `levels` key order |
| Statistics.LevelCountStep | json_logs_mcp_server.py:239 | one more entry: its level's count starts at 1 or goes up by 1 |
| Statistics.NameSetsStep | json_logs_mcp_server.py:242-243 | one more entry adds its module and function to the sets |
| Statistics.MinSnoc | json_logs_mcp_server.py:248-249 | one more entry: the earliest is the smaller of the old earliest and the new timestamp |
| Statistics.MaxSnoc | json_logs_mcp_server.py:250-251 | one more entry: the latest is the larger of the old latest and the new timestamp |
| Statistics.TimeStep | json_logs_mcp_server.py:246-251 | the source's update of the running earliest and latest is the least and greatest timestamp so far |
| Statistics.Count | json_logs_mcp_server.py:236-251 | one entry counted by get_log_stats; its effect on each total is stated by TallyCounts, TallyOrder, TallyNames and TallyTimes |
| Statistics.TallyOf | json_logs_mcp_server.py:224-251 | the totals after counting the entries in order; stated by TallyOfMeans |
| Statistics.TallyCounts | json_logs_mcp_server.py:234-239 | the running total is the number of entries, and the running `levels` dict is the level histogram |
| Statistics.TallyOrder | json_logs_mcp_server.py:239 | the running `levels` key order is the first-seen order of the levels |
| Statistics.TallyNames | json_logs_mcp_server.py:242-243 | the running module and function sets are those of the entries |
| Statistics.TallyTimes | json_logs_mcp_server.py:246-251 | the running earliest and latest are the least and greatest timestamps |
| Statistics.TallyOfMeans | json_logs_mcp_server.py:224-251 | the totals after the loop are the entry count, the level histogram in first-seen order, the module and function sets, and the least and greatest timestamps |
| Statistics.TallyNext | json_logs_mcp_server.py:236-251 | the counting loop's step: one more entry counted |
| Analyzer.JsonLogAnalyzer.constructor | json_logs_mcp_server.py:27-30 | a new analyzer holds the catalog of a fresh refresh |
| Analyzer.JsonLogAnalyzer.RefreshLogFiles | json_logs_mcp_server.py:32-51 | the catalog and its key order are replaced by those of the current directory, whatever they were before |
| Analyzer.JsonLogAnalyzer.GetLogFiles | json_logs_mcp_server.py:53-56 | always refreshes; returns the catalog's values in key order, which for a directory with distinct names are the matching files newest first |
| Analyzer.JsonLogAnalyzer.ReadLogFile | json_logs_mcp_server.py:72-94 | implements Read: a hit leaves the catalog as it was, a miss leaves it refreshed; NotFound exactly when the name is still missing; otherwise the parsed examined lines, or ReadError for an unreadable file |
| Analyzer.JsonLogAnalyzer.GatherEntries | json_logs_mcp_server.py:111-117 | the file loop computes Gather: the catalog and the concatenated entries of the files that resolve and read; the catalog and its key order are either left as they were or those of a fresh refresh; when every selected name is already cached neither changes |
| Analyzer.JsonLogAnalyzer.Selected | json_logs_mcp_server.py:107-109 | the files of a query: the ones given, else the catalog's names in key order, taken without a refresh |
| Analyzer.JsonLogAnalyzer.QueryLogs | json_logs_mcp_server.py:96-160 | the result is QueryResult of the gathered entries, whose properties QueryProperties states; the catalog is the one the reads leave, and it and its key order are either unchanged or freshly refreshed; when every selected name is already cached neither changes, so with `files` omitted the catalog and its order stay as they were |
| Analyzer.JsonLogAnalyzer.AggregateLogs | json_logs_mcp_server.py:162-217 | the result is Aggregate of the gathered entries, whose properties AggregateKeys, AggregateCounts and AggregateTimeBounds state; the catalog and its key order are either unchanged or freshly refreshed; when every selected name is already cached neither changes, so with `files` omitted the catalog and its order stay as they were |
| Analyzer.JsonLogAnalyzer.GetLogStats | json_logs_mcp_server.py:219-268 | the result describes the selected files and the gathered entries: the file and entry counts, the level histogram in first-seen order, the sorted modules, the distinct function count and the time range; the catalog and its key order are either unchanged or freshly refreshed; when every selected name is already cached neither changes, so with `files` omitted the catalog and its order stay as they were |
| Analyzer.RepeatedStats | json_logs_mcp_server.py:219-268 | two get_log_stats() calls in a row with nothing changed on disk return the same report and leave the catalog and its order as they were |
| Analyzer.FilterAll | json_logs_mcp_server.py:119-156 | the filter loop returns the entries that pass every supplied filter, in order, as FilterEntries specifies |
| Analyzer.GroupEntries | json_logs_mcp_server.py:178-198 | the grouping loop gives the first-seen key order and the `groups` dict of GroupsOf |
| Analyzer.AddToGroup | json_logs_mcp_server.py:196-198 | a new key joins the key order with the entry as its list; a known key gets the entry appended |
| Analyzer.Summarise | json_logs_mcp_server.py:207-215 | the statistics loop gives each group's statistics under its key, and no others |
| Analyzer.CountEntry | json_logs_mcp_server.py:237-251 | one entry counted, as Count specifies |
| Analyzer.TallyAll | json_logs_mcp_server.py:236-251 | counting a file's entries in order continues the fold TallyOf over everything read before |
| Analyzer.ParseLines | json_logs_mcp_server.py:84-90 | the line loop returns the entries of the examined lines, in order |

## Left out

- Transport and tool wiring are not modelled: the MCP server, its tool schemas, JSON encoding of the results and the command line (`json_logs_mcp_server.py:275-541`), and `simple_mcp_server.py`. This is I/O around the analyzer.
- The module-level singleton and `LOG_DIR` (`json_logs_mcp_server.py:21`, `272`) are not modelled. The directory is whatever `Disk` the caller passes.
- `percentage` (`json_logs_mcp_server.py:210`) and `span_hours` (`json_logs_mcp_server.py:265-266`) are left out because they are rounded floating-point values. `GroupStats` and `CorpusStats` carry the counts and timestamps they are computed from.
- Timestamps are integers. Python's naive and aware datetimes, and the TypeError raised when the two are compared, are not modelled.
- The `datetime.min`/`datetime.max` defaults (`json_logs_mcp_server.py:159`, `212-214`) never arise, because every parsed entry carries `parsed_timestamp`. `isoformat()` of the results is not modelled.
- `modified` is the modification instant as an integer and is sorted as such. The source sorts the local-time `isoformat()` strings. These agree with instant order except where local times repeat, as at a daylight-saving fall-back.
- Case mapping covers ASCII letters only. Python's full Unicode `upper`/`lower` is not modelled.
- JSON decoding, `line.strip()`, `fromisoformat` and `strftime` are not modelled: they are uninterpreted functions in `Codecs`.
- `Value` abstracts JSON values. Python's hashing, where `True == 1` collide as dict keys, is not modelled. Neither is the TypeError on an unhashable group-by value (a list or dict field), which would abort `aggregate_logs`.
- `Catalog.FileContent` is all-or-nothing: a file is either readable in full or unreadable. An I/O or decoding error part-way through a file, which in the source also discards the lines already parsed, is covered by `Unreadable`. The lines read before the error are not modelled.
- The glob `*.log*` is modelled as "the name contains `.log`". Hidden-file and case-sensitivity rules of the host file system are not modelled.
- Concurrency is not modelled: a directory or file changing between the `glob`, the `stat` and the `open` calls.
- Catalog.LogFiles: its own contract is only a length bound. What the scan keeps is stated by `Catalog.LogFilesFrom`.
- Entries.ParseLogEntry: rejects a record whose level, message, module or function field is not a string, although the source accepts it (`json_logs_mcp_server.py:64-67`); `Entries.NumericLevelAccepted` shows such a record. The model drops these lines from every operation. What the source does with them depends on the value. For a hashable value (a number, boolean or null), `aggregate_logs` groups the entry (under key `1` for `level: 1`), `get_log_stats` counts it, and `query_logs` returns it; the source fails on it only later, when `upper()`/`lower()` raise AttributeError at `json_logs_mcp_server.py:123` and `135` under a level or message filter, and when `sorted` raises TypeError at `json_logs_mcp_server.py:260` on modules of mixed types. For an unhashable value (a list or object) in level, module or function, `get_log_stats` raises TypeError at `levels.get(level, 0)` (`json_logs_mcp_server.py:239`) or at `set.add` (`json_logs_mcp_server.py:242-243`), which nothing catches. An unhashable `message` is never read by `get_log_stats` (`json_logs_mcp_server.py:236-251`), which counts the entry. For any unhashable field, `aggregate_logs` groups the entry unless it groups by that field, when it raises TypeError at `json_logs_mcp_server.py:196`; `query_logs` returns the entry, and fails only under a level or message filter on that field, with AttributeError at `json_logs_mcp_server.py:123` or `135`. None of these failures is modelled, because the typed entry holds these fields as strings.
- Aggregation.KeyOf: the hour label is an uninterpreted function of the instant. That entries in the same clock hour share a bucket is therefore not stated.
- Grouping by the name of a non-string field uses that field's `Value` as the key.

## Findings

| source | as written | input that shows it | evidently intended | confidence | as-written member | corrected member |
|---|---|---|---|---|---|---|
| json_logs_mcp_server.py:58-70 | `parse_log_entry` catches only JSONDecodeError, ValueError and KeyError. The membership test `field in entry` and `fromisoformat(entry["timestamp"])` raise TypeError in three cases: the line is a JSON number, boolean or null; the timestamp is not a string; or the line is a string or array in which all six names occur. Inside `read_log_file` that TypeError becomes a RuntimeError, and every multi-file query then skips the whole file. | a line `42`, or `{"timestamp": 1700000000, "level": "INFO", "message": "m", "module": "a", "function": "f", "line": 1}` | such a line is skipped like any other malformed line (`return None`) | not executed | Entries.ParseLogEntryAsWritten (Entries.NumberLineRaises, Entries.NumericTimestampRaises) | Entries.ParseLogEntry |

The rest of the model uses the corrected parser `Entries.ParseLogEntry`. It
also rejects records whose level, message, module or function is not a
string, which the source accepts. "## Left out" lists that difference.
`Entries.ParseAgreesAsWritten` proves the two parsers agree on every line
except such a record.
