/**
 * JsonLogAnalyzer: the log-analysis engine as an object holding the file
 * catalog (`log_files_cache`), whose methods consult and refresh it while
 * reading, filtering, grouping and summarising log files.
 */
module Analyzer {
  import opened Wrappers
  import Text
  import Sorting
  import opened Counting
  import opened Entries
  import opened Catalog
  import opened Query
  import opened Aggregation
  import opened Statistics

  class JsonLogAnalyzer {
    /** json.loads, datetime.fromisoformat and strftime. */
    const codecs: Codecs
    /** log_files_cache: name -> descriptor ... */
    var cache: map<string, Descriptor>
    /** ... and the key order of that dict. */
    var order: seq<string>

    /** The dict's key order lists each key once, and nothing else. */
    ghost predicate Valid()
      reads this
    {
      Distinct(order) && (forall k :: k in order <==> k in cache)
    }

    /** The catalog is the one a refresh of directory d installs. */
    ghost predicate Refreshed(d: Directory)
      reads this
    {
      cache == CatalogOf(d) && order == CatalogOrder(d)
    }

    /** __init__: an empty cache, then a refresh. */
    constructor (c: Codecs, disk: Disk)
      ensures codecs == c
      ensures Valid() && Refreshed(disk.dir)
    {
      codecs := c;
      cache := map[];
      order := [];
      new;
      RefreshLogFiles(disk);
    }

    /**
     * _refresh_log_files: the catalog is replaced wholesale by the current
     * listing (empty for a missing directory); the old catalog plays no part.
     */
    method RefreshLogFiles(disk: Disk)
      modifies this
      ensures Valid() && Refreshed(disk.dir)
    {
      if disk.dir.Missing? {
        cache, order := map[], [];
        return;
      }
      var listing := disk.dir.entries;
      var logFiles: seq<Descriptor> := [];
      var i := 0;
      while i < |listing|
        invariant 0 <= i <= |listing|
        invariant logFiles == LogFiles(listing[..i])
      {
        SlicePrefix(listing, i);
        if listing[i].isFile && IsLogName(listing[i].name) {
          logFiles := logFiles + [Describe(listing[i])];
        }
        i := i + 1;
      }
      assert listing[..i] == listing;
      logFiles := NewestFirst(logFiles);
      cache, order := ToMap(logFiles), KeyOrder(logFiles);
      ToMapKeys(logFiles);
    }

    /** get_log_files: always refreshes first, then lists the catalog in key order, newest first. */
    method GetLogFiles(disk: Disk) returns (files: seq<Descriptor>)
      modifies this
      ensures Valid() && Refreshed(disk.dir)
      ensures files == Listing(cache, order)
      ensures DistinctLogNames(disk.dir) ==> files == Scan(disk.dir) && Sorting.SortedDesc(files, Modified)
    {
      RefreshLogFiles(disk);
      files := Listing(cache, order);
      if DistinctLogNames(disk.dir) {
        CatalogListing(disk.dir);
      }
    }

    /**
     * read_log_file: a cached name is read without a refresh; a missing one
     * triggers exactly one refresh, and is NotFound if still missing. The
     * file's lines are parsed up to the max_lines cap; an unreadable file is
     * a ReadError, with nothing of it returned.
     */
    method ReadLogFile(name: string, maxLines: Option<int>, disk: Disk) returns (r: Result<seq<LogEntry>, FileError>)
      requires Valid()
      modifies this
      ensures Valid()
      ensures Read(codecs, old(cache), disk, name, maxLines) == ReadOutcome(cache, r)
      ensures old(name in cache) ==> cache == old(cache) && order == old(order)
      ensures old(name !in cache) ==> Refreshed(disk.dir)
      ensures r == Err(NotFound(name)) <==> name !in cache
    {
      if name !in cache {
        RefreshLogFiles(disk);
        if name !in cache {
          return Err(NotFound(name));
        }
      }
      var path := cache[name].path;
      var content := ContentAt(disk, path);
      if content.Unreadable? {
        return Err(ReadError(name));
      }
      var entries := ParseLines(codecs, content.lines, maxLines);
      r := Ok(entries);
    }

    /**
     * The file loop shared by query_logs, aggregate_logs and get_log_stats:
     * every file read in full, a file that fails to resolve or to read skipped.
     */
    method GatherEntries(files: seq<string>, disk: Disk) returns (all: seq<LogEntry>)
      requires Valid()
      modifies this
      ensures Valid()
      ensures Gather(codecs, old(cache), disk, files) == Gathered(cache, all)
      ensures (cache == old(cache) && order == old(order)) || Refreshed(disk.dir)
      ensures (forall f :: f in files ==> f in old(cache)) ==> cache == old(cache) && order == old(order)
    {
      all := [];
      var i := 0;
      while i < |files|
        invariant 0 <= i <= |files|
        invariant Valid()
        invariant Gather(codecs, old(cache), disk, files[..i]) == Gathered(cache, all)
        invariant (cache == old(cache) && order == old(order)) || Refreshed(disk.dir)
        invariant (forall f :: f in files ==> f in old(cache)) ==> cache == old(cache) && order == old(order)
      {
        GatherNext(codecs, old(cache), disk, files, i);
        var r := ReadLogFile(files[i], None, disk);
        if r.Ok? {
          all := all + r.value;
        }
        i := i + 1;
      }
      assert files[..i] == files;
    }

    /** The selected files: the ones given, or else the current catalog's names, taken without a refresh. */
    function Selected(files: Option<seq<string>>): seq<string>
      reads this
    {
      if files.Some? then files.value else order
    }

    /**
     * query_logs: the entries of the selected files that pass every filter,
     * newest first, cut at `limit`.
     */
    method QueryLogs(files: Option<seq<string>>, q: Filter, limit: int, disk: Disk) returns (result: seq<LogEntry>)
      requires Valid()
      modifies this
      ensures Valid()
      ensures var g := Gather(codecs, old(cache), disk, old(Selected(files)));
        cache == g.cache && result == QueryResult(codecs, q, g.entries, limit)
      ensures (cache == old(cache) && order == old(order)) || Refreshed(disk.dir)
      ensures (forall f :: f in old(Selected(files)) ==> f in old(cache)) ==> cache == old(cache) && order == old(order)
      ensures files.None? ==> cache == old(cache) && order == old(order)
    {
      var all := GatherEntries(Selected(files), disk);
      var filtered := FilterAll(codecs, q, all);
      filtered := Sorting.SortDesc(filtered, Timestamp);
      result := PrefixTo(filtered, limit);
    }

    /**
     * aggregate_logs: the entries of the selected files grouped by key, in
     * first-seen key order, with each group's count and first and last timestamps.
     */
    method AggregateLogs(files: Option<seq<string>>, groupBy: string, disk: Disk) returns (result: AggregationResult)
      requires Valid()
      modifies this
      ensures Valid()
      ensures var g := Gather(codecs, old(cache), disk, old(Selected(files)));
        cache == g.cache && result == Aggregate(codecs, groupBy, g.entries)
      ensures (cache == old(cache) && order == old(order)) || Refreshed(disk.dir)
      ensures (forall f :: f in old(Selected(files)) ==> f in old(cache)) ==> cache == old(cache) && order == old(order)
      ensures files.None? ==> cache == old(cache) && order == old(order)
    {
      var all := GatherEntries(Selected(files), disk);
      var keys, groups := GroupEntries(codecs, groupBy, all);
      GroupsCover(codecs, groupBy, all);
      var stats := Summarise(keys, groups);
      result := AggregationResult(groupBy, |all|, keys, stats);
    }

    /**
     * get_log_stats: over the selected files (skipping those that fail),
     * the entry total, the level histogram, the sorted distinct modules, the
     * number of distinct functions and the running earliest and latest timestamps.
     */
    method GetLogStats(files: Option<seq<string>>, disk: Disk) returns (s: CorpusStats)
      requires Valid()
      modifies this
      ensures Valid()
      ensures var g := Gather(codecs, old(cache), disk, old(Selected(files)));
        cache == g.cache && Describes(s, old(Selected(files)), g.entries)
      ensures (cache == old(cache) && order == old(order)) || Refreshed(disk.dir)
      ensures (forall f :: f in old(Selected(files)) ==> f in old(cache)) ==> cache == old(cache) && order == old(order)
      ensures files.None? ==> cache == old(cache) && order == old(order)
    {
      var fs := Selected(files);
      ghost var seen: seq<LogEntry> := [];
      var t := Tally(0, [], map[], {}, {}, None, None);
      for i := 0 to |fs|
        invariant Valid()
        invariant Gather(codecs, old(cache), disk, fs[..i]) == Gathered(cache, seen)
        invariant t == TallyOf(seen)
        invariant (cache == old(cache) && order == old(order)) || Refreshed(disk.dir)
        invariant (forall f :: f in fs ==> f in old(cache)) ==> cache == old(cache) && order == old(order)
      {
        GatherNext(codecs, old(cache), disk, fs, i);
        var r := ReadLogFile(fs[i], None, disk);
        if r.Ok? {
          t := TallyAll(t, seen, r.value);
          seen := seen + r.value;
        }
      }
      assert fs[..|fs|] == fs;
      TallyOfMeans(seen);
      var uniqueModules := Text.SortedList(t.modules);
      s := CorpusStats(|fs|, t.total, t.levelOrder, t.levels, uniqueModules, |t.functions|, t.earliest, t.latest);
    }
  }

  /**
   * Two get_log_stats() calls in a row, with nothing changed on disk in
   * between, report the same statistics.
   */
  method RepeatedStats(a: JsonLogAnalyzer, disk: Disk) returns (s1: CorpusStats, s2: CorpusStats)
    requires a.Valid()
    modifies a
    ensures s1 == s2
    ensures a.cache == old(a.cache) && a.order == old(a.order)
  {
    ghost var fs := a.Selected(None);
    ghost var g := Gather(a.codecs, a.cache, disk, fs);
    s1 := a.GetLogStats(None, disk);
    s2 := a.GetLogStats(None, disk);
    DescribesUnique(s1, s2, fs, g.entries);
  }

  /** The filter loop of query_logs: the entries that pass every supplied filter, in order. */
  method FilterAll(c: Codecs, q: Filter, all: seq<LogEntry>) returns (filtered: seq<LogEntry>)
    ensures filtered == FilterEntries(c, q, all)
  {
    filtered := [];
    for i := 0 to |all|
      invariant filtered == FilterEntries(c, q, all[..i])
    {
      assert all[..i + 1][..i] == all[..i];
      var entry := all[i];
      if Given(q.level) && Text.Upper(entry.level) != Text.Upper(q.level.value) {
        continue;
      }
      if Given(q.moduleName) && entry.moduleName != q.moduleName.value {
        continue;
      }
      if Given(q.functionName) && entry.functionName != q.functionName.value {
        continue;
      }
      if Given(q.messageContains) && !Text.Contains(Text.Lower(entry.message), Text.Lower(q.messageContains.value)) {
        continue;
      }
      if Given(q.startTime) {
        var start := c.fromIso(q.startTime.value);
        if start.Some? && entry.ts < start.value {
          continue;
        }
      }
      if Given(q.endTime) {
        var end := c.fromIso(q.endTime.value);
        if end.Some? && entry.ts > end.value {
          continue;
        }
      }
      filtered := filtered + [entry];
    }
    assert all[..|all|] == all;
  }

  /** The grouping loop of aggregate_logs: keys in first-seen order, each with its entries in order. */
  method GroupEntries(c: Codecs, groupBy: string, all: seq<LogEntry>) returns (keys: seq<Value>, groups: map<Value, seq<LogEntry>>)
    ensures keys == FirstSeen(Keys(c, groupBy, all))
    ensures groups == GroupsOf(c, groupBy, all)
  {
    groups := map[];
    keys := [];
    for i := 0 to |all|
      invariant keys == FirstSeen(Keys(c, groupBy, all[..i]))
      invariant groups == GroupsOf(c, groupBy, all[..i])
    {
      var key := KeyOf(c, groupBy, all[i]);
      GroupsNext(c, groupBy, all, i);
      keys, groups := AddToGroup(keys, groups, key, all[i]);
    }
    assert all[..|all|] == all;
  }

  /**
   * `if key not in groups: groups[key] = []`, then `groups[key].append(entry)`, with the dict's key order:
   * the imperative form of one step of Aggregation.GroupsOf (see GroupsNext).
   */
  method AddToGroup(keys: seq<Value>, groups: map<Value, seq<LogEntry>>, key: Value, entry: LogEntry)
    returns (keys': seq<Value>, groups': map<Value, seq<LogEntry>>)
    ensures keys' == if key in groups then keys else keys + [key]
    ensures groups' == groups[key := (if key in groups then groups[key] else []) + [entry]]
  {
    keys', groups' := keys, groups;
    if key !in groups' {
      groups' := groups'[key := []];
      keys' := keys' + [key];
    }
    groups' := groups'[key := groups'[key] + [entry]];
  }

  /** The statistics loop of aggregate_logs, over the groups in key order. */
  method Summarise(keys: seq<Value>, groups: map<Value, seq<LogEntry>>) returns (stats: map<Value, GroupStats>)
    requires forall k :: k in keys <==> k in groups
    ensures stats == StatsMap(groups)
  {
    stats := map[];
    for j := 0 to |keys|
      invariant forall k :: k in stats <==> k in keys[..j]
      invariant forall k :: k in stats ==> stats[k] == StatsOf(groups[k])
    {
      stats := stats[keys[j] := StatsOf(groups[keys[j]])];
    }
    assert keys[..|keys|] == keys;
    assert stats.Keys == StatsMap(groups).Keys;
  }

  /** The body of get_log_stats' entry loop: the imperative form of Statistics.Count. */
  method CountEntry(t: Tally, entry: LogEntry) returns (u: Tally)
    ensures u == Count(t, entry)
  {
    var level := entry.level;
    var levelOrder := t.levelOrder;
    var levels := t.levels;
    if level !in levels {
      levelOrder := levelOrder + [level];
    }
    levels := levels[level := (if level in levels then levels[level] else 0) + 1];
    var earliest, latest := t.earliest, t.latest;
    if earliest.None? || entry.ts < earliest.value {
      earliest := Some(entry.ts);
    }
    if latest.None? || entry.ts > latest.value {
      latest := Some(entry.ts);
    }
    u := Tally(t.total + 1, levelOrder, levels, t.modules + {entry.moduleName},
               t.functions + {entry.functionName}, earliest, latest);
  }

  /** The inner loop of get_log_stats: the entries of one file counted in order. */
  method TallyAll(t: Tally, ghost es: seq<LogEntry>, entries: seq<LogEntry>) returns (u: Tally)
    requires t == TallyOf(es)
    ensures u == TallyOf(es + entries)
  {
    u := t;
    assert es + entries[..0] == es;
    for j := 0 to |entries|
      invariant u == TallyOf(es + entries[..j])
    {
      TallyNext(es, entries, j);
      u := CountEntry(u, entries[j]);
    }
    assert entries[..|entries|] == entries;
  }

  /**
   * The parse loop of read_log_file: lines parsed in order, unparsable ones
   * skipped, stopping once max_lines lines have been examined.
   */
  method ParseLines(c: Codecs, lines: seq<string>, maxLines: Option<int>) returns (entries: seq<LogEntry>)
    ensures entries == ParseAll(c, Examined(lines, maxLines))
  {
    entries := [];
    var i := 0;
    while i < |lines|
      invariant 0 <= i <= |Examined(lines, maxLines)|
      invariant entries == ParseAll(c, lines[..i])
    {
      if maxLines.Some? && maxLines.value != 0 && i >= maxLines.value {
        break;
      }
      assert lines[..i + 1][..i] == lines[..i];
      var entry := ParseLogEntry(c, lines[i]);
      if entry.Some? {
        entries := entries + [entry.value];
      }
      i := i + 1;
    }
    assert lines[..i] == Examined(lines, maxLines);
  }

  /** The prefix one longer starts with the prefix. */
  lemma SlicePrefix<T>(s: seq<T>, i: int)
    requires 0 <= i < |s|
    ensures s[..i + 1][..i] == s[..i]
  {
  }
}
