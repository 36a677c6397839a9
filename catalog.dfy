/**
 * The file catalog and the file reader, as functions of the outside world.
 *
 * The directory listing and the files' contents are inputs (`Disk`); the
 * catalog is the `name -> descriptor` dictionary together with its key
 * order, as a Python dict keeps it.
 */
module Catalog {
  import opened Wrappers
  import Text
  import Sorting
  import opened Entries
  import opened Counting

  /** One element of `log_files`: what get_log_files reports about a file. */
  datatype Descriptor = Descriptor(name: string, path: string, size: nat, modified: int)

  /** One element of the directory as `glob` and `stat` see it. */
  datatype DirEntry = DirEntry(name: string, path: string, isFile: bool, size: nat, modified: int)

  datatype Directory = Missing | Present(entries: seq<DirEntry>)

  /** What `open` and iteration over a file yield: its lines, or an I/O failure. */
  datatype FileContent = Unreadable | Lines(lines: seq<string>)

  /** The part of the file system the analyzer sees: its directory and the files by path. */
  datatype Disk = Disk(dir: Directory, files: map<string, FileContent>)

  /** FileNotFoundError and RuntimeError of read_log_file. */
  datatype FileError = NotFound(name: string) | ReadError(name: string)

  /** The glob pattern `*.log*`: the name contains ".log". */
  predicate IsLogName(name: string)
  {
    Text.Contains(name, ".log")
  }

  predicate IsLogFile(e: DirEntry)
  {
    e.isFile && IsLogName(e.name)
  }

  function Describe(e: DirEntry): Descriptor
  {
    Descriptor(e.name, e.path, e.size, e.modified)
  }

  /** The descriptors of the regular files matching the pattern, in listing order. */
  function LogFiles(es: seq<DirEntry>): (r: seq<Descriptor>)
    ensures |r| <= |es|
  {
    if es == [] then []
    else
      var last := es[|es| - 1];
      LogFiles(es[..|es| - 1]) + (if IsLogFile(last) then [Describe(last)] else [])
  }

  function Modified(d: Descriptor): int { d.modified }

  /** `log_files.sort(key=modified, reverse=True)`. */
  function NewestFirst(ds: seq<Descriptor>): seq<Descriptor>
  {
    Sorting.SortDesc(ds, Modified)
  }

  /** `{f["name"]: f for f in ds}`: a later descriptor of the same name replaces an earlier one. */
  function ToMap(ds: seq<Descriptor>): (m: map<string, Descriptor>)
  {
    if ds == [] then map[]
    else
      var last := ds[|ds| - 1];
      ToMap(ds[..|ds| - 1])[last.name := last]
  }

  /** The names of ds, in order. */
  function NameList(ds: seq<Descriptor>): (r: seq<string>)
    ensures |r| == |ds|
    ensures forall i :: 0 <= i < |ds| ==> r[i] == ds[i].name
  {
    if ds == [] then [] else NameList(ds[..|ds| - 1]) + [ds[|ds| - 1].name]
  }

  /** The key order of that dict: each name where it first occurs. */
  function KeyOrder(ds: seq<Descriptor>): seq<string>
  {
    FirstSeen(NameList(ds))
  }

  function Names(ds: seq<Descriptor>): set<string>
  {
    set d | d in ds :: d.name
  }

  /** The sorted descriptor list that _refresh_log_files builds; none when the directory is missing. */
  function Scan(d: Directory): seq<Descriptor>
  {
    if d.Missing? then [] else NewestFirst(LogFiles(d.entries))
  }

  /** The catalog _refresh_log_files installs, which depends on the directory alone. */
  function CatalogOf(d: Directory): map<string, Descriptor>
  {
    ToMap(Scan(d))
  }

  /** The key order _refresh_log_files installs. */
  function CatalogOrder(d: Directory): seq<string>
  {
    KeyOrder(Scan(d))
  }

  /** The dict built from ds has exactly the names of ds as keys, and its key order lists each once. */
  lemma {:induction false} ToMapKeys(ds: seq<Descriptor>)
    ensures ToMap(ds).Keys == Names(ds)
    ensures Distinct(KeyOrder(ds))
    ensures forall k :: k in KeyOrder(ds) <==> k in ToMap(ds)
    ensures forall k :: k in ToMap(ds) ==> ToMap(ds)[k] in ds && ToMap(ds)[k].name == k
  {
    ToMapValues(ds);
    FirstSeenKeys(NameList(ds));
    forall k ensures k in NameList(ds) <==> k in Names(ds) {
      if k in NameList(ds) {
        var i :| 0 <= i < |ds| && NameList(ds)[i] == k;
        assert ds[i] in ds;
      }
      if k in Names(ds) {
        var d :| d in ds && d.name == k;
        var i :| 0 <= i < |ds| && ds[i] == d;
        assert NameList(ds)[i] == k;
      }
    }
  }

  /** The dict built from ds has exactly the names of ds as keys, each under a descriptor of that name. */
  lemma {:induction false} ToMapValues(ds: seq<Descriptor>)
    ensures ToMap(ds).Keys == Names(ds)
    ensures forall k :: k in ToMap(ds) ==> ToMap(ds)[k] in ds && ToMap(ds)[k].name == k
  {
    if ds != [] {
      var init := ds[..|ds| - 1];
      ToMapValues(init);
      assert ds == init + [ds[|ds| - 1]];
      assert Names(ds) == Names(init) + {ds[|ds| - 1].name};
    }
  }

  /** No two descriptors share a name. */
  predicate DistinctNames(ds: seq<Descriptor>)
  {
    forall i, j :: 0 <= i < j < |ds| ==> ds[i].name != ds[j].name
  }

  /** With distinct names, reading the dict back in key order gives the list it was built from. */
  lemma ToMapRoundTrip(ds: seq<Descriptor>)
    requires DistinctNames(ds)
    ensures |KeyOrder(ds)| == |ds|
    ensures forall i :: 0 <= i < |ds| ==> KeyOrder(ds)[i] == ds[i].name
    ensures forall i :: 0 <= i < |ds| ==> ds[i].name in ToMap(ds) && ToMap(ds)[ds[i].name] == ds[i]
  {
    assert Distinct(NameList(ds));
    FirstSeenDistinct(NameList(ds));
    ToMapLast(ds);
  }

  /** With distinct names, each descriptor is the one its name maps to. */
  lemma {:induction false} ToMapLast(ds: seq<Descriptor>)
    requires DistinctNames(ds)
    ensures forall i :: 0 <= i < |ds| ==> ds[i].name in ToMap(ds) && ToMap(ds)[ds[i].name] == ds[i]
  {
    if ds != [] {
      var init := ds[..|ds| - 1];
      assert DistinctNames(init);
      ToMapLast(init);
    }
  }

  /** What the catalog lists, dict values in key order. */
  function Listing(m: map<string, Descriptor>, order: seq<string>): seq<Descriptor>
    requires forall k :: k in order ==> k in m
  {
    seq(|order|, i requires 0 <= i < |order| => m[order[i]])
  }

  predicate DistinctLogNames(d: Directory)
  {
    d.Present? ==> forall i, j :: 0 <= i < j < |d.entries| ==> d.entries[i].name != d.entries[j].name
  }

  lemma {:induction false} LogFilesFrom(es: seq<DirEntry>)
    ensures forall x :: x in LogFiles(es) ==> exists i :: 0 <= i < |es| && IsLogFile(es[i]) && x == Describe(es[i])
    ensures forall i :: 0 <= i < |es| && IsLogFile(es[i]) ==> Describe(es[i]) in LogFiles(es)
    ensures DistinctLogNames(Present(es)) ==> DistinctNames(LogFiles(es))
  {
    if es != [] {
      var init := es[..|es| - 1];
      LogFilesFrom(init);
      var last := es[|es| - 1];
      forall x | x in LogFiles(es) ensures exists i :: 0 <= i < |es| && IsLogFile(es[i]) && x == Describe(es[i]) {
        if x in LogFiles(init) {
          var i :| 0 <= i < |init| && IsLogFile(init[i]) && x == Describe(init[i]);
          assert es[i] == init[i];
        } else {
          assert x == Describe(es[|es| - 1]);
        }
      }
      forall i | 0 <= i < |es| && IsLogFile(es[i]) ensures Describe(es[i]) in LogFiles(es) {
        if i < |init| { assert es[i] == init[i]; }
      }
      if DistinctLogNames(Present(es)) {
        assert DistinctLogNames(Present(init));
        var li := LogFiles(init);
        forall x | x in li ensures x.name != last.name {
          var k :| 0 <= k < |init| && IsLogFile(init[k]) && x == Describe(init[k]);
          assert es[k] == init[k];
        }
      }
    }
  }

  /** Reading a dict built from distinctly named descriptors back in key order. */
  lemma ListingRoundTrip(ds: seq<Descriptor>)
    requires DistinctNames(ds)
    ensures forall k :: k in KeyOrder(ds) ==> k in ToMap(ds)
    ensures Listing(ToMap(ds), KeyOrder(ds)) == ds
  {
    ToMapKeys(ds);
    ToMapRoundTrip(ds);
  }

  /** A directory's names are distinct, so are those of what the scan keeps. */
  lemma ScanDistinct(d: Directory)
    requires DistinctLogNames(d)
    ensures DistinctNames(Scan(d))
  {
    if d.Present? {
      var lf := LogFiles(d.entries);
      var s := Scan(d);
      LogFilesFrom(d.entries);
      forall i, j | 0 <= i < j < |s| ensures s[i].name != s[j].name {
        assert s[i] in multiset(lf) && s[j] in multiset(lf);
        var a :| 0 <= a < |lf| && lf[a] == s[i];
        var b :| 0 <= b < |lf| && lf[b] == s[j];
        if a == b {
          MultisetTwice(s, i, j);
          NamesDistinctCountOne(lf, a);
        }
      }
    }
  }

  /**
   * get_log_files right after a refresh: for a missing directory nothing; otherwise
   * exactly the regular files whose name contains ".log", each descriptor once,
   * newest first (distinct names, as a directory has).
   */
  lemma CatalogListing(d: Directory)
    requires DistinctLogNames(d)
    ensures CatalogKeysHold(d)
    ensures Listing(CatalogOf(d), CatalogOrder(d)) == Scan(d)
    ensures DistinctNames(Scan(d))
    ensures Sorting.SortedDesc(Scan(d), Modified)
    ensures d.Missing? ==> CatalogOf(d) == map[] && CatalogOrder(d) == []
    ensures d.Present? ==> multiset(Scan(d)) == multiset(LogFiles(d.entries))
  {
    ToMapKeys(Scan(d));
    ScanDistinct(d);
    ListingRoundTrip(Scan(d));
  }

  /** The names kept by the pattern are those of the listed regular files matching it. */
  lemma LogFileNames(es: seq<DirEntry>)
    ensures forall k :: k in Names(LogFiles(es)) <==> exists i :: 0 <= i < |es| && IsLogFile(es[i]) && es[i].name == k
  {
    LogFilesFrom(es);
    forall k | k in Names(LogFiles(es)) ensures exists i :: 0 <= i < |es| && IsLogFile(es[i]) && es[i].name == k {
      var x :| x in LogFiles(es) && x.name == k;
      var i :| 0 <= i < |es| && IsLogFile(es[i]) && x == Describe(es[i]);
    }
    forall k | exists i :: 0 <= i < |es| && IsLogFile(es[i]) && es[i].name == k ensures k in Names(LogFiles(es)) {
      var i :| 0 <= i < |es| && IsLogFile(es[i]) && es[i].name == k;
      assert Describe(es[i]) in LogFiles(es);
    }
  }

  /** Sorting newest first keeps the same descriptors. */
  lemma ScanNames(d: Directory)
    requires d.Present?
    ensures Names(Scan(d)) == Names(LogFiles(d.entries))
  {
    var lf := LogFiles(d.entries);
    assert multiset(Scan(d)) == multiset(lf);
    forall x ensures x in Scan(d) <==> x in lf {
      assert x in Scan(d) <==> x in multiset(Scan(d));
      assert x in lf <==> x in multiset(lf);
    }
  }

  /**
   * After a refresh the catalog holds exactly the regular files of the
   * directory whose name contains ".log" (none for a missing directory):
   * names no longer listed are gone, whatever the catalog held before.
   */
  lemma CatalogNames(d: Directory)
    ensures forall k :: k in CatalogOf(d) <==>
      d.Present? && exists i :: 0 <= i < |d.entries| && IsLogFile(d.entries[i]) && d.entries[i].name == k
  {
    ToMapKeys(Scan(d));
    if d.Present? {
      ScanNames(d);
      LogFileNames(d.entries);
    }
  }

  /** Key facts of the freshly built catalog. */
  ghost predicate CatalogKeysHold(d: Directory)
  {
    && Distinct(CatalogOrder(d))
    && (forall k :: k in CatalogOrder(d) <==> k in CatalogOf(d))
    && CatalogOf(d).Keys == Names(Scan(d))
  }

  lemma MultisetTwice<T>(s: seq<T>, i: int, j: int)
    requires 0 <= i < j < |s| && s[i] == s[j]
    ensures multiset(s)[s[i]] >= 2
  {
    assert s == s[..i] + [s[i]] + s[i + 1..j] + [s[j]] + s[j + 1..];
  }

  lemma NamesDistinctCountOne(t: seq<Descriptor>, a: int)
    requires DistinctNames(t)
    requires 0 <= a < |t|
    ensures multiset(t)[t[a]] == 1
  {
    assert t == t[..a] + [t[a]] + t[a + 1..];
    assert t[a] !in t[..a];
    assert t[a] !in t[a + 1..];
  }

  /** The catalog after a lookup, and what the lookup found. */
  datatype Lookup = Lookup(cache: map<string, Descriptor>, found: Option<Descriptor>)

  /** The name check of read_log_file: a hit is served from the cache; a miss refreshes once and retries. */
  function Resolve(m: map<string, Descriptor>, d: Directory, name: string): (r: Lookup)
    ensures name in m ==> r == Lookup(m, Some(m[name]))
    ensures name !in m ==> r.cache == CatalogOf(d)
    ensures r.found.Some? <==> name in r.cache
    ensures r.found.Some? ==> r.found == Some(r.cache[name])
  {
    if name in m then Lookup(m, Some(m[name]))
    else
      var latest := CatalogOf(d);
      Lookup(latest, if name in latest then Some(latest[name]) else None)
  }

  function ContentAt(disk: Disk, path: string): FileContent
  {
    if path in disk.files then disk.files[path] else Unreadable
  }

  /** The catalog after read_log_file, and what it returned or raised. */
  datatype ReadOutcome = ReadOutcome(cache: map<string, Descriptor>, result: Result<seq<LogEntry>, FileError>)

  /** read_log_file: resolve the name, then parse the examined lines of the file at the descriptor's path. */
  function Read(c: Codecs, m: map<string, Descriptor>, disk: Disk, name: string, maxLines: Option<int>): (r: ReadOutcome)
    ensures r.cache == (if name in m then m else CatalogOf(disk.dir))
    ensures r.result == Err(NotFound(name)) <==> name !in r.cache
    ensures r.result == Err(ReadError(name)) <==> name in r.cache && ContentAt(disk, r.cache[name].path).Unreadable?
    ensures r.result.Ok? ==>
      var content := ContentAt(disk, r.cache[name].path);
      name in r.cache && content.Lines? && r.result.value == ParseAll(c, Examined(content.lines, maxLines))
  {
    var l := Resolve(m, disk.dir, name);
    match l.found
    case None => ReadOutcome(l.cache, Err(NotFound(name)))
    case Some(desc) =>
      match ContentAt(disk, desc.path)
      case Unreadable => ReadOutcome(l.cache, Err(ReadError(name)))
      case Lines(lines) => ReadOutcome(l.cache, Ok(ParseAll(c, Examined(lines, maxLines))))
  }

  /** The catalog after a best-effort multi-file read, and the entries of the files that could be read. */
  datatype Gathered = Gathered(cache: map<string, Descriptor>, entries: seq<LogEntry>)

  /**
   * The file loop of query_logs, aggregate_logs and get_log_stats: each file
   * read in turn (a read may refresh the catalog for the next), failures skipped.
   */
  function Gather(c: Codecs, m: map<string, Descriptor>, disk: Disk, files: seq<string>): (g: Gathered)
    ensures g.cache in {m, CatalogOf(disk.dir)}
    ensures (forall f :: f in files ==> f in m) ==> g.cache == m
  {
    if files == [] then Gathered(m, [])
    else
      var before := Gather(c, m, disk, files[..|files| - 1]);
      var r := Read(c, before.cache, disk, files[|files| - 1], None);
      Gathered(r.cache, before.entries + (if r.result.Ok? then r.result.value else []))
  }

  /** The file loop's step from the first i files to the first i + 1. */
  lemma GatherNext(c: Codecs, m: map<string, Descriptor>, disk: Disk, files: seq<string>, i: int)
    requires 0 <= i < |files|
    ensures var before := Gather(c, m, disk, files[..i]);
      var r := Read(c, before.cache, disk, files[i], None);
      Gather(c, m, disk, files[..i + 1]) ==
        Gathered(r.cache, before.entries + (if r.result.Ok? then r.result.value else []))
  {
    assert files[..i + 1][..i] == files[..i];
  }

  /** Started from the fresh catalog, a multi-file read never changes it. */
  lemma {:induction false} GatherFresh(c: Codecs, disk: Disk, files: seq<string>)
    ensures Gather(c, CatalogOf(disk.dir), disk, files).cache == CatalogOf(disk.dir)
  {
    if files != [] {
      GatherFresh(c, disk, files[..|files| - 1]);
    }
  }

  /**
   * Repeating a multi-file read with no change on disk: the catalog settles after
   * the first run, so every run from the second on gives the same result.
   */
  lemma GatherSettles(c: Codecs, m: map<string, Descriptor>, disk: Disk, files: seq<string>)
    ensures var first := Gather(c, m, disk, files);
            var second := Gather(c, first.cache, disk, files);
            second.cache == first.cache && Gather(c, second.cache, disk, files) == second
  {
    var first := Gather(c, m, disk, files);
    if first.cache == CatalogOf(disk.dir) {
      GatherFresh(c, disk, files);
    } else {
      assert first.cache == m;
    }
  }
}
