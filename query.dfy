/** The query engine: conjunctive filters, newest-first ordering, truncation to `limit`. */
module Query {
  import opened Wrappers
  import Text
  import Sorting
  import opened Entries

  /** The filter arguments of query_logs; None is an omitted argument. */
  datatype Filter = Filter(level: Option<string>, moduleName: Option<string>, functionName: Option<string>,
                           messageContains: Option<string>, startTime: Option<string>, endTime: Option<string>)

  /** A filter argument restricts only when it is truthy: present and non-empty. */
  predicate Given(o: Option<string>)
  {
    o.Some? && o.value != ""
  }

  /** A time bound applies only when given and parsable; a malformed bound is ignored. */
  function Bound(c: Codecs, o: Option<string>): Option<int>
  {
    if Given(o) then c.fromIso(o.value) else None
  }

  /** Every supplied predicate holds of the entry at once. */
  predicate Matches(c: Codecs, q: Filter, e: LogEntry)
  {
    && (Given(q.level) ==> Text.Upper(e.level) == Text.Upper(q.level.value))
    && (Given(q.moduleName) ==> e.moduleName == q.moduleName.value)
    && (Given(q.functionName) ==> e.functionName == q.functionName.value)
    && (Given(q.messageContains) ==> Text.Contains(Text.Lower(e.message), Text.Lower(q.messageContains.value)))
    && (Bound(c, q.startTime).Some? ==> Bound(c, q.startTime).value <= e.ts)
    && (Bound(c, q.endTime).Some? ==> e.ts <= Bound(c, q.endTime).value)
  }

  /** The matching entries, in their original order. */
  function FilterEntries(c: Codecs, q: Filter, es: seq<LogEntry>): seq<LogEntry>
  {
    if es == [] then []
    else
      var last := es[|es| - 1];
      FilterEntries(c, q, es[..|es| - 1]) + (if Matches(c, q, last) then [last] else [])
  }

  /** Each matching entry is kept as often as it occurs, and no other entry is kept. */
  lemma {:induction false} FilterCounts(c: Codecs, q: Filter, es: seq<LogEntry>)
    ensures forall e :: multiset(FilterEntries(c, q, es))[e] == if Matches(c, q, e) then multiset(es)[e] else 0
  {
    if es != [] {
      var init, last := es[..|es| - 1], es[|es| - 1];
      var tail := if Matches(c, q, last) then [last] else [];
      FilterCounts(c, q, init);
      assert es == init + [last];
      assert FilterEntries(c, q, es) == FilterEntries(c, q, init) + tail;
      assert multiset(FilterEntries(c, q, es)) == multiset(FilterEntries(c, q, init)) + multiset(tail);
      assert multiset(es) == multiset(init) + multiset{last};
    }
  }

  /** The filtered entries are exactly the matching ones, each as often as in the input. */
  lemma FilterExact(c: Codecs, q: Filter, es: seq<LogEntry>)
    ensures forall e :: e in FilterEntries(c, q, es) <==> e in es && Matches(c, q, e)
    ensures multiset(FilterEntries(c, q, es)) <= multiset(es)
    ensures forall e :: Matches(c, q, e) ==> multiset(FilterEntries(c, q, es))[e] == multiset(es)[e]
  {
    FilterCounts(c, q, es);
    var f := FilterEntries(c, q, es);
    forall e ensures e in f <==> e in es && Matches(c, q, e) {
      assert e in f <==> multiset(f)[e] > 0;
      assert e in es <==> multiset(es)[e] > 0;
    }
  }

  /** With every argument omitted or empty and no bound that parses, nothing is filtered out. */
  lemma {:induction false} NoRestriction(c: Codecs, q: Filter, es: seq<LogEntry>)
    requires !Given(q.level) && !Given(q.moduleName) && !Given(q.functionName) && !Given(q.messageContains)
    requires Bound(c, q.startTime).None? && Bound(c, q.endTime).None?
    ensures FilterEntries(c, q, es) == es
  {
    if es != [] {
      NoRestriction(c, q, es[..|es| - 1]);
      assert es == es[..|es| - 1] + [es[|es| - 1]];
    }
  }

  /** q2 is q with some predicates removed (set to None). */
  predicate Weaker(q2: Filter, q: Filter)
  {
    && (q2.level.None? || q2.level == q.level)
    && (q2.moduleName.None? || q2.moduleName == q.moduleName)
    && (q2.functionName.None? || q2.functionName == q.functionName)
    && (q2.messageContains.None? || q2.messageContains == q.messageContains)
    && (q2.startTime.None? || q2.startTime == q.startTime)
    && (q2.endTime.None? || q2.endTime == q.endTime)
  }

  /** Removing predicates never shrinks the set of matches (before truncation). */
  lemma {:induction false} FilterMonotone(c: Codecs, q: Filter, q2: Filter, es: seq<LogEntry>)
    requires Weaker(q2, q)
    ensures multiset(FilterEntries(c, q, es)) <= multiset(FilterEntries(c, q2, es))
    ensures |FilterEntries(c, q, es)| <= |FilterEntries(c, q2, es)|
  {
    if es != [] {
      FilterMonotone(c, q, q2, es[..|es| - 1]);
    }
  }

  /** Python's `s[:limit]`: a negative limit drops that many elements from the end. */
  function PrefixTo<T>(s: seq<T>, limit: int): (r: seq<T>)
    ensures r <= s
    ensures 0 <= limit ==> |r| == if limit < |s| then limit else |s|
    ensures limit < 0 ==> |r| == if |s| + limit < 0 then 0 else |s| + limit
  {
    if 0 <= limit then (if limit < |s| then s[..limit] else s)
    else if |s| + limit < 0 then [] else s[..|s| + limit]
  }

  function Timestamp(e: LogEntry): int { e.ts }

  /** What query_logs returns for the entries it gathered. */
  function QueryResult(c: Codecs, q: Filter, es: seq<LogEntry>, limit: int): seq<LogEntry>
  {
    PrefixTo(Sorting.SortDesc(FilterEntries(c, q, es), Timestamp), limit)
  }

  /**
   * The result matches every supplied predicate, runs newest first, holds
   * min(limit, #matches) entries for limit >= 0, and no match left out is
   * newer than one kept; with a limit covering all matches, every match comes back.
   */
  lemma QueryProperties(c: Codecs, q: Filter, es: seq<LogEntry>, limit: int)
    ensures var r := QueryResult(c, q, es, limit);
      && (forall e :: e in r ==> e in es && Matches(c, q, e))
      && Sorting.SortedDesc(r, Timestamp)
      && (0 <= limit ==> |r| == if limit < |FilterEntries(c, q, es)| then limit else |FilterEntries(c, q, es)|)
      && (|FilterEntries(c, q, es)| <= limit ==> multiset(r) == multiset(FilterEntries(c, q, es)))
    ensures var sorted := Sorting.SortDesc(FilterEntries(c, q, es), Timestamp);
      var r := QueryResult(c, q, es, limit);
      forall i, j :: 0 <= i < |r| <= j < |sorted| ==> sorted[j].ts <= r[i].ts
  {
    var f := FilterEntries(c, q, es);
    var sorted := Sorting.SortDesc(f, Timestamp);
    var r := QueryResult(c, q, es, limit);
    assert r == PrefixTo(sorted, limit);
    assert multiset(sorted) == multiset(f) && |sorted| == |f|;
    FilterExact(c, q, es);
    forall e | e in r ensures e in es && Matches(c, q, e) {
      assert e in sorted;
      assert e in multiset(sorted);
    }
    PrefixOfSorted(sorted, r);
    if |f| <= limit {
      assert r == sorted;
    }
  }

  /** A prefix of a newest-first sequence is newest first and holds no entry older than one left out. */
  lemma PrefixOfSorted(sorted: seq<LogEntry>, r: seq<LogEntry>)
    requires Sorting.SortedDesc(sorted, Timestamp) && r <= sorted
    ensures Sorting.SortedDesc(r, Timestamp)
    ensures forall i, j :: 0 <= i < |r| <= j < |sorted| ==> sorted[j].ts <= r[i].ts
  {
    forall i, j | 0 <= i < |r| <= j < |sorted| ensures sorted[j].ts <= r[i].ts {
      assert r[i] == sorted[i];
      assert Timestamp(sorted[i]) >= Timestamp(sorted[j]);
    }
    forall i, j | 0 <= i < j < |r| ensures Timestamp(r[i]) >= Timestamp(r[j]) {
      assert r[i] == sorted[i] && r[j] == sorted[j];
    }
  }

  /** The level predicate ignores case: "error" selects an entry logged at "ERROR". */
  lemma LevelIgnoresCase(c: Codecs, q: Filter, e: LogEntry)
    requires q == Filter(Some("error"), None, None, None, None, None)
    ensures Matches(c, q, e) <==> Text.Upper(e.level) == "ERROR"
  {
    assert Text.Upper("error") == "ERROR";
  }
}
