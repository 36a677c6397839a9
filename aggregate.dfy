/** The aggregation engine: a group-by histogram with per-group first and last timestamps. */
module Aggregation {
  import opened Entries
  import opened Counting

  /**
   * The group key of aggregate_logs for one entry. On a parsed entry, every
   * grouping but "hour" is `entry.get(group_by, "UNKNOWN")` on the record.
   */
  function KeyOf(c: Codecs, groupBy: string, e: LogEntry): (k: Value)
    ensures WellFormed(e) && groupBy != "hour" ==>
      k == if groupBy in e.fields then e.fields[groupBy] else Str("UNKNOWN")
  {
    if groupBy == "level" then Str(e.level)
    else if groupBy == "module" then Str(e.moduleName)
    else if groupBy == "function" then Str(e.functionName)
    else if groupBy == "hour" then Str(c.hourLabel(e.ts))
    else if groupBy in e.fields then e.fields[groupBy]
    else Str("UNKNOWN")
  }

  /** The keys of the entries, in entry order. */
  function Keys(c: Codecs, groupBy: string, es: seq<LogEntry>): (ks: seq<Value>)
    ensures |ks| == |es|
    ensures forall i :: 0 <= i < |es| ==> ks[i] == KeyOf(c, groupBy, es[i])
  {
    if es == [] then [] else Keys(c, groupBy, es[..|es| - 1]) + [KeyOf(c, groupBy, es[|es| - 1])]
  }

  /** The entries under key k, in entry order: `groups[k]`. */
  function GroupOf(c: Codecs, groupBy: string, es: seq<LogEntry>, k: Value): seq<LogEntry>
  {
    if es == [] then []
    else
      var last := es[|es| - 1];
      GroupOf(c, groupBy, es[..|es| - 1], k) + (if KeyOf(c, groupBy, last) == k then [last] else [])
  }

  /** A group holds exactly the entries with its key, as many as the key occurs. */
  lemma {:induction false} GroupOfExact(c: Codecs, groupBy: string, es: seq<LogEntry>, k: Value)
    ensures |GroupOf(c, groupBy, es, k)| == Occ(Keys(c, groupBy, es), k)
    ensures forall e :: e in GroupOf(c, groupBy, es, k) <==> e in es && KeyOf(c, groupBy, e) == k
  {
    if es != [] {
      var init := es[..|es| - 1];
      GroupOfExact(c, groupBy, init, k);
      assert Keys(c, groupBy, es)[..|es| - 1] == Keys(c, groupBy, init);
      assert es == init + [es[|es| - 1]];
    }
  }

  /**
   * The `groups` dict of aggregate_logs after the entries es: each entry is
   * appended to the list under its key, which starts empty when the key is new.
   */
  function GroupsOf(c: Codecs, groupBy: string, es: seq<LogEntry>): map<Value, seq<LogEntry>>
  {
    if es == [] then map[]
    else
      var g := GroupsOf(c, groupBy, es[..|es| - 1]);
      var last := es[|es| - 1];
      var k := KeyOf(c, groupBy, last);
      g[k := (if k in g then g[k] else []) + [last]]
  }

  /** The dict holds a key exactly when some entry has it, and under it exactly that key's group. */
  lemma {:induction false} GroupsOfExact(c: Codecs, groupBy: string, es: seq<LogEntry>)
    ensures forall k :: k in GroupsOf(c, groupBy, es) <==> k in Keys(c, groupBy, es)
    ensures forall k :: k in GroupsOf(c, groupBy, es) ==> GroupsOf(c, groupBy, es)[k] == GroupOf(c, groupBy, es, k)
  {
    if es != [] {
      var init := es[..|es| - 1];
      GroupsOfExact(c, groupBy, init);
      assert es == init + [es[|es| - 1]];
      KeysSnoc(c, groupBy, init, es[|es| - 1]);
      var k := KeyOf(c, groupBy, es[|es| - 1]);
      if k !in GroupsOf(c, groupBy, init) {
        GroupOfExact(c, groupBy, init, k);
        OccPositive(Keys(c, groupBy, init), k);
      }
    }
  }

  /** One more entry: its key is appended to the keys. */
  lemma KeysSnoc(c: Codecs, groupBy: string, es: seq<LogEntry>, e: LogEntry)
    ensures Keys(c, groupBy, es + [e]) == Keys(c, groupBy, es) + [KeyOf(c, groupBy, e)]
  {
    assert (es + [e])[..|es|] == es;
  }

  /** One more entry: its key joins the key order if it is new. */
  lemma GroupsOrderStep(c: Codecs, groupBy: string, es: seq<LogEntry>, e: LogEntry)
    ensures var k := KeyOf(c, groupBy, e);
      FirstSeen(Keys(c, groupBy, es + [e])) ==
        if k in GroupsOf(c, groupBy, es) then FirstSeen(Keys(c, groupBy, es))
        else FirstSeen(Keys(c, groupBy, es)) + [k]
  {
    KeysSnoc(c, groupBy, es, e);
    FirstSeenStep(Keys(c, groupBy, es), KeyOf(c, groupBy, e));
    GroupsOfExact(c, groupBy, es);
  }

  /** The grouping loop's step from the first i entries to the first i + 1. */
  lemma GroupsNext(c: Codecs, groupBy: string, es: seq<LogEntry>, i: int)
    requires 0 <= i < |es|
    ensures var k := KeyOf(c, groupBy, es[i]);
      FirstSeen(Keys(c, groupBy, es[..i + 1])) ==
        if k in GroupsOf(c, groupBy, es[..i]) then FirstSeen(Keys(c, groupBy, es[..i]))
        else FirstSeen(Keys(c, groupBy, es[..i])) + [k]
    ensures var k := KeyOf(c, groupBy, es[i]); var g := GroupsOf(c, groupBy, es[..i]);
      GroupsOf(c, groupBy, es[..i + 1]) == g[k := (if k in g then g[k] else []) + [es[i]]]
  {
    assert es[..i + 1] == es[..i] + [es[i]];
    assert es[..i + 1][..i] == es[..i];
    GroupsOrderStep(c, groupBy, es[..i], es[i]);
  }

  /** One entry of `result["groups"]`, without its rounded percentage. */
  datatype GroupStats = GroupStats(count: nat, firstSeen: int, lastSeen: int)

  datatype AggregationResult = AggregationResult(groupBy: string, totalEntries: nat,
                                                 keys: seq<Value>, groups: map<Value, GroupStats>)

  /**
   * The statistics of a group. A group is never empty, so its first and last
   * timestamps always exist (the 0 below is never used).
   */
  function StatsOf(group: seq<LogEntry>): (g: GroupStats)
    ensures g.count == |group|
    ensures group != [] ==> g.firstSeen <= g.lastSeen
  {
    GroupStats(|group|,
               if group == [] then 0 else MinTs(group),
               if group == [] then 0 else MaxTs(group))
  }

  /** The statistics of every group of a dict, under the same keys. */
  function StatsMap(groups: map<Value, seq<LogEntry>>): map<Value, GroupStats>
  {
    map k | k in groups :: StatsOf(groups[k])
  }

  /** What aggregate_logs returns for the entries it gathered. */
  function Aggregate(c: Codecs, groupBy: string, es: seq<LogEntry>): AggregationResult
  {
    AggregationResult(groupBy, |es|, FirstSeen(Keys(c, groupBy, es)), StatsMap(GroupsOf(c, groupBy, es)))
  }

  /** The dict's keys are the keys in first-seen order. */
  lemma GroupsCover(c: Codecs, groupBy: string, es: seq<LogEntry>)
    ensures forall k :: k in FirstSeen(Keys(c, groupBy, es)) <==> k in GroupsOf(c, groupBy, es)
  {
    GroupsOfExact(c, groupBy, es);
    FirstSeenKeys(Keys(c, groupBy, es));
  }

  lemma GroupOfNonEmpty(c: Codecs, groupBy: string, es: seq<LogEntry>, k: Value)
    requires k in Keys(c, groupBy, es)
    ensures GroupOf(c, groupBy, es, k) != [] && |GroupOf(c, groupBy, es, k)| <= |es|
  {
    GroupOfExact(c, groupBy, es, k);
    OccPositive(Keys(c, groupBy, es), k);
    OccBound(Keys(c, groupBy, es), k);
  }

  lemma {:induction false} OccBound<K>(ks: seq<K>, k: K)
    ensures Occ(ks, k) <= |ks|
  {
    if ks != [] { OccBound(ks[..|ks| - 1], k); }
  }

  /** The group counts, added up in key order. */
  function SumCounts(keys: seq<Value>, groups: map<Value, GroupStats>): int
    requires forall k :: k in keys ==> k in groups
  {
    if keys == [] then 0 else SumCounts(keys[..|keys| - 1], groups) + groups[keys[|keys| - 1]].count
  }

  lemma {:induction false} SumCountsIsSumOcc(c: Codecs, groupBy: string, es: seq<LogEntry>, keys: seq<Value>)
    requires forall k :: k in keys ==> k in Aggregate(c, groupBy, es).groups
    ensures SumCounts(keys, Aggregate(c, groupBy, es).groups) == SumOcc(keys, Keys(c, groupBy, es))
  {
    if keys != [] {
      var k := keys[|keys| - 1];
      SumCountsIsSumOcc(c, groupBy, es, keys[..|keys| - 1]);
      GroupsOfExact(c, groupBy, es);
      GroupOfExact(c, groupBy, es, k);
    }
  }

  /**
   * The keys of the result are distinct and are exactly those of the
   * entries; every entry's key has a group. With no entries there are no groups.
   */
  lemma AggregateKeys(c: Codecs, groupBy: string, es: seq<LogEntry>)
    ensures var r := Aggregate(c, groupBy, es);
      && r.totalEntries == |es|
      && Distinct(r.keys)
      && r.groups.Keys == (set k | k in r.keys)
      && (forall e :: e in es ==> KeyOf(c, groupBy, e) in r.groups)
      && (es == [] <==> r.groups == map[])
  {
    var ks := Keys(c, groupBy, es);
    var r := Aggregate(c, groupBy, es);
    FirstSeenKeys(ks);
    GroupsCover(c, groupBy, es);
    GroupsOfExact(c, groupBy, es);
    forall e | e in es ensures KeyOf(c, groupBy, e) in r.groups {
      var i :| 0 <= i < |es| && es[i] == e;
      assert ks[i] in ks;
    }
    if es != [] {
      assert KeyOf(c, groupBy, es[0]) in r.groups;
    }
  }

  /**
   * Every entry falls into exactly one group: each group's count is the
   * number of entries with its key, and the counts add up to total_entries.
   */
  lemma AggregateCounts(c: Codecs, groupBy: string, es: seq<LogEntry>)
    ensures var r := Aggregate(c, groupBy, es);
      && (forall k :: k in r.keys <==> k in r.groups)
      && (forall k :: k in r.groups ==> r.groups[k].count == |GroupOf(c, groupBy, es, k)|)
      && SumCounts(r.keys, r.groups) == |es|
  {
    var ks := Keys(c, groupBy, es);
    var r := Aggregate(c, groupBy, es);
    GroupsCover(c, groupBy, es);
    GroupsOfExact(c, groupBy, es);
    HistogramTotal(ks);
    SumCountsIsSumOcc(c, groupBy, es, r.keys);
  }

  /** Every group's first timestamp is at most its last, and both are timestamps of the group's entries. */
  lemma AggregateTimeBounds(c: Codecs, groupBy: string, es: seq<LogEntry>, k: Value)
    requires k in Aggregate(c, groupBy, es).groups
    ensures var g := Aggregate(c, groupBy, es).groups[k];
      && g.firstSeen <= g.lastSeen
      && (forall e :: e in es && KeyOf(c, groupBy, e) == k ==> g.firstSeen <= e.ts <= g.lastSeen)
      && (exists e :: e in es && KeyOf(c, groupBy, e) == k && e.ts == g.firstSeen)
      && (exists e :: e in es && KeyOf(c, groupBy, e) == k && e.ts == g.lastSeen)
  {
    AggregateAt(c, groupBy, es, k);
    GroupOfExact(c, groupBy, es, k);
  }

  /** The statistics stored under one key of the result. */
  lemma AggregateAt(c: Codecs, groupBy: string, es: seq<LogEntry>, k: Value)
    requires k in Aggregate(c, groupBy, es).groups
    ensures GroupOf(c, groupBy, es, k) != [] && |GroupOf(c, groupBy, es, k)| <= |es|
    ensures Aggregate(c, groupBy, es).groups[k] == StatsOf(GroupOf(c, groupBy, es, k))
  {
    GroupsOfExact(c, groupBy, es);
    GroupOfNonEmpty(c, groupBy, es, k);
  }
}
