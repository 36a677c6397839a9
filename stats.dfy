/** Corpus statistics: level histogram, distinct modules and functions, overall time range. */
module Statistics {
  import opened Wrappers
  import Text
  import opened Entries
  import opened Counting

  /** What get_log_stats returns, without the rounded span in hours. */
  datatype CorpusStats = CorpusStats(
    totalFiles: nat,
    totalEntries: nat,
    levelOrder: seq<string>,        // the key order of the `levels` dict
    levels: map<string, nat>,
    uniqueModules: seq<string>,
    uniqueFunctions: nat,
    earliest: Option<int>,
    latest: Option<int>)

  /** The level of each entry, in entry order. */
  function Levels(es: seq<LogEntry>): (ls: seq<string>)
    ensures |ls| == |es|
    ensures forall i :: 0 <= i < |es| ==> ls[i] == es[i].level
  {
    if es == [] then [] else Levels(es[..|es| - 1]) + [es[|es| - 1].level]
  }

  /** Each level that occurs, with the number of entries logged at it. */
  function LevelHistogram(es: seq<LogEntry>): map<string, nat>
  {
    Histogram(Levels(es))
  }

  function ModulesOf(es: seq<LogEntry>): set<string>
  {
    set e | e in es :: e.moduleName
  }

  function FunctionsOf(es: seq<LogEntry>): set<string>
  {
    set e | e in es :: e.functionName
  }

  function EarliestOf(es: seq<LogEntry>): Option<int>
  {
    if es == [] then None else Some(MinTs(es))
  }

  function LatestOf(es: seq<LogEntry>): Option<int>
  {
    if es == [] then None else Some(MaxTs(es))
  }

  /** s is what get_log_stats reports for the selected files and the entries read from them. */
  ghost predicate Describes(s: CorpusStats, files: seq<string>, es: seq<LogEntry>)
  {
    && s.totalFiles == |files|
    && s.totalEntries == |es|
    && s.levelOrder == FirstSeen(Levels(es))
    && s.levels == LevelHistogram(es)
    && Text.StrictlySorted(s.uniqueModules)
    && Text.Elems(s.uniqueModules) == ModulesOf(es)
    && s.uniqueFunctions == |FunctionsOf(es)|
    && s.earliest == EarliestOf(es)
    && s.latest == LatestOf(es)
  }

  /** A report is determined by the selected files and the entries read from them. */
  lemma DescribesUnique(s1: CorpusStats, s2: CorpusStats, files: seq<string>, es: seq<LogEntry>)
    requires Describes(s1, files, es) && Describes(s2, files, es)
    ensures s1 == s2
  {
    Text.SortedUnique(s1.uniqueModules, s2.uniqueModules);
  }

  /** The level counts, added up in key order. */
  function SumLevels(order: seq<string>, levels: map<string, nat>): int
    requires forall l :: l in order ==> l in levels
  {
    if order == [] then 0 else SumLevels(order[..|order| - 1], levels) + levels[order[|order| - 1]]
  }

  lemma {:induction false} SumLevelsIsSumOcc(order: seq<string>, es: seq<LogEntry>)
    requires forall l :: l in order ==> l in LevelHistogram(es)
    ensures SumLevels(order, LevelHistogram(es)) == SumOcc(order, Levels(es))
  {
    if order != [] {
      SumLevelsIsSumOcc(order[..|order| - 1], es);
    }
  }

  /**
   * What the reported statistics promise: the level counts add up to
   * total_entries, the modules come sorted without duplicates, the time
   * range is absent exactly when no entry was read, and earliest <= latest,
   * both being timestamps of entries read.
   */
  lemma StatsConsistent(s: CorpusStats, files: seq<string>, es: seq<LogEntry>)
    requires Describes(s, files, es)
    ensures forall l :: l in s.levelOrder <==> l in s.levels
    ensures SumLevels(s.levelOrder, s.levels) == s.totalEntries
    ensures forall i, j :: 0 <= i < j < |s.uniqueModules| ==> s.uniqueModules[i] != s.uniqueModules[j]
    ensures s.earliest.None? <==> s.totalEntries == 0
    ensures s.latest.None? <==> s.totalEntries == 0
    ensures s.earliest.Some? && s.latest.Some? ==> s.earliest.value <= s.latest.value
    ensures s.earliest.Some? ==> exists e :: e in es && e.ts == s.earliest.value
    ensures s.latest.Some? ==> exists e :: e in es && e.ts == s.latest.value
    ensures s.earliest.Some? ==> forall e :: e in es ==> s.earliest.value <= e.ts <= s.latest.value
  {
    FirstSeenKeys(Levels(es));
    HistogramTotal(Levels(es));
    SumLevelsIsSumOcc(s.levelOrder, es);
    forall i, j | 0 <= i < j < |s.uniqueModules| ensures s.uniqueModules[i] != s.uniqueModules[j] {
      Text.LessIrreflexive(s.uniqueModules[i]);
    }
    if es != [] {
      assert es[0] in es;
    }
  }

  /** A histogram counts only levels that occur, each at least once. */
  lemma LevelCountsPositive(es: seq<LogEntry>)
    ensures forall l :: l in LevelHistogram(es) ==> LevelHistogram(es)[l] > 0
    ensures forall e :: e in es ==> e.level in LevelHistogram(es)
  {
    FirstSeenKeys(Levels(es));
    forall l | l in LevelHistogram(es) ensures LevelHistogram(es)[l] > 0 {
      OccPositive(Levels(es), l);
    }
    forall e | e in es ensures e.level in LevelHistogram(es) {
      var i :| 0 <= i < |es| && es[i] == e;
      assert Levels(es)[i] in Levels(es);
    }
  }

  /** One more entry counted: a level not seen before joins the level order. */
  lemma LevelOrderStep(es: seq<LogEntry>, e: LogEntry)
    ensures FirstSeen(Levels(es + [e])) ==
      if e.level in LevelHistogram(es) then FirstSeen(Levels(es)) else FirstSeen(Levels(es)) + [e.level]
  {
    LevelsSnoc(es, e);
    HistogramKeys(Levels(es));
    FirstSeenStep(Levels(es), e.level);
  }

  /** One more entry counted: its level's count starts at 1 or goes up by 1. */
  lemma LevelCountStep(es: seq<LogEntry>, e: LogEntry)
    ensures LevelHistogram(es + [e]) ==
      LevelHistogram(es)[e.level := if e.level in LevelHistogram(es) then LevelHistogram(es)[e.level] + 1 else 1]
  {
    LevelsSnoc(es, e);
    HistogramStep(Levels(es), e.level);
  }

  lemma LevelsSnoc(es: seq<LogEntry>, e: LogEntry)
    ensures Levels(es + [e]) == Levels(es) + [e.level]
  {
    assert (es + [e])[..|es|] == es;
  }

  /** One more entry counted: the module and function sets grow by its values. */
  lemma NameSetsStep(es: seq<LogEntry>, e: LogEntry)
    ensures ModulesOf(es + [e]) == ModulesOf(es) + {e.moduleName}
    ensures FunctionsOf(es + [e]) == FunctionsOf(es) + {e.functionName}
  {
    var all := es + [e];
    assert forall x :: x in all <==> x in es || x == e;
  }

  /** One more entry: the earliest timestamp is the smaller of the old one and the new entry's. */
  lemma MinSnoc(es: seq<LogEntry>, e: LogEntry)
    requires es != []
    ensures MinTs(es + [e]) == if e.ts < MinTs(es) then e.ts else MinTs(es)
  {
    var m := MinTs(es + [e]);
    assert e in es + [e];
    assert forall x :: x in es ==> x in es + [e];
    var w :| w in es + [e] && w.ts == m;
    if w != e {
      assert w in es;
    }
  }

  /** One more entry: the latest timestamp is the larger of the old one and the new entry's. */
  lemma MaxSnoc(es: seq<LogEntry>, e: LogEntry)
    requires es != []
    ensures MaxTs(es + [e]) == if e.ts > MaxTs(es) then e.ts else MaxTs(es)
  {
    var m := MaxTs(es + [e]);
    assert e in es + [e];
    assert forall x :: x in es ==> x in es + [e];
    var w :| w in es + [e] && w.ts == m;
    if w != e {
      assert w in es;
    }
  }

  /** One more entry counted: the running earliest and latest timestamps. */
  lemma TimeStep(es: seq<LogEntry>, e: LogEntry)
    ensures EarliestOf(es + [e]) ==
      if EarliestOf(es).None? || e.ts < EarliestOf(es).value then Some(e.ts) else EarliestOf(es)
    ensures LatestOf(es + [e]) ==
      if LatestOf(es).None? || e.ts > LatestOf(es).value then Some(e.ts) else LatestOf(es)
  {
    if es == [] {
      assert es + [e] == [e];
    } else {
      MinSnoc(es, e);
      MaxSnoc(es, e);
    }
  }

  /** The running totals of get_log_stats. */
  datatype Tally = Tally(total: nat, levelOrder: seq<string>, levels: map<string, nat>,
                         modules: set<string>, functions: set<string>,
                         earliest: Option<int>, latest: Option<int>)

  /**
   * One entry counted by get_log_stats: the total goes up, the level count
   * is bumped (a new level joins the key order), the module and function
   * join their sets, and the running earliest and latest are updated.
   */
  function Count(t: Tally, e: LogEntry): Tally
  {
    var known := e.level in t.levels;
    Tally(t.total + 1,
          if known then t.levelOrder else t.levelOrder + [e.level],
          t.levels[e.level := (if known then t.levels[e.level] else 0) + 1],
          t.modules + {e.moduleName},
          t.functions + {e.functionName},
          if t.earliest.None? || e.ts < t.earliest.value then Some(e.ts) else t.earliest,
          if t.latest.None? || e.ts > t.latest.value then Some(e.ts) else t.latest)
  }

  /** The totals after counting es, one entry at a time from the empty ones. */
  function TallyOf(es: seq<LogEntry>): Tally
  {
    if es == [] then Tally(0, [], map[], {}, {}, None, None)
    else Count(TallyOf(es[..|es| - 1]), es[|es| - 1])
  }

  /** The running total and level counts are the entry count and the level histogram. */
  lemma {:induction false} TallyCounts(es: seq<LogEntry>)
    ensures TallyOf(es).total == |es| && TallyOf(es).levels == LevelHistogram(es)
  {
    if es != [] {
      var init, last := es[..|es| - 1], es[|es| - 1];
      TallyCounts(init);
      assert es == init + [last];
      assert TallyOf(es) == Count(TallyOf(init), last);
      LevelCountStep(init, last);
    }
  }

  /** The running level order is the order in which the levels first occur. */
  lemma {:induction false} TallyOrder(es: seq<LogEntry>)
    ensures TallyOf(es).levelOrder == FirstSeen(Levels(es))
  {
    if es != [] {
      var init, last := es[..|es| - 1], es[|es| - 1];
      TallyOrder(init);
      TallyCounts(init);
      assert es == init + [last];
      assert TallyOf(es) == Count(TallyOf(init), last);
      LevelOrderStep(init, last);
    }
  }

  /** The running module and function sets are those of the entries. */
  lemma {:induction false} TallyNames(es: seq<LogEntry>)
    ensures TallyOf(es).modules == ModulesOf(es) && TallyOf(es).functions == FunctionsOf(es)
  {
    if es != [] {
      var init, last := es[..|es| - 1], es[|es| - 1];
      TallyNames(init);
      assert es == init + [last];
      NameSetsStep(init, last);
    }
  }

  /** The running earliest and latest are the least and greatest timestamps. */
  lemma {:induction false} TallyTimes(es: seq<LogEntry>)
    ensures TallyOf(es).earliest == EarliestOf(es) && TallyOf(es).latest == LatestOf(es)
  {
    if es != [] {
      var init, last := es[..|es| - 1], es[|es| - 1];
      TallyTimes(init);
      assert es == init + [last];
      TimeStep(init, last);
    }
  }

  /**
   * The running totals mean what get_log_stats reports: the number of
   * entries, the level histogram in first-seen order, the module and
   * function sets, and the least and greatest timestamps.
   */
  lemma TallyOfMeans(es: seq<LogEntry>)
    ensures TallyOf(es) == Tally(|es|, FirstSeen(Levels(es)), LevelHistogram(es), ModulesOf(es),
                                 FunctionsOf(es), EarliestOf(es), LatestOf(es))
  {
    TallyCounts(es);
    TallyOrder(es);
    TallyNames(es);
    TallyTimes(es);
  }

  /** The counting loop's step: one more entry of xs after es. */
  lemma TallyNext(es: seq<LogEntry>, xs: seq<LogEntry>, j: int)
    requires 0 <= j < |xs|
    ensures TallyOf(es + xs[..j + 1]) == Count(TallyOf(es + xs[..j]), xs[j])
  {
    assert es + xs[..j + 1] == (es + xs[..j]) + [xs[j]];
    assert (es + xs[..j + 1])[..|es + xs[..j + 1]| - 1] == es + xs[..j];
  }
}
