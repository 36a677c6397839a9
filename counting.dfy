/**
 * Histograms as Python dicts build them: keys in first-seen order, and a
 * count per key that adds up to the number of items counted.
 */
module Counting {

  /** How often k occurs in ks. */
  function Occ<K(==)>(ks: seq<K>, k: K): nat
  {
    if ks == [] then 0
    else Occ(ks[..|ks| - 1], k) + (if ks[|ks| - 1] == k then 1 else 0)
  }

  /** The distinct elements of ks, each where it first occurs: the key order of a dict filled from ks. */
  function FirstSeen<K(==)>(ks: seq<K>): seq<K>
  {
    if ks == [] then []
    else
      var init := FirstSeen(ks[..|ks| - 1]);
      if ks[|ks| - 1] in init then init else init + [ks[|ks| - 1]]
  }

  predicate Distinct<K(==)>(s: seq<K>)
  {
    forall i, j :: 0 <= i < j < |s| ==> s[i] != s[j]
  }

  /** The order lists every element of ks, once each, and nothing else. */
  lemma {:induction false} FirstSeenKeys<K>(ks: seq<K>)
    ensures Distinct(FirstSeen(ks))
    ensures forall k :: k in FirstSeen(ks) <==> k in ks
  {
    if ks != [] {
      FirstSeenKeys(ks[..|ks| - 1]);
      assert ks == ks[..|ks| - 1] + [ks[|ks| - 1]];
    }
  }

  /** Without repetitions, the first-seen order is the sequence itself. */
  lemma {:induction false} FirstSeenDistinct<K>(ks: seq<K>)
    requires Distinct(ks)
    ensures FirstSeen(ks) == ks
  {
    if ks != [] {
      var init, last := ks[..|ks| - 1], ks[|ks| - 1];
      assert Distinct(init);
      FirstSeenDistinct(init);
      assert last !in init;
    }
  }

  /** k occurs in ks exactly when its count is positive. */
  lemma {:induction false} OccPositive<K>(ks: seq<K>, k: K)
    ensures Occ(ks, k) > 0 <==> k in ks
  {
    if ks != [] {
      OccPositive(ks[..|ks| - 1], k);
      assert ks == ks[..|ks| - 1] + [ks[|ks| - 1]];
    }
  }

  /** The counts of the keys in `keys`, added up. */
  function SumOcc<K(==)>(keys: seq<K>, ks: seq<K>): nat
  {
    if keys == [] then 0 else SumOcc(keys[..|keys| - 1], ks) + Occ(ks, keys[|keys| - 1])
  }

  lemma {:induction false} SumOccSnoc<K>(keys: seq<K>, ks: seq<K>, x: K)
    ensures SumOcc(keys, ks + [x]) == SumOcc(keys, ks) + Occ(keys, x)
  {
    assert (ks + [x])[..|ks|] == ks;
    if keys != [] {
      SumOccSnoc(keys[..|keys| - 1], ks, x);
    }
  }

  lemma {:induction false} OccDistinct<K>(keys: seq<K>, x: K)
    requires Distinct(keys)
    ensures Occ(keys, x) == (if x in keys then 1 else 0)
  {
    if keys != [] {
      var init := keys[..|keys| - 1];
      OccDistinct(init, x);
      assert keys == init + [keys[|keys| - 1]];
    }
  }

  /** Every item falls under exactly one of a complete list of distinct keys, so the counts add up to |ks|. */
  lemma {:induction false} SumOccComplete<K>(keys: seq<K>, ks: seq<K>)
    requires Distinct(keys)
    requires forall k :: k in ks ==> k in keys
    ensures SumOcc(keys, ks) == |ks|
  {
    if ks == [] {
      SumOccEmpty(keys, ks);
    } else {
      var init := ks[..|ks| - 1];
      var x := ks[|ks| - 1];
      assert ks == init + [x];
      SumOccComplete(keys, init);
      SumOccSnoc(keys, init, x);
      OccDistinct(keys, x);
    }
  }

  lemma {:induction false} SumOccEmpty<K>(keys: seq<K>, ks: seq<K>)
    requires ks == []
    ensures SumOcc(keys, ks) == 0
  {
    if keys != [] {
      SumOccEmpty(keys[..|keys| - 1], ks);
    }
  }

  /** The histogram of a sequence counts every item once: its key order's counts add up to the length. */
  lemma HistogramTotal<K>(ks: seq<K>)
    ensures SumOcc(FirstSeen(ks), ks) == |ks|
  {
    FirstSeenKeys(ks);
    SumOccComplete(FirstSeen(ks), ks);
  }

  /** Each distinct element of ks with its count: a dict of counters filled from ks. */
  function Histogram<K(==)>(ks: seq<K>): map<K, nat>
  {
    map k | k in FirstSeen(ks) :: Occ(ks, k)
  }

  /** The histogram has a key for exactly the elements that occur. */
  lemma HistogramKeys<K>(ks: seq<K>)
    ensures forall k :: k in Histogram(ks) <==> k in ks
  {
    FirstSeenKeys(ks);
  }

  lemma FirstSeenStep<K>(ks: seq<K>, x: K)
    ensures FirstSeen(ks + [x]) == if x in ks then FirstSeen(ks) else FirstSeen(ks) + [x]
    ensures forall k :: Occ(ks + [x], k) == Occ(ks, k) + (if x == k then 1 else 0)
  {
    assert (ks + [x])[..|ks|] == ks;
    FirstSeenKeys(ks);
  }

  /** Counting one more item x: a new key starts at 1, a known one goes up by 1. */
  lemma HistogramStep<K>(ks: seq<K>, x: K)
    ensures Histogram(ks + [x]) == Histogram(ks)[x := if x in Histogram(ks) then Histogram(ks)[x] + 1 else 1]
  {
    FirstSeenStep(ks, x);
    FirstSeenKeys(ks);
    FirstSeenKeys(ks + [x]);
    var h := Histogram(ks);
    var h2 := Histogram(ks + [x]);
    var expected := h[x := if x in h then h[x] + 1 else 1];
    assert h2.Keys == expected.Keys;
    forall k | k in h2 ensures h2[k] == expected[k] {
      if k == x && x !in h {
        OccPositive(ks, k);
      }
    }
  }
}
