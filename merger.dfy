/** The merger `merge_and_sort`: partial per-station tables, flattened into
    one run of `(station, Stat)` pairs, are folded into one entry per
    station and returned in byte-lexicographic order of the station names. */
module Merger {
  import opened Bytes
  import opened Tables
  import opened Stats

  type Entry = (Key, Stat)

  // ---------------------------------------------------------------------
  // Folding the partial statistics of one station.

  /** The partial statistics merged left to right, as the `entry` update does. */
  function MergeAll(ss: seq<Stat>): Stat
    requires |ss| > 0
  {
    if |ss| == 1 then ss[0] else MergeAll(ss[..|ss| - 1]).Merge(ss[|ss| - 1])
  }

  lemma {:induction false} MergeAllConcat(a: seq<Stat>, b: seq<Stat>)
    requires |a| > 0 && |b| > 0
    ensures MergeAll(a + b) == MergeAll(a).Merge(MergeAll(b))
    decreases |b|
  {
    assert (a + b)[..|a + b| - 1] == a + b[..|b| - 1];
    if |b| > 1 {
      MergeAllConcat(a, b[..|b| - 1]);
      MergeAssociative(MergeAll(a), MergeAll(b[..|b| - 1]), b[|b| - 1]);
    }
  }

  /** Taking one element out of the middle and merging it last changes nothing. */
  lemma MergeAllMoveLast(a: seq<Stat>, x: Stat, b: seq<Stat>)
    requires |a + b| > 0
    ensures MergeAll(a + [x] + b) == MergeAll(a + b).Merge(x)
  {
    if |b| == 0 {
      assert a + [x] + b == a + [x];
      assert a + b == a;
      assert (a + [x])[..|a|] == a;
    } else if |a| == 0 {
      assert a + [x] + b == [x] + b;
      assert a + b == b;
      MergeAllConcat([x], b);
      MergeCommutative(x, MergeAll(b));
    } else {
      assert a + [x] + b == (a + [x]) + b;
      MergeAllConcat(a + [x], b);
      assert (a + [x])[..|a|] == a;
      MergeAllConcat(a, b);
      MergeAssociative(MergeAll(a), x, MergeAll(b));
      MergeCommutative(x, MergeAll(b));
      MergeAssociative(MergeAll(a), MergeAll(b), x);
    }
  }

  /** The order in which the partial statistics arrive does not matter. */
  lemma {:induction false} MergeAllPermutation(ss: seq<Stat>, ts: seq<Stat>)
    requires |ss| > 0 && multiset(ss) == multiset(ts)
    ensures |ts| == |ss| && MergeAll(ss) == MergeAll(ts)
    decreases |ss|
  {
    var init, last := ss[..|ss| - 1], ss[|ss| - 1];
    assert ss == init + [last];
    assert last in multiset(ts);
    var i :| 0 <= i < |ts| && ts[i] == last;
    var a, b := ts[..i], ts[i + 1..];
    assert ts == a + [last] + b;
    assert multiset(init) == multiset(a + b) by {
      assert multiset(ss) == multiset(init) + multiset{last};
      assert multiset(ts) == multiset(a) + multiset{last} + multiset(b);
      assert multiset(init) == multiset(ss) - multiset{last};
    }
    assert |ts| == |multiset(ts)| == |ss|;
    if |init| == 0 {
      assert |a + b| == |multiset(a + b)| == 0;
      assert ts == [last];
    } else {
      assert |a + b| == |multiset(a + b)| > 0;
      MergeAllPermutation(init, a + b);
      MergeAllMoveLast(a, last, b);
    }
  }

  /** Merging the summaries of several runs summarises their concatenation. */
  lemma {:induction false} MergeAllSummaries(runs: seq<seq<int>>)
    requires |runs| > 0 && forall i :: 0 <= i < |runs| ==> |runs[i]| > 0
    ensures |Flatten(runs)| > 0
    ensures MergeAll(Summaries(runs)) == Summary(Flatten(runs))
    decreases |runs|
  {
    var init := runs[..|runs| - 1];
    if |runs| == 1 {
      assert Flatten(runs) == Flatten(init) + runs[0] == runs[0];
    } else {
      MergeAllSummaries(init);
      assert Summaries(runs)[..|runs| - 1] == Summaries(init);
      MergeSummary(Flatten(init), runs[|runs| - 1]);
    }
  }

  /** The runs glued together, in order. */
  function Flatten(runs: seq<seq<int>>): (xs: seq<int>)
    ensures |runs| > 0 && |runs[|runs| - 1]| > 0 ==> |xs| > 0
  {
    if |runs| == 0 then [] else Flatten(runs[..|runs| - 1]) + runs[|runs| - 1]
  }

  function Summaries(runs: seq<seq<int>>): (ss: seq<Stat>)
    requires forall i :: 0 <= i < |runs| ==> |runs[i]| > 0
    ensures |ss| == |runs|
  {
    if |runs| == 0 then [] else Summaries(runs[..|runs| - 1]) + [Summary(runs[|runs| - 1])]
  }

  // ---------------------------------------------------------------------
  // The ordered result.

  /** Strictly increasing station names; in particular no name twice. */
  predicate Sorted(s: seq<Entry>)
  {
    forall i, j :: 0 <= i < j < |s| ==> Below(s[i].0, s[j].0)
  }

  /** What `merge_and_sort` returns for `pairs`: one entry per station that
      occurs, in order, holding the merge of all its partial statistics. */
  ghost predicate MergedAndSorted(pairs: seq<Entry>, out: seq<Entry>)
  {
    && Sorted(out)
    && KeysOf(out) == KeysOf(pairs)
    && forall i :: 0 <= i < |out| ==> ValuesFor(pairs, out[i].0) != [] && out[i].1 == MergeAll(ValuesFor(pairs, out[i].0))
  }

  /** Inserting a new station into an ordered run, as the `BTreeMap` does. */
  function Insert(s: seq<Entry>, k: Key, v: Stat): (r: seq<Entry>)
    requires Sorted(s) && k !in KeysOf(s)
    ensures Sorted(r)
    ensures multiset(r) == multiset(s) + multiset{(k, v)}
    decreases |s|
  {
    if |s| == 0 then [(k, v)]
    else if Below(k, s[0].0) then
      SortedBefore(s, k, v);
      [(k, v)] + s
    else
      SortedTail(s, k);
      var tail := Insert(s[1..], k, v);
      SortedAfter(s, k, v, tail);
      [s[0]] + tail
  }

  /** A station below the first of an ordered run can go in front of it. */
  lemma SortedBefore(s: seq<Entry>, k: Key, v: Stat)
    requires Sorted(s) && |s| > 0 && Below(k, s[0].0)
    ensures Sorted([(k, v)] + s)
    ensures multiset([(k, v)] + s) == multiset(s) + multiset{(k, v)}
  {
    forall j | 0 < j < |s| ensures Below(k, s[j].0) {
      BelowTransitive(k, s[0].0, s[j].0);
    }
  }

  /** A new station not below the first of an ordered run is above it,
      and is new to the rest of the run. */
  lemma SortedTail(s: seq<Entry>, k: Key)
    requires Sorted(s) && |s| > 0 && k !in KeysOf(s) && !Below(k, s[0].0)
    ensures Below(s[0].0, k)
    ensures Sorted(s[1..]) && k !in KeysOf(s[1..])
  {
    assert s[0].0 in KeysOf(s);
    BelowTotal(k, s[0].0);
    forall i | 0 <= i < |s[1..]| ensures s[1..][i].0 != k {
      assert s[1..][i] == s[i + 1];
    }
  }

  /** The first entry can stay in front of the rest with the station inserted. */
  lemma SortedAfter(s: seq<Entry>, k: Key, v: Stat, tail: seq<Entry>)
    requires Sorted(s) && |s| > 0 && Below(s[0].0, k)
    requires Sorted(tail) && multiset(tail) == multiset(s[1..]) + multiset{(k, v)}
    ensures Sorted([s[0]] + tail)
    ensures multiset([s[0]] + tail) == multiset(s) + multiset{(k, v)}
  {
    forall j | 0 <= j < |tail| ensures Below(s[0].0, tail[j].0) {
      assert tail[j] in multiset(s[1..]) + multiset{(k, v)};
      if tail[j] != (k, v) {
        assert tail[j] in s[1..];
      }
    }
    assert s == [s[0]] + s[1..];
  }

  /** The stations of an insertion are the old ones and the new one. */
  lemma InsertKeys(s: seq<Entry>, k: Key, v: Stat)
    requires Sorted(s) && k !in KeysOf(s)
    ensures KeysOf(Insert(s, k, v)) == KeysOf(s) + {k}
  {
    KeysOfPermutation(Insert(s, k, v), s + [(k, v)]);
    KeysOfAppend(s, k, v);
  }

  // ---------------------------------------------------------------------
  // The loops.

  /** `merged` holds, for each station in `pairs`, the merge of its partial
      statistics, and nothing else. */
  ghost predicate Merges(merged: map<Key, Stat>, pairs: seq<Entry>)
  {
    && merged.Keys == KeysOf(pairs)
    && forall k :: k in merged ==> ValuesFor(pairs, k) != [] && merged[k] == MergeAll(ValuesFor(pairs, k))
  }

  /** `and_modify(merge)`: one more partial result for a known station. */
  lemma MergesModify(merged: map<Key, Stat>, pairs: seq<Entry>, k: Key, v: Stat)
    requires Merges(merged, pairs) && k in merged
    ensures Merges(merged[k := merged[k].Merge(v)], pairs + [(k, v)])
  {
    var merged', pairs' := merged[k := merged[k].Merge(v)], pairs + [(k, v)];
    KeysOfAppend(pairs, k, v);
    forall j | j in merged' ensures ValuesFor(pairs', j) != [] && merged'[j] == MergeAll(ValuesFor(pairs', j)) {
      ValuesForAppend(pairs, k, v, j);
      if j == k {
        var vs := ValuesFor(pairs, k);
        assert (vs + [v])[..|vs|] == vs;
      } else {
        assert ValuesFor(pairs', j) == ValuesFor(pairs, j) + [];
        assert ValuesFor(pairs, j) + [] == ValuesFor(pairs, j);
        assert j in merged && merged'[j] == merged[j];
      }
    }
  }

  /** `or_insert`: the first partial result for a station. */
  lemma MergesInsert(merged: map<Key, Stat>, pairs: seq<Entry>, k: Key, v: Stat)
    requires Merges(merged, pairs) && k !in merged
    ensures Merges(merged[k := v], pairs + [(k, v)])
  {
    var merged', pairs' := merged[k := v], pairs + [(k, v)];
    KeysOfAppend(pairs, k, v);
    ValuesForNonEmpty(pairs, k);
    ValuesForAppend(pairs, k, v, k);
    assert ValuesFor(pairs', k) == [v];
    forall j | j in merged' && j != k ensures ValuesFor(pairs', j) != [] && merged'[j] == MergeAll(ValuesFor(pairs', j)) {
      ValuesForAppend(pairs, k, v, j);
      assert ValuesFor(pairs', j) == ValuesFor(pairs, j) + [];
      assert ValuesFor(pairs, j) + [] == ValuesFor(pairs, j);
      assert j in merged && merged'[j] == merged[j];
    }
  }

  /** `merge_and_sort`: fold the pairs into a table, then order its entries. */
  method MergeAndSort(pairs: seq<Entry>) returns (out: seq<Entry>)
    ensures MergedAndSorted(pairs, out)
  {
    var merged: map<Key, Stat> := map[];
    for i := 0 to |pairs|
      invariant Merges(merged, pairs[..i])
    {
      var (key, value) := pairs[i];
      assert pairs[..i + 1] == pairs[..i] + [(key, value)];
      if key in merged {
        MergesModify(merged, pairs[..i], key, value);
        merged := merged[key := merged[key].Merge(value)];
      } else {
        MergesInsert(merged, pairs[..i], key, value);
        merged := merged[key := value];
      }
    }
    assert pairs[..|pairs|] == pairs;
    out := [];
    var left := merged.Keys;
    while left != {}
      invariant left <= merged.Keys
      invariant Sorted(out)
      invariant KeysOf(out) == merged.Keys - left
      invariant EntriesOf(out, merged)
      decreases |left|
    {
      var k :| k in left;
      InsertEntry(out, merged, k);
      out, left := Insert(out, k, merged[k]), left - {k};
    }
    OrderedResult(pairs, merged, out);
  }

  /** Every entry of `out` is an entry of the table `merged`. */
  predicate EntriesOf(out: seq<Entry>, merged: map<Key, Stat>)
  {
    forall i :: 0 <= i < |out| ==> out[i].0 in merged && out[i].1 == merged[out[i].0]
  }

  /** One step of building the ordered map from the table. */
  lemma InsertEntry(out: seq<Entry>, merged: map<Key, Stat>, k: Key)
    requires Sorted(out) && k in merged && k !in KeysOf(out) && EntriesOf(out, merged)
    ensures KeysOf(Insert(out, k, merged[k])) == KeysOf(out) + {k}
    ensures EntriesOf(Insert(out, k, merged[k]), merged)
  {
    InsertKeys(out, k, merged[k]);
    var out' := Insert(out, k, merged[k]);
    forall i | 0 <= i < |out'| ensures out'[i].0 in merged && out'[i].1 == merged[out'[i].0] {
      assert out'[i] in multiset(out) + multiset{(k, merged[k])};
      if out'[i] != (k, merged[k]) {
        assert out'[i] in out;
      }
    }
  }

  /** The ordered entries of the folded table are the specified result. */
  lemma OrderedResult(pairs: seq<Entry>, merged: map<Key, Stat>, out: seq<Entry>)
    requires Merges(merged, pairs) && Sorted(out) && KeysOf(out) == merged.Keys && EntriesOf(out, merged)
    ensures MergedAndSorted(pairs, out)
  {
  }

  // ---------------------------------------------------------------------
  // The result is determined by the input, whatever its order.

  /** Two ordered runs with the same stations are in the same order. */
  lemma {:induction false} SortedSameKeys(a: seq<Entry>, b: seq<Entry>)
    requires Sorted(a) && Sorted(b) && KeysOf(a) == KeysOf(b)
    ensures |a| == |b| && forall i :: 0 <= i < |a| ==> a[i].0 == b[i].0
    decreases |a|
  {
    assert |a| > 0 ==> a[0].0 in KeysOf(b);
    assert |b| > 0 ==> b[0].0 in KeysOf(a);
    if |a| > 0 && |b| > 0 {
      assert a[0].0 in KeysOf(b);
      assert b[0].0 in KeysOf(a);
      var i :| 0 <= i < |b| && b[i].0 == a[0].0;
      var j :| 0 <= j < |a| && a[j].0 == b[0].0;
      if i > 0 && j > 0 {
        BelowAsymmetric(b[0].0, a[0].0);
      } else if i > 0 {
        BelowIrreflexive(a[0].0);
      } else if j > 0 {
        BelowIrreflexive(b[0].0);
      }
      assert a[0].0 == b[0].0;
      forall k | k in KeysOf(a[1..]) ensures k in KeysOf(b[1..]) {
        var p :| 0 <= p < |a[1..]| && a[1..][p].0 == k;
        assert a[p + 1].0 in KeysOf(b);
        var q :| 0 <= q < |b| && b[q].0 == k;
        if q == 0 { BelowIrreflexive(k); }
        assert b[1..][q - 1] == b[q];
      }
      forall k | k in KeysOf(b[1..]) ensures k in KeysOf(a[1..]) {
        var q :| 0 <= q < |b[1..]| && b[1..][q].0 == k;
        assert b[q + 1].0 in KeysOf(a);
        var p :| 0 <= p < |a| && a[p].0 == k;
        if p == 0 { BelowIrreflexive(k); }
        assert a[1..][p - 1] == a[p];
      }
      SortedSameKeys(a[1..], b[1..]);
      forall i | 0 < i < |a| ensures a[i].0 == b[i].0 {
        assert a[1..][i - 1] == a[i] && b[1..][i - 1] == b[i];
      }
    }
  }

  /** Any two results meeting the specification are equal. */
  lemma MergedAndSortedUnique(pairs: seq<Entry>, a: seq<Entry>, b: seq<Entry>)
    requires MergedAndSorted(pairs, a) && MergedAndSorted(pairs, b)
    ensures a == b
  {
    SortedSameKeys(a, b);
  }

  /** Reordering the input (the chunks finishing in another order, a table
      iterated in another order) gives a result that meets the same specification. */
  lemma MergedAndSortedPermutation(ps: seq<Entry>, qs: seq<Entry>, out: seq<Entry>)
    requires multiset(ps) == multiset(qs) && MergedAndSorted(ps, out)
    ensures MergedAndSorted(qs, out)
  {
    KeysOfPermutation(ps, qs);
    forall i | 0 <= i < |out| ensures ValuesFor(qs, out[i].0) != [] && out[i].1 == MergeAll(ValuesFor(qs, out[i].0)) {
      var k := out[i].0;
      ValuesForPermutation(ps, qs, k);
      MergeAllPermutation(ValuesFor(ps, k), ValuesFor(qs, k));
    }
  }
}
