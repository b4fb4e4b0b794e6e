/** Sequences of `(station, value)` pairs, the shape in which the aggregator
    reads its records and the merger receives partial tables, and the two
    views that give a per-station table its meaning: which stations occur,
    and which values were seen for one station, in order. */
module Tables {
  import opened Bytes

  type Key = seq<byte>

  /** The stations that occur in `ps`. */
  function KeysOf<V>(ps: seq<(Key, V)>): set<Key>
  {
    set i | 0 <= i < |ps| :: ps[i].0
  }

  /** The values recorded for station `k`, in the order of `ps`. */
  function ValuesFor<V>(ps: seq<(Key, V)>, k: Key): (vs: seq<V>)
    ensures |vs| <= |ps|
    decreases |ps|
  {
    if |ps| == 0 then []
    else
      var last := ps[|ps| - 1];
      ValuesFor(ps[..|ps| - 1], k) + (if last.0 == k then [last.1] else [])
  }

  lemma KeysOfAppend<V>(ps: seq<(Key, V)>, k: Key, v: V)
    ensures KeysOf(ps + [(k, v)]) == KeysOf(ps) + {k}
  {
    var qs := ps + [(k, v)];
    assert qs[|ps|].0 == k;
    forall j | j in KeysOf(qs) ensures j in KeysOf(ps) + {k} {
      var i :| 0 <= i < |qs| && qs[i].0 == j;
      if i < |ps| { assert ps[i] == qs[i]; }
    }
    forall j | j in KeysOf(ps) ensures j in KeysOf(qs) {
      var i :| 0 <= i < |ps| && ps[i].0 == j;
      assert qs[i] == ps[i];
    }
  }

  lemma ValuesForAppend<V>(ps: seq<(Key, V)>, k: Key, v: V, j: Key)
    ensures ValuesFor(ps + [(k, v)], j) == ValuesFor(ps, j) + (if j == k then [v] else [])
  {
    assert (ps + [(k, v)])[..|ps|] == ps;
  }

  /** A station has values exactly when it occurs. */
  lemma {:induction false} ValuesForNonEmpty<V>(ps: seq<(Key, V)>, k: Key)
    ensures ValuesFor(ps, k) != [] <==> k in KeysOf(ps)
    decreases |ps|
  {
    if |ps| > 0 {
      var init, last := ps[..|ps| - 1], ps[|ps| - 1];
      assert ps == init + [last];
      ValuesForNonEmpty(init, k);
      KeysOfAppend(init, last.0, last.1);
    }
  }

  lemma {:induction false} ValuesForConcat<V>(ps: seq<(Key, V)>, qs: seq<(Key, V)>, k: Key)
    ensures ValuesFor(ps + qs, k) == ValuesFor(ps, k) + ValuesFor(qs, k)
    decreases |qs|
  {
    if |qs| > 0 {
      var init, last := qs[..|qs| - 1], qs[|qs| - 1];
      assert ps + qs == (ps + init) + [last];
      assert qs == init + [last];
      ValuesForConcat(ps, init, k);
      ValuesForAppend(ps + init, last.0, last.1, k);
      ValuesForAppend(init, last.0, last.1, k);
      var tail := if last.0 == k then [last.1] else [];
      calc {
        ValuesFor(ps + qs, k);
        ValuesFor((ps + init) + [last], k);
        ValuesFor(ps + init, k) + tail;
        ValuesFor(ps, k) + ValuesFor(init, k) + tail;
        ValuesFor(ps, k) + (ValuesFor(init, k) + tail);
        ValuesFor(ps, k) + ValuesFor(qs, k);
      }
    } else {
      assert ps + qs == ps;
    }
  }

  /** Taking one pair out of `qs` takes its value out of that station's values. */
  lemma ValuesForRemove<V>(qs: seq<(Key, V)>, i: nat, k: Key)
    requires i < |qs|
    ensures multiset(ValuesFor(qs, k))
         == multiset(ValuesFor(qs[..i] + qs[i + 1..], k)) + multiset(if qs[i].0 == k then [qs[i].1] else [])
  {
    var a, x, b := qs[..i], qs[i], qs[i + 1..];
    assert qs == (a + [x]) + b;
    ValuesForConcat(a + [x], b, k);
    ValuesForAppend(a, x.0, x.1, k);
    ValuesForConcat(a, b, k);
  }

  /** Reordering the pairs reorders each station's values. */
  lemma {:induction false} ValuesForPermutation<V>(ps: seq<(Key, V)>, qs: seq<(Key, V)>, k: Key)
    requires multiset(ps) == multiset(qs)
    ensures multiset(ValuesFor(ps, k)) == multiset(ValuesFor(qs, k))
    decreases |ps|
  {
    if |ps| == 0 {
      assert |qs| == |multiset(qs)| == 0;
    } else {
      var init, last := ps[..|ps| - 1], ps[|ps| - 1];
      assert ps == init + [last];
      assert last in multiset(qs);
      var i :| 0 <= i < |qs| && qs[i] == last;
      var rest := qs[..i] + qs[i + 1..];
      assert qs == qs[..i] + [last] + qs[i + 1..];
      assert multiset(ps) == multiset(init) + multiset{last};
      assert multiset(qs) == multiset(qs[..i]) + multiset{last} + multiset(qs[i + 1..]);
      assert multiset(rest) == multiset(qs[..i]) + multiset(qs[i + 1..]);
      assert multiset(init) == multiset(ps) - multiset{last};
      assert multiset(init) == multiset(rest);
      ValuesForPermutation(init, rest, k);
      ValuesForAppend(init, last.0, last.1, k);
      ValuesForRemove(qs, i, k);
    }
  }

  /** Reordering the pairs keeps the set of stations. */
  lemma KeysOfPermutation<V>(ps: seq<(Key, V)>, qs: seq<(Key, V)>)
    requires multiset(ps) == multiset(qs)
    ensures KeysOf(ps) == KeysOf(qs)
  {
    forall k | k in KeysOf(ps) ensures k in KeysOf(qs) {
      var i :| 0 <= i < |ps| && ps[i].0 == k;
      assert ps[i] in multiset(qs);
      var j :| 0 <= j < |qs| && qs[j] == ps[i];
    }
    forall k | k in KeysOf(qs) ensures k in KeysOf(ps) {
      var j :| 0 <= j < |qs| && qs[j].0 == k;
      assert qs[j] in multiset(ps);
      var i :| 0 <= i < |ps| && ps[i] == qs[j];
    }
  }
}
