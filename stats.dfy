/** Per-station statistics `Stat` (minimum, maximum, sum and count of the
    temperatures seen, all in tenths of a degree) and the monoid it forms
    under `merge`. */
module Stats {

  function Min(a: int, b: int): int { if a <= b then a else b }
  function Max(a: int, b: int): int { if a >= b then a else b }

  datatype Stat = Stat(min: int, max: int, total: int, count: nat)
  {
    /** What holds of the statistics of any non-empty run of observations. */
    predicate Valid()
    {
      count >= 1 && min <= max && count * min <= total <= count * max
    }

    /** `Stat::new`: the statistics of a single observation. */
    static function New(num: int): (r: Stat)
      ensures r == Summary([num])
    {
      assert [num][..0] == [];
      assert SumOf([num]) == num && MinOf([num]) == num && MaxOf([num]) == num;
      Stat(num, num, num, 1)
    }

    /** `Stat::update`: fold one more observation in. The new range covers
        the old one and the observation, and one more observation is counted. */
    function Update(num: int): (r: Stat)
      ensures r.min <= min && r.min <= num && (r.min == min || r.min == num)
      ensures r.max >= max && r.max >= num && (r.max == max || r.max == num)
      ensures r.total - total == num && r.count == count + 1
    {
      Stat(Min(min, num), Max(max, num), total + num, count + 1)
    }

    /** `Stat::merge`: combine the statistics of two disjoint runs. The new
        range is the smallest covering both, and the sums and counts add. */
    function Merge(other: Stat): (r: Stat)
      ensures r.min <= min && r.min <= other.min && (r.min == min || r.min == other.min)
      ensures r.max >= max && r.max >= other.max && (r.max == max || r.max == other.max)
      ensures r.total == total + other.total && r.count == count + other.count
    {
      Stat(Min(min, other.min), Max(max, other.max), total + other.total, count + other.count)
    }
  }

  /** `update` keeps the statistics valid. */
  lemma UpdateValid(s: Stat, num: int)
    requires s.Valid()
    ensures s.Update(num).Valid()
  {
    var r := s.Update(num);
    MulMonotone(s.count, r.min, s.min);
    MulMonotone(s.count, s.max, r.max);
  }

  /** `merge` of two valid statistics is valid. */
  lemma MergeValid(a: Stat, b: Stat)
    requires a.Valid() && b.Valid()
    ensures a.Merge(b).Valid()
  {
    var r := a.Merge(b);
    MulMonotone(a.count, r.min, a.min);
    MulMonotone(b.count, r.min, b.min);
    MulMonotone(a.count, a.max, r.max);
    MulMonotone(b.count, b.max, r.max);
    AddMul(a.count, b.count, r.min);
    AddMul(a.count, b.count, r.max);
  }

  /** The same statistics updated in place through `&mut self`. A table
      entry reached through `get_mut` or `entry` is owned by the table and
      never aliased, so updating it in place and storing `Update`'s result
      back are the same; these methods state that agreement. */
  class StatCell {
    var min: int
    var max: int
    var total: int
    var count: nat

    function Value(): Stat
      reads this
    {
      Stat(min, max, total, count)
    }

    /** `Stat::new`. */
    constructor (num: int)
      ensures Value() == Stat.New(num)
    {
      min, max, total, count := num, num, num, 1;
    }

    /** `Stat::update`. */
    method Update(num: int)
      modifies this
      ensures Value() == old(Value()).Update(num)
      ensures old(Value()).Valid() ==> Value().Valid()
    {
      min := Min(min, num);
      max := Max(max, num);
      total := total + num;
      count := count + 1;
      if old(Value()).Valid() {
        UpdateValid(old(Value()), num);
      }
    }

    /** `Stat::merge`; the borrow rules keep `other` apart from `this`. */
    method Merge(other: StatCell)
      requires other != this
      modifies this
      ensures Value() == old(Value()).Merge(other.Value())
      ensures old(Value()).Valid() && other.Value().Valid() ==> Value().Valid()
    {
      min := Min(min, other.min);
      max := Max(max, other.max);
      total := total + other.total;
      count := count + other.count;
      if old(Value()).Valid() && other.Value().Valid() {
        MergeValid(old(Value()), other.Value());
      }
    }
  }

  lemma MulMonotone(c: nat, a: int, b: int)
    requires a <= b
    ensures c * a <= c * b
  {
  }

  // ---------------------------------------------------------------------
  // The reference meaning: the statistics of a sequence of observations.

  function MinOf(xs: seq<int>): int
    requires |xs| > 0
  {
    if |xs| == 1 then xs[0] else Min(MinOf(xs[..|xs| - 1]), xs[|xs| - 1])
  }

  function MaxOf(xs: seq<int>): int
    requires |xs| > 0
  {
    if |xs| == 1 then xs[0] else Max(MaxOf(xs[..|xs| - 1]), xs[|xs| - 1])
  }

  /** The minimum is an observed value and no observation is below it. */
  lemma {:induction false} MinOfIsLeast(xs: seq<int>)
    requires |xs| > 0
    ensures MinOf(xs) in xs && forall i :: 0 <= i < |xs| ==> MinOf(xs) <= xs[i]
    decreases |xs|
  {
    if |xs| > 1 {
      var init := xs[..|xs| - 1];
      MinOfIsLeast(init);
      assert forall i :: 0 <= i < |init| ==> init[i] == xs[i];
    }
  }

  /** The maximum is an observed value and no observation is above it. */
  lemma {:induction false} MaxOfIsGreatest(xs: seq<int>)
    requires |xs| > 0
    ensures MaxOf(xs) in xs && forall i :: 0 <= i < |xs| ==> xs[i] <= MaxOf(xs)
    decreases |xs|
  {
    if |xs| > 1 {
      var init := xs[..|xs| - 1];
      MaxOfIsGreatest(init);
      assert forall i :: 0 <= i < |init| ==> init[i] == xs[i];
    }
  }

  function SumOf(xs: seq<int>): int
  {
    if |xs| == 0 then 0 else SumOf(xs[..|xs| - 1]) + xs[|xs| - 1]
  }

  /** The statistics a run of observations should produce. */
  function Summary(xs: seq<int>): Stat
    requires |xs| > 0
  {
    Stat(MinOf(xs), MaxOf(xs), SumOf(xs), |xs|)
  }

  /** The sum lies between count times the minimum and count times the maximum. */
  lemma {:induction false} SumBounds(xs: seq<int>)
    requires |xs| > 0
    ensures |xs| * MinOf(xs) <= SumOf(xs) <= |xs| * MaxOf(xs)
    decreases |xs|
  {
    if |xs| == 1 {
      assert xs[..0] == [];
    } else {
      var init, last := xs[..|xs| - 1], xs[|xs| - 1];
      var n, lo, hi := |init|, MinOf(xs), MaxOf(xs);
      SumBounds(init);
      MinOfIsLeast(xs);
      MaxOfIsGreatest(xs);
      MulMonotone(n, lo, MinOf(init));
      MulMonotone(n, MaxOf(init), hi);
      assert lo <= last <= hi;
      assert SumOf(xs) == SumOf(init) + last;
      Distribute(n, lo);
      Distribute(n, hi);
    }
  }

  lemma AddMul(a: int, b: int, m: int)
    ensures (a + b) * m == a * m + b * m
  {
  }

  lemma Distribute(n: int, m: int)
    ensures (n + 1) * m == n * m + m
  {
  }

  /** The statistics of a run are valid, and its minimum and maximum are observed values. */
  lemma SummaryValid(xs: seq<int>)
    requires |xs| > 0
    ensures Summary(xs).Valid()
    ensures Summary(xs).min in xs && Summary(xs).max in xs
    ensures forall i :: 0 <= i < |xs| ==> Summary(xs).min <= xs[i] <= Summary(xs).max
  {
    SumBounds(xs);
    MinOfIsLeast(xs);
    MaxOfIsGreatest(xs);
  }

  /** `update` extends the run by one observation. */
  lemma UpdateSummary(xs: seq<int>, num: int)
    requires |xs| > 0
    ensures Summary(xs).Update(num) == Summary(xs + [num])
  {
    assert (xs + [num])[..|xs|] == xs;
  }

  lemma {:induction false} MinOfConcat(xs: seq<int>, ys: seq<int>)
    requires |xs| > 0 && |ys| > 0
    ensures MinOf(xs + ys) == Min(MinOf(xs), MinOf(ys))
    decreases |ys|
  {
    var init := ys[..|ys| - 1];
    assert (xs + ys)[..|xs + ys| - 1] == xs + init;
    if |ys| > 1 {
      MinOfConcat(xs, init);
    }
  }

  lemma {:induction false} MaxOfConcat(xs: seq<int>, ys: seq<int>)
    requires |xs| > 0 && |ys| > 0
    ensures MaxOf(xs + ys) == Max(MaxOf(xs), MaxOf(ys))
    decreases |ys|
  {
    var init := ys[..|ys| - 1];
    assert (xs + ys)[..|xs + ys| - 1] == xs + init;
    if |ys| > 1 {
      MaxOfConcat(xs, init);
    }
  }

  lemma {:induction false} SumOfConcat(xs: seq<int>, ys: seq<int>)
    ensures SumOf(xs + ys) == SumOf(xs) + SumOf(ys)
    decreases |ys|
  {
    if |ys| == 0 {
      assert xs + ys == xs;
    } else {
      var init := ys[..|ys| - 1];
      assert (xs + ys)[..|xs + ys| - 1] == xs + init;
      SumOfConcat(xs, init);
    }
  }

  /** `merge` concatenates the two runs. */
  lemma MergeSummary(xs: seq<int>, ys: seq<int>)
    requires |xs| > 0 && |ys| > 0
    ensures Summary(xs).Merge(Summary(ys)) == Summary(xs + ys)
  {
    MinOfConcat(xs, ys);
    MaxOfConcat(xs, ys);
    SumOfConcat(xs, ys);
  }

  lemma MergeCommutative(a: Stat, b: Stat)
    ensures a.Merge(b) == b.Merge(a)
  {
  }

  lemma MergeAssociative(a: Stat, b: Stat, c: Stat)
    ensures a.Merge(b).Merge(c) == a.Merge(b.Merge(c))
  {
  }

  // ---------------------------------------------------------------------
  // The mean, in tenths, as the report rounds it.

  /** `total / count` rounded to the nearest integer, halves away from zero,
      computed exactly: the mean is within half a unit of the result, and
      a mean exactly halfway lies on the side away from zero. */
  function MeanTenths(s: Stat): (r: int)
    requires s.count >= 1
    ensures s.total >= 0 ==> 2 * s.count * r - s.count <= 2 * s.total < 2 * s.count * r + s.count
    ensures s.total < 0 ==> 2 * s.count * r - s.count < 2 * s.total <= 2 * s.count * r + s.count
  {
    if s.total >= 0 then
      HalfUp(s.total, s.count);
      (2 * s.total + s.count) / (2 * s.count)
    else
      HalfUp(-s.total, s.count);
      var q := (-2 * s.total + s.count) / (2 * s.count);
      Negate(2 * s.count, q);
      -q
  }

  /** `(2t + c) / 2c` is `t / c` rounded half up. */
  lemma HalfUp(t: int, c: int)
    requires c >= 1 && t >= 0
    ensures var q := (2 * t + c) / (2 * c); 2 * c * q - c <= 2 * t < 2 * c * q + c
  {
    var d, n := 2 * c, 2 * t + c;
    assert n == d * (n / d) + n % d && 0 <= n % d < d;
  }

  lemma Negate(a: int, b: int)
    ensures a * -b == -(a * b)
  {
  }

  /** Rounding `(2t + c) / 2c` stays within `[lo, hi]` when `c * lo <= t <= c * hi`. */
  lemma RoundedWithin(t: int, c: int, lo: int, hi: int)
    requires c >= 1 && c * lo <= t <= c * hi && 2 * t + c >= 0
    ensures lo <= (2 * t + c) / (2 * c) <= hi
  {
    var d, n := 2 * c, 2 * t + c;
    var q, r := n / d, n % d;
    assert n == d * q + r && 0 <= r < d;
    if q < lo {
      MulMonotone(d, q + 1, lo);
      Distribute(q, d);
      Double(c, lo);
      assert false;
    }
    if q > hi {
      MulMonotone(d, hi + 1, q);
      Distribute(hi, d);
      Double(c, hi);
      assert false;
    }
  }

  lemma Double(c: int, m: int)
    ensures (2 * c) * m == 2 * (c * m)
  {
  }

  /** Two readings `12.0` and `8.5` have mean `10.25`, reported as `10.3`;
      a single `-3.2` has mean `-3.2`. */
  lemma MeanExamples()
    ensures MeanTenths(Summary([120, 85])) == 103
    ensures MeanTenths(Summary([-32])) == -32
  {
    assert [120, 85][..1] == [120] && [120][..0] == [];
    assert [-32][..0] == [];
  }

  /** The reported mean lies between the minimum and the maximum. */
  lemma MeanWithinBounds(s: Stat)
    requires s.Valid()
    ensures s.min <= MeanTenths(s) <= s.max
  {
    if s.total >= 0 {
      RoundedWithin(s.total, s.count, s.min, s.max);
    } else {
      assert s.count * -s.max <= -s.total <= s.count * -s.min;
      RoundedWithin(-s.total, s.count, -s.max, -s.min);
    }
  }
}
