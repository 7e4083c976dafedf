/**
 The running mean and variance of the performance report, over the reals. The first sample of the range always
 counts; later samples count when they are not zero.
 */
module Perf {

  /** Numbers with an infinity, for the minimum. */
  datatype Bound = Finite(x: real) | Infinity

  /** The samples that count among those before `end`. */
  ghost function Samples(data: seq<real>, first: nat, end: nat): (s: seq<real>)
    requires first < end <= |data|
    ensures |s| > 0 && s[0] == data[first]
  {
    if end == first + 1 then [data[first]]
    else Samples(data, first, end - 1) + if data[end - 1] != 0.0 then [data[end - 1]] else []
  }

  ghost function Sum(s: seq<real>): real {
    if s == [] then 0.0 else Sum(s[..|s| - 1]) + s[|s| - 1]
  }

  /** Sum of the squared distances to `c`. */
  ghost function Spread(s: seq<real>, c: real): real {
    if s == [] then 0.0 else Spread(s[..|s| - 1], c) + (s[|s| - 1] - c) * (s[|s| - 1] - c)
  }

  ghost function Mean(s: seq<real>): real
    requires s != []
  {
    Sum(s) / |s| as real
  }

  /** Some sample after the first counts. */
  ghost predicate Moving(data: seq<real>, first: nat, end: nat)
    requires first < end <= |data|
  {
    exists i :: first < i < end && data[i] != 0.0
  }

  lemma {:induction false} Snoc(s: seq<real>, x: real, c: real)
    ensures Sum(s + [x]) == Sum(s) + x && Spread(s + [x], c) == Spread(s, c) + (x - c) * (x - c)
  {
  }

  /** What the spread around another centre is. */
  lemma {:induction false} SpreadShift(s: seq<real>, n: real, c: real, e: real)
    requires n == |s| as real
    ensures Spread(s, c + e) == Spread(s, c) - 2.0 * e * (Sum(s) - n * c) + n * e * e
  {
    hide Sum, Spread;
    if s == [] {
      NoSpread(n, c, e);
    } else {
      var t, x := s[..|s| - 1], s[|s| - 1];
      SpreadShift(t, n - 1.0, c, e);
      assert s == t + [x];
      Snoc(t, x, c);
      Snoc(t, x, c + e);
      ShiftStep(x, c, e, Sum(t), n - 1.0);
    }
  }

  lemma {:induction false} NoSpread(n: real, c: real, e: real)
    requires n == 0.0
    ensures Sum([]) == Spread([], c) == Spread([], c + e) == 0.0 && 2.0 * e * (Sum([]) - n * c) == n * e * e == 0.0
  {
  }

  lemma {:induction false} ShiftStep(x: real, c: real, e: real, sum: real, n: real)
    ensures -2.0 * e * (sum - n * c) + n * e * e + (x - (c + e)) * (x - (c + e))
         == (x - c) * (x - c) - 2.0 * e * ((sum + x) - (n + 1.0) * c) + (n + 1.0) * e * e
  {
  }

  /** Among all centres the mean has the least spread. */
  lemma {:induction false} MeanIsLeast(s: seq<real>, c: real)
    requires s != []
    ensures Spread(s, Mean(s)) <= Spread(s, c)
    ensures Spread(s, c) == Spread(s, Mean(s)) + |s| as real * (c - Mean(s)) * (c - Mean(s))
  {
    hide Sum, Spread;
    var m, n := Mean(s), |s| as real;
    SpreadShift(s, n, m, c - m);
    Quotient(Sum(s), n, m);
    Cancel(c - m, Sum(s) - n * m, n);
  }

  lemma {:induction false} Quotient(sum: real, n: real, m: real)
    requires n > 0.0
    ensures m == sum / n <==> n * m == sum
  {
  }

  lemma {:induction false} Cancel(e: real, zero: real, n: real)
    requires zero == 0.0 && n > 0.0
    ensures 2.0 * e * zero == 0.0 && n * e * e >= 0.0
  {
  }

  /** What a sample adds to the spread, from the mean before and after it. */
  function Increment(x: real, m: real, m': real): real { (x - m) * (x - m') }

  /** The recurrence of the mean and of the spread. */
  lemma {:induction false} WelfordStep(s: seq<real>, x: real, n: real)
    requires s != [] && n == |s| as real + 1.0
    ensures var m, m' := Mean(s), Mean(s + [x]);
            m' == m + (x - m) / n && Spread(s + [x], m') == Spread(s, m) + Increment(x, m, m')
  {
    hide Sum, Spread;
    var m, m' := Mean(s), Mean(s + [x]);
    Snoc(s, x, m');
    MeanIsLeast(s, m');
    Quotient(Sum(s), n - 1.0, m);
    Quotient(Sum(s) + x, n, m');
    hide Mean;
    MeanStep(n, m, m', x);
    Collapse(n, x - m, m' - m);
  }

  lemma {:induction false} MeanStep(n: real, m: real, m': real, x: real)
    requires n > 0.0 && n * m' == (n - 1.0) * m + x
    ensures m' == m + (x - m) / n && n * (m' - m) == x - m
  {
  }

  lemma {:induction false} Collapse(n: real, d: real, e: real)
    requires n * e == d
    ensures (n - 1.0) * e * e + (d - e) * (d - e) == d * (d - e)
  {
  }

  ghost predicate IsMax(s: seq<real>, m: real) {
    m in s && forall i :: 0 <= i < |s| ==> s[i] <= m
  }

  /** The least sample, a zero first sample left aside. */
  ghost predicate IsMin(s: seq<real>, m: Bound)
    requires s != []
  {
    var from := if s[0] == 0.0 then 1 else 0;
    match m
    case Infinity => |s| == from
    case Finite(x) => x in s[from..] && forall i :: from <= i < |s| ==> x <= s[i]
  }

  lemma {:induction false} MaxStep(s: seq<real>, m: real, x: real)
    requires IsMax(s, m)
    ensures IsMax(s + [x], if x > m then x else m)
  {
  }

  lemma {:induction false} MinStep(s: seq<real>, m: Bound, x: real)
    requires s != [] && IsMin(s, m)
    ensures IsMin(s + [x], if m.Infinity? || x < m.x then Finite(x) else m)
  {
    var from := if s[0] == 0.0 then 1 else 0;
    assert (s + [x])[from..] == s[from..] + [x];
  }

  /** The variables of the report after the samples `s`. */
  ghost predicate Tallied(s: seq<real>, n: real, mean: real, m2: real, min: Bound, max: real) {
    && s != [] && n == |s| as real && mean == Mean(s) && m2 == Spread(s, mean)
    && IsMax(s, max) && IsMin(s, min)
  }

  lemma {:induction false} TallyFirst(x: real)
    ensures Tallied([x], 1.0, x, 0.0, if x != 0.0 then Finite(x) else Infinity, x)
  {
    Snoc([], x, x);
    assert [] + [x] == [x];
    if x != 0.0 { assert [x][0..] == [x]; }
    Quotient(x, 1.0, x);
  }

  lemma {:induction false} TallyStep(s: seq<real>, n: real, mean: real, m2: real, min: Bound, max: real, x: real,
      mean': real, m2': real)
    requires Tallied(s, n - 1.0, mean, m2, min, max)
    requires mean' == mean + (x - mean) / n && m2' == m2 + Increment(x, mean, mean')
    ensures Tallied(s + [x], n, mean', m2', if min.Infinity?
        || x < min.x then Finite(x) else min, if x > max then x else max)
  {
    hide Sum, Spread, Mean, IsMax, IsMin, Increment;
    WelfordStep(s, x, n);
    MaxStep(s, max, x);
    MinStep(s, min, x);
  }

  /** One more sample that counts. */
  method Add(x: real, n: real, prevAvg: real, m2: real, min: Bound, max: real, ghost s: seq<real>)
    returns (n': real, avg: real, m2': real, stdSq: real, min': Bound, max': real)
    requires Tallied(s, n, prevAvg, m2, min, max) && n > 0.0
    ensures n' > 0.0 && Tallied(s + [x], n', avg, m2', min', max') && stdSq == m2' / n'
  {
    hide Mean, Tallied;
    n' := n + 1.0;
    avg := prevAvg + (x - prevAvg) / n';
    m2' := m2 + (x - prevAvg) * (x - avg);
    stdSq := m2' / n';
    TallyStep(s, n', prevAvg, m2, min, max, x, avg, m2');
    max' := if x > max then x else max;
    min' := if min.Infinity? || x < min.x then Finite(x) else min;
  }

  /** The report on one key over a range. */
  method ShowPerf(data: seq<real>, first: nat, end: nat)
    returns (avg: real, m2: real, stdSq: real, n: real, min: Bound, max: real)
    requires first < end <= |data|
    ensures var s := Samples(data, first, end);
            && Tallied(s, n, Mean(s), m2, min, max) && n > 0.0 && stdSq == m2 / n
            && (avg == Mean(s) <==> Moving(data, first, end) || data[first] == 0.0)
            && (!Moving(data, first, end) ==> avg == 0.0)
  {
    hide Mean, Tallied;
    max := data[first];
    min := if max != 0.0 then Finite(max) else Infinity;
    var prevAvg := max;
    avg, stdSq, m2, n := 0.0, 0.0, 0.0, 1.0;
    TallyFirst(data[first]);
    for i := first + 1 to end
      invariant Tallied(Samples(data, first, i), n, prevAvg, m2, min, max) && n > 0.0 && stdSq == m2 / n
      invariant if Moving(data, first, i) then avg == prevAvg else avg == 0.0 && prevAvg == data[first]
    {
      if data[i] != 0.0 {
        assert Samples(data, first, i + 1) == Samples(data, first, i) + [data[i]];
        n, avg, m2, stdSq, min, max := Add(data[i], n, prevAvg, m2, min, max, Samples(data, first, i));
        prevAvg := avg;
      } else {
        assert Samples(data, first, i + 1) == Samples(data, first, i);
      }
    }
    TalliedMean(Samples(data, first, end), n, prevAvg, m2, min, max);
  }

  lemma {:induction false} TalliedMean(s: seq<real>, n: real, mean: real, m2: real, min: Bound, max: real)
    requires Tallied(s, n, mean, m2, min, max)
    ensures mean == Mean(s)
  {
  }

  /** A range whose first sample alone is not zero is reported with average 0, although that sample is the mean. */
  method LonelySample(x: real) returns (avg: real)
    requires x != 0.0
    ensures Samples([x, 0.0], 0, 2) == [x] && Mean([x]) == x && avg == 0.0
  {
    var m2, stdSq, n, min, max;
    hide Mean, Tallied;
    TallyFirst(x);
    TalliedMean([x], 1.0, x, 0.0, Finite(x), x);
    assert Samples([x, 0.0], 0, 1) == [x];
    avg, m2, stdSq, n, min, max := ShowPerf([x, 0.0], 0, 2);
  }
}
