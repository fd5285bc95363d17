/** The resampler of `genkiml/source/preprocessing.h`: linear interpolation
    between two raw samples, the tolerant bracket search of `interp_1d`, the
    timestamp alignment and per-channel loop of `interpolate`, and `transpose`.
    Values and timestamps are reals; the library's `float`/`double` rounding
    is not modelled. */
module Preprocessing {

  /** The absolute tolerance of `is_float_eq` (1e-5). */
  const Eps: real := 0.00001

  function Abs(x: real): real {
    if x < 0.0 then -x else x
  }

  function Min(a: real, b: real): real {
    if a <= b then a else b
  }

  function Max(a: real, b: real): real {
    if a <= b then b else a
  }

  function Last(v: seq<real>): real
    requires |v| > 0
  {
    v[|v| - 1]
  }

  /** `is_float_eq`: equal up to `Eps`. */
  predicate FloatEq(a: real, b: real) {
    Abs(a - b) <= Eps
  }

  /** `is_growing`: every element is below its successor. */
  predicate IsGrowing(v: seq<real>) {
    forall i :: 0 < i < |v| ==> v[i - 1] < v[i]
  }

  /** Adjacent strict increase gives strict increase between any two positions. */
  lemma {:induction false} GrowingPairwise(v: seq<real>, i: nat, j: nat)
    requires IsGrowing(v)
    requires i < j < |v|
    ensures v[i] < v[j]
    decreases j - i
  {
    if i + 1 < j {
      GrowingPairwise(v, i + 1, j);
    }
  }

  // ---------------------------------------------------------------------------
  // lerp

  /** `lerp(a, b, t_a, t_b, t)`: the value at `t` on the line through
      `(t_a, a)` and `(t_b, b)`. The division needs distinct abscissae. */
  function Lerp(a: real, b: real, tA: real, tB: real, t: real): real
    requires tA != tB
  {
    a + (b - a) * ((t - tA) / (tB - tA))
  }

  /** The line passes through both of its control points. */
  lemma LerpAtEnds(a: real, b: real, tA: real, tB: real)
    requires tA != tB
    ensures Lerp(a, b, tA, tB, tA) == a
    ensures Lerp(a, b, tA, tB, tB) == b
  {
    assert (tB - tA) / (tB - tA) == 1.0;
  }

  lemma MulNonneg(x: real, y: real)
    requires 0.0 <= x && 0.0 <= y
    ensures 0.0 <= x * y
  {
  }

  /** A part of a span, divided by the span, is a fraction in `[0, 1]`. */
  lemma FractionWithin(x: real, d: real)
    requires 0.0 <= x <= d && 0.0 < d
    ensures 0.0 <= x / d <= 1.0
  {
  }

  /** Scaling a non-negative number by a factor in `[0, 1]` keeps it in `[0, c]`. */
  lemma ScaleWithin(c: real, l: real)
    requires 0.0 <= c && 0.0 <= l <= 1.0
    ensures 0.0 <= c * l <= c
  {
    MulNonneg(c, l);
    MulNonneg(c, 1.0 - l);
    assert c * (1.0 - l) == c - c * l;
  }

  /** Between its control points the line stays between their values. */
  lemma LerpBounded(a: real, b: real, tA: real, tB: real, t: real)
    requires tA < tB && tA <= t <= tB
    ensures Min(a, b) <= Lerp(a, b, tA, tB, t) <= Max(a, b)
  {
    var l := (t - tA) / (tB - tA);
    FractionWithin(t - tA, tB - tA);
    var v := Lerp(a, b, tA, tB, t);
    assert v == a + (b - a) * l;
    if a <= b {
      ScaleWithin(b - a, l);
      assert a <= v <= b;
    } else {
      var p := (a - b) * l;
      ScaleWithin(a - b, l);
      assert (b - a) * l == -p;
      assert b <= v <= a;
    }
  }

  // ---------------------------------------------------------------------------
  // interp_1d: the bracket search

  /** `is_between`: `x` lies in `[lo, hi]`, or is within `Eps` of either end. */
  predicate Between(x: real, lo: real, hi: real) {
    (x >= lo && x <= hi) || FloatEq(x, lo) || FloatEq(x, hi)
  }

  /** The first pair `(ts[k], ts[k+1])`, searching from `k`, that brackets `t`;
      a result `r` with `r + 1 >= |ts|` means the search ran off the end. */
  function FirstBracketFrom(t: real, ts: seq<real>, k: nat): (r: nat)
    ensures k <= r
    decreases |ts| - k
  {
    if k + 1 >= |ts| then k
    else if Between(t, ts[k], ts[k + 1]) then k
    else FirstBracketFrom(t, ts, k + 1)
  }

  /** The pair the monotone cursor of `interp_1d` settles on for `t`. */
  function FirstBracket(t: real, ts: seq<real>): nat {
    FirstBracketFrom(t, ts, 0)
  }

  predicate HasBracket(t: real, ts: seq<real>) {
    FirstBracket(t, ts) + 1 < |ts|
  }

  /** The search returns `idx` when the pair at `idx` brackets `t` and none
      between `k` and `idx` does. */
  lemma {:induction false} FirstBracketFromIs(t: real, ts: seq<real>, k: nat, idx: nat)
    requires k <= idx && idx + 1 < |ts|
    requires Between(t, ts[idx], ts[idx + 1])
    requires forall j :: k <= j < idx ==> !Between(t, ts[j], ts[j + 1])
    ensures FirstBracketFrom(t, ts, k) == idx
    decreases idx - k
  {
    if k < idx {
      FirstBracketFromIs(t, ts, k + 1, idx);
    }
  }

  /** Started at a pair whose low end is at most `Eps` above `t`, on a
      strictly increasing `ts` whose last element is at least `t - Eps`, the
      search finds a bracketing pair inside `ts`. */
  lemma {:induction false} FirstBracketFromFound(t: real, ts: seq<real>, k: nat)
    requires IsGrowing(ts)
    requires k + 1 < |ts|
    requires ts[k] - Eps <= t <= Last(ts) + Eps
    ensures FirstBracketFrom(t, ts, k) + 1 < |ts|
    ensures Between(t, ts[FirstBracketFrom(t, ts, k)], ts[FirstBracketFrom(t, ts, k) + 1])
    decreases |ts| - k
  {
    if !Between(t, ts[k], ts[k + 1]) {
      assert t > ts[k + 1] + Eps;
      FirstBracketFromFound(t, ts, k + 1);
    }
  }

  /** The search finds the same pair whichever passed pair it starts from:
      pairs that end more than `Eps` below `t` never bracket it. */
  lemma {:induction false} FirstBracketSkipsPassed(t: real, ts: seq<real>, idx: nat)
    requires IsGrowing(ts)
    requires idx < |ts|
    requires forall j :: 0 < j <= idx ==> ts[j] + Eps < t
    ensures FirstBracketFrom(t, ts, 0) == FirstBracketFrom(t, ts, idx)
    decreases idx
  {
    if idx > 0 {
      FirstBracketSkipsPassed(t, ts, idx - 1);
      assert ts[idx - 1] < ts[idx];
      assert !Between(t, ts[idx - 1], ts[idx]);
    }
  }

  // ---------------------------------------------------------------------------
  // interp_1d: preconditions

  /** The asserts of `interp_1d` about the span, as evidently intended: the
      control grid starts no earlier than `ts` and ends no later, each up to `Eps`. */
  predicate SpanPre(ts: seq<real>, ctrl: seq<real>)
    requires |ts| > 0 && |ctrl| > 0
  {
    (ctrl[0] >= ts[0] || FloatEq(ctrl[0], ts[0]))
    && (Last(ctrl) <= Last(ts) || FloatEq(Last(ctrl), Last(ts)))
  }

  /** The same asserts as written: the tolerance of the upper-bound test
      compares the FIRST elements again. */
  predicate AsWrittenSpanPre(ts: seq<real>, ctrl: seq<real>)
    requires |ts| > 0 && |ctrl| > 0
  {
    (ctrl[0] >= ts[0] || FloatEq(ctrl[0], ts[0]))
    && (Last(ctrl) <= Last(ts) || FloatEq(ctrl[0], ts[0]))
  }

  /** What `interp_1d` demands of the timestamps and the control grid: both
      strictly increasing, of equal length, at least two long (the search reads
      `ts[ts_idx + 1]`), and the grid within the span of `ts`. */
  predicate ResamplePre(ts: seq<real>, ctrl: seq<real>) {
    |ts| >= 2 && |ctrl| == |ts|
    && IsGrowing(ts) && IsGrowing(ctrl)
    && SpanPre(ts, ctrl)
  }

  predicate Interp1dPre(samples: seq<real>, ts: seq<real>, ctrl: seq<real>) {
    |samples| == |ts| && ResamplePre(ts, ctrl)
  }

  /** Under the preconditions every control time has a bracketing pair, so the
      cursor never reads past the end of `ts`. */
  lemma BracketsExist(ts: seq<real>, ctrl: seq<real>, i: nat)
    requires ResamplePre(ts, ctrl)
    requires i < |ctrl|
    ensures HasBracket(ctrl[i], ts)
    ensures Between(ctrl[i], ts[FirstBracket(ctrl[i], ts)], ts[FirstBracket(ctrl[i], ts) + 1])
  {
    if i > 0 {
      GrowingPairwise(ctrl, 0, i);
    }
    if i < |ctrl| - 1 {
      GrowingPairwise(ctrl, i, |ctrl| - 1);
    }
    FirstBracketFromFound(ctrl[i], ts, 0);
  }

  // ---------------------------------------------------------------------------
  // interp_1d: the reference definition

  /** The interpolated value at `t`: `lerp` over the first bracketing pair. */
  function ResampleAt(samples: seq<real>, ts: seq<real>, t: real): real
    requires |samples| == |ts| && IsGrowing(ts) && HasBracket(t, ts)
  {
    var k := FirstBracket(t, ts);
    Lerp(samples[k], samples[k + 1], ts[k], ts[k + 1], t)
  }

  /** One interpolated value per control time. */
  function Resampled(samples: seq<real>, ts: seq<real>, ctrl: seq<real>): (r: seq<real>)
    requires Interp1dPre(samples, ts, ctrl)
    ensures |r| == |ctrl|
  {
    assert forall i :: 0 <= i < |ctrl| ==> HasBracket(ctrl[i], ts) by {
      forall i | 0 <= i < |ctrl| ensures HasBracket(ctrl[i], ts) {
        BracketsExist(ts, ctrl, i);
      }
    }
    seq(|ctrl|, i requires 0 <= i < |ctrl| => ResampleAt(samples, ts, ctrl[i]))
  }

  /** `interp_1d`: walks one cursor over `ts` for all control times (it never
      moves back) and interpolates each control time over the pair it stops at. */
  method Interp1d(samples: seq<real>, ts: seq<real>, ctrl: seq<real>) returns (ret: seq<real>)
    requires Interp1dPre(samples, ts, ctrl)
    ensures ret == Resampled(samples, ts, ctrl)
  {
    var idx := 0;
    var out := new real[|ctrl|];
    for i := 0 to |ctrl|
      invariant idx + 1 < |ts|
      invariant i < |ctrl| ==> ts[idx] - Eps <= ctrl[i]
      invariant i < |ctrl| ==> forall j :: 0 < j <= idx ==> ts[j] + Eps < ctrl[i]
      invariant forall m :: 0 <= m < i ==> HasBracket(ctrl[m], ts) && out[m] == ResampleAt(samples, ts, ctrl[m])
    {
      var t := ctrl[i];
      if i < |ctrl| - 1 {
        GrowingPairwise(ctrl, i, |ctrl| - 1);
      }
      assert t <= Last(ts) + Eps;
      while !Between(t, ts[idx], ts[idx + 1])
        invariant idx + 1 < |ts|
        invariant ts[idx] - Eps <= t
        invariant forall j :: 0 < j <= idx ==> ts[j] + Eps < t
        decreases |ts| - idx
      {
        idx := idx + 1;
      }
      FirstBracketSkipsPassed(t, ts, idx);
      assert FirstBracket(t, ts) == idx;
      out[i] := Lerp(samples[idx], samples[idx + 1], ts[idx], ts[idx + 1], t);
    }
    ret := out[..];
  }

  // ---------------------------------------------------------------------------
  // interp_1d: properties

  /** Each output is `lerp` over a consecutive pair of `ts` whose span,
      widened by `Eps` on both sides, contains the control time. */
  lemma ResampledNearBracket(samples: seq<real>, ts: seq<real>, ctrl: seq<real>, i: nat)
    requires Interp1dPre(samples, ts, ctrl) && i < |ctrl|
    ensures exists k :: 0 <= k && k + 1 < |ts| && ts[k] - Eps <= ctrl[i] <= ts[k + 1] + Eps
              && ts[k] < ts[k + 1]
              && Resampled(samples, ts, ctrl)[i] == Lerp(samples[k], samples[k + 1], ts[k], ts[k + 1], ctrl[i])
  {
    BracketsExist(ts, ctrl, i);
    var k := FirstBracket(ctrl[i], ts);
    assert ts[k] < ts[k + 1];
    assert ts[k] - Eps <= ctrl[i] <= ts[k + 1] + Eps;
  }

  /** The cursor is monotone: a later control time never selects an earlier pair. */
  lemma {:induction false} FirstBracketMonotone(ts: seq<real>, t1: real, t2: real, k: nat)
    requires IsGrowing(ts) && t1 <= t2
    requires FirstBracketFrom(t1, ts, k) + 1 < |ts|
    requires ts[k] - Eps <= t1
    ensures FirstBracketFrom(t1, ts, k) <= FirstBracketFrom(t2, ts, k)
    decreases |ts| - k
  {
    if k + 1 < |ts| && !Between(t1, ts[k], ts[k + 1]) {
      assert t1 > ts[k + 1] + Eps;
      assert !Between(t2, ts[k], ts[k + 1]);
      FirstBracketMonotone(ts, t1, t2, k + 1);
    }
  }

  /** Across the control grid, the pair selected for a later control time is
      never before the pair selected for an earlier one. */
  lemma CursorNeverDecreases(samples: seq<real>, ts: seq<real>, ctrl: seq<real>, i: nat, j: nat)
    requires Interp1dPre(samples, ts, ctrl) && i <= j < |ctrl|
    ensures FirstBracket(ctrl[i], ts) <= FirstBracket(ctrl[j], ts)
  {
    BracketsExist(ts, ctrl, i);
    if i > 0 {
      GrowingPairwise(ctrl, 0, i);
    }
    if i < j {
      GrowingPairwise(ctrl, i, j);
    }
    FirstBracketMonotone(ts, ctrl[i], ctrl[j], 0);
  }

  /** A control time equal to a raw timestamp yields that raw sample, provided
      that timestamp lies more than `Eps` after its predecessor (otherwise the
      tolerant search may settle on the earlier pair, see `ToleranceCanMissRawSample`). */
  lemma ResampledAtRawTimestamp(samples: seq<real>, ts: seq<real>, ctrl: seq<real>, i: nat, j: nat)
    requires Interp1dPre(samples, ts, ctrl) && i < |ctrl| && j < |ts|
    requires ctrl[i] == ts[j]
    requires j > 0 ==> ts[j] - ts[j - 1] > Eps
    ensures Resampled(samples, ts, ctrl)[i] == samples[j]
  {
    var t := ctrl[i];
    if j == 0 {
      FirstBracketFromIs(t, ts, 0, 0);
      LerpAtEnds(samples[0], samples[1], ts[0], ts[1]);
    } else {
      forall m | 0 <= m < j - 1
        ensures !Between(t, ts[m], ts[m + 1])
      {
        if m + 1 < j - 1 {
          GrowingPairwise(ts, m + 1, j - 1);
        }
        assert ts[m] < ts[m + 1];
      }
      FirstBracketFromIs(t, ts, 0, j - 1);
      LerpAtEnds(samples[j - 1], samples[j], ts[j - 1], ts[j]);
    }
  }

  /** Raw timestamps closer than `Eps` can break exactness: on this input a
      control time equal to the third raw timestamp is accepted by the first
      pair, and the result is not the third raw sample. */
  lemma ToleranceCanMissRawSample()
    ensures Interp1dPre([0.0, 1.0, 5.0], [0.0, 1.0, 1.000001], [0.0, 0.5, 1.000001])
    ensures Resampled([0.0, 1.0, 5.0], [0.0, 1.0, 1.000001], [0.0, 0.5, 1.000001])[2] != 5.0
  {
    var ts := [0.0, 1.0, 1.000001];
    assert Between(1.000001, ts[0], ts[1]);
    assert FirstBracket(1.000001, ts) == 0;
  }

  /** When the selected pair really contains the control time (no tolerance
      needed), the result lies between that pair's two raw samples. */
  lemma ResampledBounded(samples: seq<real>, ts: seq<real>, ctrl: seq<real>, i: nat)
    requires Interp1dPre(samples, ts, ctrl) && i < |ctrl|
    ensures FirstBracket(ctrl[i], ts) + 1 < |ts|
    ensures var k := FirstBracket(ctrl[i], ts);
            ts[k] <= ctrl[i] <= ts[k + 1] ==>
              Min(samples[k], samples[k + 1]) <= Resampled(samples, ts, ctrl)[i] <= Max(samples[k], samples[k + 1])
  {
    BracketsExist(ts, ctrl, i);
    var k := FirstBracket(ctrl[i], ts);
    if ts[k] <= ctrl[i] <= ts[k + 1] {
      LerpBounded(samples[k], samples[k + 1], ts[k], ts[k + 1], ctrl[i]);
    }
  }

  /** A control time accepted by tolerance just past the end of a pair can be
      extrapolated: on this input, whose pair has two different samples, the
      result exceeds both of them. */
  lemma ToleranceCanExtrapolate()
    ensures Interp1dPre([0.0, 1.0, 5.0], [0.0, 1.0, 1.000001], [0.0, 0.5, 1.000001])
    ensures FirstBracket(1.000001, [0.0, 1.0, 1.000001]) == 0
    ensures Resampled([0.0, 1.0, 5.0], [0.0, 1.0, 1.000001], [0.0, 0.5, 1.000001])[2] > Max(0.0, 1.0)
  {
    var ts := [0.0, 1.0, 1.000001];
    assert Between(1.000001, ts[0], ts[1]);
  }

  /** The upper-bound assert as written admits a grid that ends beyond `ts`:
      the last control time has no bracketing pair, so the cursor would read
      past the end of `ts`. The intended assert rejects this input. */
  lemma AsWrittenSpanAdmitsUnbracketed()
    ensures IsGrowing([0.0, 1.0]) && IsGrowing([0.0, 2.0])
    ensures AsWrittenSpanPre([0.0, 1.0], [0.0, 2.0])
    ensures !SpanPre([0.0, 1.0], [0.0, 2.0])
    ensures !HasBracket(2.0, [0.0, 1.0])
  {
    assert !Between(2.0, 0.0, 1.0);
  }

  // ---------------------------------------------------------------------------
  // interpolate

  /** Timestamps shifted so that the newest one is 0. */
  function Align(ts: seq<real>): (r: seq<real>)
    requires |ts| > 0
    ensures |r| == |ts| && Last(r) == 0.0
  {
    var r := seq(|ts|, i requires 0 <= i < |ts| => ts[i] - Last(ts));
    assert r[|ts| - 1] == ts[|ts| - 1] - Last(ts);
    r
  }

  /** Alignment is a shift: it keeps every gap, and so strict increase, both ways. */
  lemma AlignKeepsGaps(ts: seq<real>, i: nat, j: nat)
    requires |ts| > 0 && i < |ts| && j < |ts|
    ensures Align(ts)[j] - Align(ts)[i] == ts[j] - ts[i]
    ensures IsGrowing(Align(ts)) <==> IsGrowing(ts)
  {
    var a := Align(ts);
    assert forall k :: 0 < k < |ts| ==> a[k] - a[k - 1] == ts[k] - ts[k - 1];
  }

  /** What `interpolate` demands: every channel as long as `ts`, `ts` as long as
      the grid and non-empty (its last element is read), and, when there is a
      channel to resample, the preconditions of `interp_1d` on the aligned timestamps. */
  predicate InterpolatePre(signals: seq<seq<real>>, ts: seq<real>, ctrl: seq<real>) {
    |ts| > 0 && |ts| == |ctrl|
    && (forall k :: 0 <= k < |signals| ==> |signals[k]| == |ts|)
    && (|signals| > 0 ==> ResamplePre(Align(ts), ctrl))
  }

  /** One resampled row per channel. */
  function Interpolated(signals: seq<seq<real>>, ts: seq<real>, ctrl: seq<real>): (r: seq<seq<real>>)
    requires InterpolatePre(signals, ts, ctrl)
    ensures |r| == |signals|
    ensures forall k :: 0 <= k < |signals| ==> |r[k]| == |ctrl|
  {
    seq(|signals|, k requires 0 <= k < |signals| => Resampled(signals[k], Align(ts), ctrl))
  }

  /** `interpolate`: aligns the timestamps and fills row `k` with `interp_1d`
      of channel `k`. */
  method Interpolate(signals: seq<seq<real>>, ts: seq<real>, ctrl: seq<real>) returns (ret: seq<seq<real>>)
    requires InterpolatePre(signals, ts, ctrl)
    ensures |ret| == |signals|
    ensures forall k :: 0 <= k < |signals| ==> ret[k] == Resampled(signals[k], Align(ts), ctrl)
  {
    var aligned := Align(ts);
    var rows := new seq<real>[|signals|];
    for k := 0 to |signals|
      invariant forall m :: 0 <= m < k ==> rows[m] == Resampled(signals[m], aligned, ctrl)
    {
      rows[k] := Interp1d(signals[k], aligned, ctrl);
    }
    ret := rows[..];
  }

  // ---------------------------------------------------------------------------
  // transpose

  /** `out` is the transpose of the `|rows|` by `m` array `rows`. */
  predicate IsTransposeOf(out: seq<seq<real>>, rows: seq<seq<real>>, m: nat) {
    (forall i :: 0 <= i < |rows| ==> |rows[i]| == m)
    && |out| == m
    && forall j :: 0 <= j < m ==> |out[j]| == |rows| && forall i :: 0 <= i < |rows| ==> out[j][i] == rows[i][j]
  }

  /** `transpose`: `ret[j][i] = rows[i][j]`, filled by two nested loops. */
  method Transpose(rows: seq<seq<real>>, m: nat) returns (ret: seq<seq<real>>)
    requires forall i :: 0 <= i < |rows| ==> |rows[i]| == m
    ensures IsTransposeOf(ret, rows, m)
  {
    var n := |rows|;
    var a := new real[m, n];
    for i := 0 to n
      invariant forall i', j :: 0 <= i' < i && 0 <= j < m ==> a[j, i'] == rows[i'][j]
    {
      for j := 0 to m
        invariant forall j' :: 0 <= j' < j ==> a[j', i] == rows[i][j']
        invariant forall i', j' :: 0 <= i' < i && 0 <= j' < m ==> a[j', i'] == rows[i'][j']
      {
        a[j, i] := rows[i][j];
      }
    }
    ret := seq(m, j requires 0 <= j < m reads a => seq(n, i requires 0 <= i < n reads a => a[j, i]));
  }

  /** Transposing twice gives back the input. */
  lemma TransposeTwice(x: seq<seq<real>>, y: seq<seq<real>>, z: seq<seq<real>>, m: nat)
    requires forall i :: 0 <= i < |x| ==> |x[i]| == m
    requires IsTransposeOf(y, x, m) && IsTransposeOf(z, y, |x|)
    ensures z == x
  {
    forall i | 0 <= i < |x|
      ensures z[i] == x[i]
    {
      assert |z[i]| == |x[i]|;
      forall j | 0 <= j < m
        ensures z[i][j] == x[i][j]
      {
        assert z[i][j] == y[j][i];
      }
    }
  }

  /** The transpose, as a value. */
  function Transposed(rows: seq<seq<real>>, m: nat): (r: seq<seq<real>>)
    requires forall i :: 0 <= i < |rows| ==> |rows[i]| == m
    ensures IsTransposeOf(r, rows, m)
  {
    seq(m, j requires 0 <= j < m => seq(|rows|, i requires 0 <= i < |rows| => rows[i][j]))
  }

  /** An array has exactly one transpose. */
  lemma TransposeUnique(rows: seq<seq<real>>, m: nat, x: seq<seq<real>>, y: seq<seq<real>>)
    requires IsTransposeOf(x, rows, m) && IsTransposeOf(y, rows, m)
    ensures x == y
  {
    forall j | 0 <= j < m
      ensures x[j] == y[j]
    {
      assert |x[j]| == |y[j]|;
    }
  }

  // ---------------------------------------------------------------------------
  // Memory order of a two-dimensional array

  /** The elements of a nested fixed-size array in memory order, row after row:
      what a byte copy of the whole array reads. */
  function Concat(rows: seq<seq<real>>): seq<real>
    decreases |rows|
  {
    if rows == [] then [] else Concat(rows[..|rows| - 1]) + rows[|rows| - 1]
  }

  lemma {:induction false} ConcatLength(rows: seq<seq<real>>, w: nat)
    requires forall i :: 0 <= i < |rows| ==> |rows[i]| == w
    ensures |Concat(rows)| == |rows| * w
    decreases |rows|
  {
    if rows != [] {
      var n := |rows| - 1;
      ConcatLength(rows[..n], w);
      assert (n + 1) * w == n * w + w;
    }
  }

  lemma MulMono(a: nat, b: nat, w: nat)
    requires a <= b
    ensures a * w <= b * w
  {
  }

  /** In memory order, element `c` of row `r` of a `|rows|` by `w` array sits at `r * w + c`. */
  lemma {:induction false} ConcatAt(rows: seq<seq<real>>, w: nat, r: nat, c: nat)
    requires forall i :: 0 <= i < |rows| ==> |rows[i]| == w
    requires r < |rows| && c < w
    ensures |Concat(rows)| == |rows| * w
    ensures r * w + c < |Concat(rows)| && Concat(rows)[r * w + c] == rows[r][c]
    decreases |rows|
  {
    ConcatLength(rows, w);
    var n := |rows| - 1;
    var front := rows[..n];
    assert Concat(rows) == Concat(front) + rows[n];
    ConcatLength(front, w);
    if r < n {
      ConcatAt(front, w, r, c);
      MulMono(r + 1, n, w);
      assert (r + 1) * w == r * w + w;
      assert Concat(rows)[r * w + c] == Concat(front)[r * w + c];
    } else {
      assert Concat(rows)[n * w + c] == rows[n][c];
    }
  }

  /** The transpose of a channel-major array, in memory order, is time-major:
      sample `t` of channel `s` sits at `t * |rows| + s`. */
  lemma TimeMajorLayout(rows: seq<seq<real>>, w: nat, x: seq<seq<real>>, t: nat, s: nat)
    requires forall i :: 0 <= i < |rows| ==> |rows[i]| == w
    requires IsTransposeOf(x, rows, w)
    requires t < w && s < |rows|
    ensures |Concat(x)| == w * |rows|
    ensures t * |rows| + s < |Concat(x)| && Concat(x)[t * |rows| + s] == rows[s][t]
  {
    ConcatAt(x, |rows|, t, s);
  }
}
