/** The control grid: `linspace`, the evenly spaced relative timestamps the
    resampler targets. Both headers of the library define it with the same
    body, so it is modelled once here. */
module ControlGrid {
  import opened Preprocessing

  /** `num` values from `min` to `max`; element `i` is
      `i * (max - min) / (num - 1) + min`. */
  function Linspace(min: real, max: real, num: nat): (r: seq<real>)
    requires num > 1
    ensures |r| == num
    ensures r[0] == min && r[num - 1] == max
  {
    var n := (num - 1) as real;
    assert (n * (max - min)) / n == max - min;
    seq(num, i => (i as real) * (max - min) / n + min)
  }

  lemma Distribute(x: real, d: real, n: real)
    requires n != 0.0
    ensures (x + d) / n == x / n + d / n
  {
  }

  /** The difference of two consecutive values of the element formula is one step. */
  lemma StepAt(k: real, d: real, n: real, lo: real)
    requires n != 0.0
    ensures (((k + 1.0) * d) / n + lo) - ((k * d) / n + lo) == d / n
  {
    assert (k + 1.0) * d == k * d + d;
    Distribute(k * d, d, n);
  }

  /** Element `i`, with `k` the real value of `i`. */
  lemma LinspaceElem(min: real, max: real, num: nat, i: nat, k: real)
    requires num > 1 && i < num && k == i as real
    ensures Linspace(min, max, num)[i] == (k * (max - min)) / ((num - 1) as real) + min
  {
  }

  /** Consecutive elements are one step apart, the step being `(max - min) / (num - 1)`. */
  lemma LinspaceStep(min: real, max: real, num: nat, i: nat)
    requires num > 1 && i + 1 < num
    ensures Linspace(min, max, num)[i + 1] - Linspace(min, max, num)[i] == (max - min) / ((num - 1) as real)
  {
    var k := i as real;
    LinspaceElem(min, max, num, i, k);
    LinspaceElem(min, max, num, i + 1, k + 1.0);
    StepAt(k, max - min, (num - 1) as real, min);
  }

  /** A grid of `num` points ending at 0 that starts `num - 1` steps of `p`
      before it: its step `(0 - start) / (num - 1)` is `p`. */
  lemma StepToZero(p: real, num: nat)
    requires num > 1
    ensures (0.0 - p * ((1 - num) as real)) / ((num - 1) as real) == p
  {
    var n := (num - 1) as real;
    assert ((1 - num) as real) == -n;
    assert p * ((1 - num) as real) == -(p * n);
    assert 0.0 - p * ((1 - num) as real) == p * n;
  }

  /** A grid of `num` points ending at 0 that starts `num - 1` steps of `p`
      before it has step `p`: the shape of both `ts_control` grids. */
  lemma StepOfGridToZero(p: real, num: nat, i: nat)
    requires num > 1 && i + 1 < num
    ensures Linspace(p * ((1 - num) as real), 0.0, num)[i + 1]
            - Linspace(p * ((1 - num) as real), 0.0, num)[i] == p
  {
    LinspaceStep(p * ((1 - num) as real), 0.0, num, i);
    StepToZero(p, num);
  }

  /** A grid whose ends are in increasing order is strictly increasing. */
  lemma LinspaceGrowing(min: real, max: real, num: nat)
    requires num > 1 && min < max
    ensures IsGrowing(Linspace(min, max, num))
  {
    var r := Linspace(min, max, num);
    forall i | 0 < i < num
      ensures r[i - 1] < r[i]
    {
      LinspaceStep(min, max, num, i - 1);
      assert (max - min) / ((num - 1) as real) > 0.0;
    }
  }
}
