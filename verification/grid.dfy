/** The cut grids of the selection scripts: `numpy.linspace(lo, hi, n)`,
    `n` evenly spaced values from `lo` to `hi` inclusive, taken here over
    exact reals.
 */
module Grid {
  import opened Counting

  /** The `i`-th point of a grid starting at `lo` with spacing `step`. */
  function Point(lo: real, step: real, i: nat): real {
    lo + (i as real) * step
  }

  /** `n` values `lo + i * (hi - lo) / (n - 1)`; a single value is `lo`. */
  function Linspace(lo: real, hi: real, n: nat): (r: seq<real>)
    ensures |r| == n
    ensures n >= 1 ==> r[0] == lo
    ensures n >= 2 ==> r[n - 1] == hi
    ensures n >= 2 ==> forall i :: 0 <= i < n - 1 ==> r[i + 1] - r[i] == (hi - lo) / ((n - 1) as real)
    ensures lo < hi ==> forall i, j :: 0 <= i < j < n ==> r[i] < r[j]
    ensures hi < lo ==> forall i, j :: 0 <= i < j < n ==> r[j] < r[i]
    ensures lo != hi || n <= 1 ==> Distinct(r)
  {
    if n <= 1 then seq(n, i => lo)
    else
      var step := (hi - lo) / ((n - 1) as real);
      var r := seq(n, i requires 0 <= i < n => Point(lo, step, i));
      EvenlySpaced(lo, hi, n, step, r);
      r
  }

  /** The properties of `Linspace` for two or more points, from the
      formula of each point. */
  lemma EvenlySpaced(lo: real, hi: real, n: nat, step: real, r: seq<real>)
    requires n >= 2 && |r| == n
    requires step == (hi - lo) / ((n - 1) as real)
    requires forall i :: 0 <= i < n ==> r[i] == Point(lo, step, i)
    ensures r[0] == lo && r[n - 1] == hi
    ensures forall i :: 0 <= i < n - 1 ==> r[i + 1] - r[i] == step
    ensures lo < hi ==> forall i, j :: 0 <= i < j < n ==> r[i] < r[j]
    ensures hi < lo ==> forall i, j :: 0 <= i < j < n ==> r[j] < r[i]
  {
    assert ((n - 1) as real) * step == hi - lo;
    assert r[n - 1] == Point(lo, step, n - 1);
    forall i | 0 <= i < n - 1
      ensures r[i + 1] - r[i] == step
    {
      assert ((i + 1) as real) * step == (i as real) * step + step;
      assert r[i + 1] == Point(lo, step, i + 1) && r[i] == Point(lo, step, i);
    }
    assert lo < hi ==> step > 0.0;
    assert hi < lo ==> step < 0.0;
    forall i, j | 0 <= i < j < n
      ensures step > 0.0 ==> r[i] < r[j]
      ensures step < 0.0 ==> r[j] < r[i]
    {
      assert r[i] == Point(lo, step, i) && r[j] == Point(lo, step, j);
      PointOrder(lo, step, i, j);
    }
  }

  /** Later points lie beyond earlier ones in the direction of the step. */
  lemma PointOrder(lo: real, step: real, i: nat, j: nat)
    requires i < j
    ensures step > 0.0 ==> Point(lo, step, i) < Point(lo, step, j)
    ensures step < 0.0 ==> Point(lo, step, j) < Point(lo, step, i)
  {
    var d := (j - i) as real;
    assert (j as real) * step == (i as real) * step + d * step;
    if step > 0.0 {
      assert d * step > 0.0;
    }
    if step < 0.0 {
      assert d * step < 0.0;
    }
  }
}
