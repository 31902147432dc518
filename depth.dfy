/** The transmission exponent and the characteristic (1/e) depth: unit
    conversions, the Beer-Lambert exponent and NumPy's piecewise-linear
    interpolation, in exact arithmetic. */
module Depth {
  import Composition

  /** An energy grid: strictly increasing sample energies. */
  predicate StrictlyIncreasing(xs: seq<real>)
  {
    forall i, j :: 0 <= i < j < |xs| ==> xs[i] < xs[j]
  }

  /** NumPy's interp at x over the points (xp, fp): piecewise-linear through the points
      (xp[k], fp[k]), clamped to fp[0] left of the grid and to the last value
      right of it. */
  function Interp(x: real, xp: seq<real>, fp: seq<real>): (r: real)
    requires |xp| == |fp| > 0
    requires StrictlyIncreasing(xp)
    ensures MinOf(fp) <= r <= MaxOf(fp)
    decreases |xp|
  {
    if x <= xp[0] || |xp| == 1 then fp[0]
    else if x <= xp[1] then
      var slope := (fp[1] - fp[0]) / (xp[1] - xp[0]);
      FirstSegmentBetween(x, xp, fp, MinOf(fp), MaxOf(fp));
      slope * (x - xp[0]) + fp[0]
    else
      TailExtremes(fp);
      Interp(x, xp[1..], fp[1..])
  }

  /** On the first segment the line lies between any two bounds on its end values. */
  lemma FirstSegmentBetween(x: real, xp: seq<real>, fp: seq<real>, lo: real, hi: real)
    requires |xp| == |fp| > 1
    requires xp[0] < x <= xp[1]
    requires lo <= fp[0] <= hi && lo <= fp[1] <= hi
    ensures var slope := (fp[1] - fp[0]) / (xp[1] - xp[0]);
      lo <= slope * (x - xp[0]) + fp[0] <= hi
  {
    var rise, run, width := fp[1] - fp[0], x - xp[0], xp[1] - xp[0];
    var t := run / width;
    SlopeForm(rise, run, width);
    UnitFraction(run, width);
    BetweenEnds(fp[0], fp[1], t, lo, hi);
  }

  /** Dropping the first value cannot lower the least value or raise the greatest. */
  lemma TailExtremes(xs: seq<real>)
    requires |xs| > 1
    ensures MinOf(xs) <= MinOf(xs[1..]) && MaxOf(xs[1..]) <= MaxOf(xs)
  {
  }

  /** Bounds on every element bound the least and the greatest element. */
  lemma {:induction false} ExtremesWithin(xs: seq<real>, lo: real, hi: real)
    requires |xs| > 0
    requires forall i :: 0 <= i < |xs| ==> lo <= xs[i] <= hi
    ensures lo <= MinOf(xs) && MaxOf(xs) <= hi
  {
    if |xs| > 1 {
      assert forall i :: 0 <= i < |xs| - 1 ==> xs[1..][i] == xs[i + 1];
      ExtremesWithin(xs[1..], lo, hi);
    }
  }

  /** A lower bound of every element of a non-empty sequence (its least
      element, though only the bound is stated). */
  function MinOf(xs: seq<real>): (m: real)
    requires |xs| > 0
    ensures forall i :: 0 <= i < |xs| ==> m <= xs[i]
  {
    if |xs| == 1 then xs[0]
    else
      var rest := MinOf(xs[1..]);
      assert forall i :: 1 <= i < |xs| ==> xs[i] == xs[1..][i - 1];
      if xs[0] < rest then xs[0] else rest
  }

  /** An upper bound of every element of a non-empty sequence (its greatest
      element, though only the bound is stated). */
  function MaxOf(xs: seq<real>): (m: real)
    requires |xs| > 0
    ensures forall i :: 0 <= i < |xs| ==> xs[i] <= m
  {
    if |xs| == 1 then xs[0]
    else
      var rest := MaxOf(xs[1..]);
      assert forall i :: 1 <= i < |xs| ==> xs[i] == xs[1..][i - 1];
      if xs[0] < rest then rest else xs[0]
  }

  /** The linear piece of the interpolant on segment k. */
  function Segment(x: real, xp: seq<real>, fp: seq<real>, k: nat): real
    requires |xp| == |fp| && k + 1 < |xp|
    requires xp[k] < xp[k + 1]
  {
    fp[k] + (fp[k + 1] - fp[k]) * ((x - xp[k]) / (xp[k + 1] - xp[k]))
  }

  /** At a grid energy the interpolant is the stored value. */
  lemma {:induction false} InterpAtGridPoint(xp: seq<real>, fp: seq<real>, k: nat)
    requires |xp| == |fp| && k < |xp|
    requires StrictlyIncreasing(xp)
    ensures Interp(xp[k], xp, fp) == fp[k]
  {
    if k > 0 {
      if k == 1 {
        assert xp[0] < xp[1];
      } else {
        assert xp[0] < xp[1] < xp[k];
        InterpAtGridPoint(xp[1..], fp[1..], k - 1);
      }
    }
  }

  /** Outside the grid the interpolant is clamped to the end values. */
  lemma {:induction false} InterpClamped(x: real, xp: seq<real>, fp: seq<real>)
    requires |xp| == |fp| > 0
    requires StrictlyIncreasing(xp)
    ensures x <= xp[0] ==> Interp(x, xp, fp) == fp[0]
    ensures x >= xp[|xp| - 1] ==> Interp(x, xp, fp) == fp[|fp| - 1]
  {
    if x >= xp[|xp| - 1] && |xp| > 1 {
      if |xp| == 2 {
        if x == xp[1] {
          InterpAtGridPoint(xp, fp, 1);
        }
      } else {
        assert xp[1] < xp[|xp| - 1];
        InterpClamped(x, xp[1..], fp[1..]);
      }
    }
  }

  /** Inside the grid, on segment k, the interpolant is the straight line
      through (xp[k], fp[k]) and (xp[k+1], fp[k+1]). */
  lemma {:induction false} InterpOnSegment(x: real, xp: seq<real>, fp: seq<real>, k: nat)
    requires |xp| == |fp| && k + 1 < |xp|
    requires StrictlyIncreasing(xp)
    requires xp[k] <= x <= xp[k + 1]
    ensures Interp(x, xp, fp) == Segment(x, xp, fp, k)
  {
    if k == 0 {
      InterpFirstSegment(x, xp, fp);
    } else if x == xp[k] {
      InterpAtGridPoint(xp, fp, k);
      assert Segment(x, xp, fp, k) == fp[k];
    } else {
      TailIncreasing(xp);
      assert xp[1] <= xp[k] < x;
      assert Interp(x, xp, fp) == Interp(x, xp[1..], fp[1..]);
      InterpOnSegment(x, xp[1..], fp[1..], k - 1);
      SegmentShift(x, xp, fp, k);
    }
  }

  /** Segment k of a grid is segment k-1 of the grid without its first point. */
  lemma SegmentShift(x: real, xp: seq<real>, fp: seq<real>, k: nat)
    requires |xp| == |fp| && 0 < k && k + 1 < |xp|
    requires xp[k] < xp[k + 1]
    ensures Segment(x, xp[1..], fp[1..], k - 1) == Segment(x, xp, fp, k)
  {
    assert xp[1..][k - 1] == xp[k] && xp[1..][k] == xp[k + 1];
    assert fp[1..][k - 1] == fp[k] && fp[1..][k] == fp[k + 1];
  }

  /** The first segment: the slope form of the function body is the
      straight line through the first two points. */
  lemma InterpFirstSegment(x: real, xp: seq<real>, fp: seq<real>)
    requires |xp| == |fp| && 1 < |xp|
    requires StrictlyIncreasing(xp)
    requires xp[0] <= x <= xp[1]
    ensures Interp(x, xp, fp) == Segment(x, xp, fp, 0)
  {
    if x == xp[0] {
      assert Segment(x, xp, fp, 0) == fp[0];
    } else {
      SlopeForm(fp[1] - fp[0], x - xp[0], xp[1] - xp[0]);
    }
  }

  /** Dropping the first energy keeps a grid strictly increasing. */
  lemma TailIncreasing(xp: seq<real>)
    requires |xp| > 0 && StrictlyIncreasing(xp)
    ensures StrictlyIncreasing(xp[1..])
  {
    forall i, j | 0 <= i < j < |xp| - 1 ensures xp[1..][i] < xp[1..][j] {
      assert xp[1..][i] == xp[i + 1] && xp[1..][j] == xp[j + 1];
    }
  }

  lemma SlopeForm(rise: real, run: real, d: real)
    requires d != 0.0
    ensures (rise / d) * run == rise * (run / d)
  {
  }

  /** A convex combination of two values lies between them. */
  lemma BetweenEnds(a: real, b: real, t: real, lo: real, hi: real)
    requires 0.0 <= t <= 1.0
    requires lo <= a <= hi && lo <= b <= hi
    ensures lo <= a + (b - a) * t <= hi
  {
    if a <= b {
      Composition.NonNegativeProduct(b - a, t);
      Composition.NonNegativeProduct(b - a, 1.0 - t);
      assert (b - a) * (1.0 - t) == (b - a) - (b - a) * t;
    } else {
      Composition.NonNegativeProduct(a - b, t);
      Composition.NonNegativeProduct(a - b, 1.0 - t);
      assert (a - b) * (1.0 - t) == (a - b) - (a - b) * t;
      assert (b - a) * t == -((a - b) * t);
    }
  }

  lemma UnitFraction(num: real, den: real)
    requires 0.0 <= num <= den && 0.0 < den
    ensures 0.0 <= num / den <= 1.0
  {
  }

  /** The interpolant never leaves the range of the stored values: any
      bounds on the stored values bound it too. */
  lemma InterpWithinBounds(x: real, xp: seq<real>, fp: seq<real>, lo: real, hi: real)
    requires |xp| == |fp| > 0
    requires StrictlyIncreasing(xp)
    requires forall i :: 0 <= i < |fp| ==> lo <= fp[i] <= hi
    ensures lo <= Interp(x, xp, fp) <= hi
  {
    ExtremesWithin(fp, lo, hi);
  }

  // ---------------------------------------------------------------------
  // Units and the Beer-Lambert exponent.

  /** Sample thickness from µm to cm, the unit of µ's reciprocal. */
  function ThicknessCm(tUm: real): (cm: real)
    ensures cm * 10000.0 == tUm
  {
    tUm / 10000.0
  }

  /** The argument of `np.exp` in the transmission curve, -(t/10000)·µ(E), at
      every energy of the grid. */
  function TransmissionExponents(tUm: real, mu: seq<real>): (r: seq<real>)
    ensures |r| == |mu|
    ensures forall i :: 0 <= i < |mu| ==> r[i] * 10000.0 == -(tUm * mu[i])
  {
    ExponentsScaled(tUm, mu);
    seq(|mu|, i requires 0 <= i < |mu| => -ThicknessCm(tUm) * mu[i])
  }

  /** Each exponent, -(t/10000)·µ, scaled back by 10000 is -t·µ. */
  lemma ExponentsScaled(tUm: real, mu: seq<real>)
    ensures forall i :: 0 <= i < |mu| ==> (-ThicknessCm(tUm) * mu[i]) * 10000.0 == -(tUm * mu[i])
  {
    forall i | 0 <= i < |mu|
      ensures (-ThicknessCm(tUm) * mu[i]) * 10000.0 == -(tUm * mu[i])
    {
      var c := ThicknessCm(tUm);
      assert (-c * mu[i]) * 10000.0 == -((c * 10000.0) * mu[i]);
    }
  }

  /** For a non-negative thickness and coefficient the exponent is at most 0,
      so the transmission exp(exponent) is at most 1. */
  lemma ExponentNonPositive(tUm: real, mu: seq<real>, i: nat)
    requires 0.0 <= tUm
    requires i < |mu| && 0.0 <= mu[i]
    ensures TransmissionExponents(tUm, mu)[i] <= 0.0
  {
    Composition.NonNegativeProduct(tUm, mu[i]);
  }

  /** A thicker sample has a strictly more negative exponent wherever µ > 0:
      transmission strictly decreases with thickness. */
  lemma ExponentDecreasesWithThickness(t1: real, t2: real, mu: seq<real>, i: nat)
    requires t1 < t2
    requires i < |mu| && 0.0 < mu[i]
    ensures TransmissionExponents(t2, mu)[i] < TransmissionExponents(t1, mu)[i]
  {
    assert 0.0 < (t2 - t1) * mu[i];
    assert t2 * mu[i] - t1 * mu[i] == (t2 - t1) * mu[i];
  }

  /** The transmission curve, exp of the exponents, with the exponential
      supplied by the caller. */
  function Transmission(tUm: real, mu: seq<real>, exp: real -> real): (r: seq<real>)
    ensures |r| == |mu|
  {
    var x := TransmissionExponents(tUm, mu);
    seq(|mu|, i requires 0 <= i < |mu| => exp(x[i]))
  }

  /** The properties of exp that the transmission curve relies on. */
  ghost predicate ExpLike(exp: real -> real)
  {
    && exp(0.0) == 1.0
    && (forall x :: 0.0 < exp(x))
    && (forall x, y :: x < y ==> exp(x) < exp(y))
  }

  /** With any positive, increasing exponential that maps 0 to 1, transmission
      lies in (0, 1] for non-negative thickness and coefficients, and strictly
      decreases with thickness where µ > 0. */
  lemma TransmissionInUnitInterval(tUm: real, mu: seq<real>, exp: real -> real, i: nat)
    requires ExpLike(exp)
    requires 0.0 <= tUm
    requires i < |mu| && 0.0 <= mu[i]
    ensures 0.0 < Transmission(tUm, mu, exp)[i] <= 1.0
  {
    ExponentNonPositive(tUm, mu, i);
    var x := TransmissionExponents(tUm, mu)[i];
    assert x < 0.0 ==> exp(x) < exp(0.0);
  }

  lemma TransmissionDecreasesWithThickness(t1: real, t2: real, mu: seq<real>, exp: real -> real, i: nat)
    requires ExpLike(exp)
    requires t1 < t2
    requires i < |mu| && 0.0 < mu[i]
    ensures Transmission(t2, mu, exp)[i] < Transmission(t1, mu, exp)[i]
  {
    ExponentDecreasesWithThickness(t1, t2, mu, i);
    var x1, x2 := TransmissionExponents(t1, mu)[i], TransmissionExponents(t2, mu)[i];
    assert exp(x2) < exp(x1);
  }

  // ---------------------------------------------------------------------
  // The characteristic depth.

  /** The 1/e depth in mm and µm; NumPy's division by a zero coefficient
      gives an infinite depth rather than an exception. */
  datatype Depth = Finite(mm: real, um: real) | Infinite

  /** print_one_over_e_depth without the printing: µ interpolated at the
      target energy, then 10/µ mm and 1000 times that in µm. The depth is
      infinite exactly when the interpolated coefficient is zero; otherwise
      the mm figure times that coefficient is 10 and the µm figure is 1000
      times the mm figure. */
  function OneOverEDepth(mu: seq<real>, energy: seq<real>, target: real): (d: Depth)
    requires |energy| == |mu| > 0
    requires StrictlyIncreasing(energy)
    ensures d.Infinite? <==> Interp(target, energy, mu) == 0.0
    ensures d.Finite? ==> d.mm * Interp(target, energy, mu) == 10.0 && d.um == 1000.0 * d.mm
  {
    var muAtTarget := Interp(target, energy, mu);
    if muAtTarget == 0.0 then Infinite
    else
      var depthMm := 10.0 / muAtTarget;
      Finite(depthMm, depthMm * 1000.0)
  }

  /** The reported depth is the thickness at which the Beer-Lambert exponent
      is exactly -1, that is, where the transmission is 1/e. */
  lemma DepthIsOneOverE(mu: seq<real>, energy: seq<real>, target: real)
    requires |energy| == |mu| > 0
    requires StrictlyIncreasing(energy)
    ensures var d := OneOverEDepth(mu, energy, target);
      d.Finite? ==> TransmissionExponents(d.um, [Interp(target, energy, mu)])[0] == -1.0
  {
    var m := Interp(target, energy, mu);
    var d := OneOverEDepth(mu, energy, target);
    if d.Finite? {
      var r := TransmissionExponents(d.um, [m])[0];
      assert d.um * m == 1000.0 * (d.mm * m);
      assert r * 10000.0 == -(d.um * m);
    }
  }

  /** When µ is positive everywhere on the grid, the depth is a finite,
      positive number at every target energy. */
  lemma DepthPositive(mu: seq<real>, energy: seq<real>, target: real, lo: real)
    requires |energy| == |mu| > 0
    requires StrictlyIncreasing(energy)
    requires 0.0 < lo
    requires forall i :: 0 <= i < |mu| ==> lo <= mu[i]
    ensures OneOverEDepth(mu, energy, target).Finite?
    ensures 0.0 < OneOverEDepth(mu, energy, target).mm
  {
    var hi := MaxOf(mu);
    InterpWithinBounds(target, energy, mu, lo, hi);
  }

  /** At a grid energy the depth is computed from the stored coefficient. */
  lemma DepthAtGridPoint(mu: seq<real>, energy: seq<real>, k: nat)
    requires |energy| == |mu| && k < |mu|
    requires StrictlyIncreasing(energy)
    requires mu[k] != 0.0
    ensures OneOverEDepth(mu, energy, energy[k]) == Finite(10.0 / mu[k], 10.0 / mu[k] * 1000.0)
  {
    InterpAtGridPoint(energy, mu, k);
  }
}
