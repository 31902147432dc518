/** The fraction normaliser: per-component mole or weight percentages become
    weight fractions that sum to one. */
module WeightFractions {
  import opened Composition

  /** The two fraction-type tags the normaliser accepts, compared exactly. */
  const Mol: string := "mol"
  const Wt: string := "wt"

  /** Every percentage as a fraction, keys and order kept: the fraction is the
      number that, times 100, gives back the percentage. */
  function Percent(fractions: Mapping): (r: Mapping)
    ensures Keys(r) == Keys(fractions)
    ensures forall i :: 0 <= i < |r| ==> r[i].key == fractions[i].key && r[i].value * 100.0 == fractions[i].value
  {
    seq(|fractions|, i requires 0 <= i < |fractions| => Entry(fractions[i].key, fractions[i].value / 100.0))
  }

  /** Index of the first component (in insertion order) that has no molar mass,
      or the length of the mapping when every component has one. */
  function FirstMissing(m: seq<Entry>, molarMasses: map<string, real>): (i: nat)
    ensures i <= |m|
    ensures forall j :: 0 <= j < i ==> m[j].key in molarMasses
    ensures i < |m| ==> m[i].key !in molarMasses
  {
    if m == [] || m[0].key !in molarMasses then 0
    else 1 + FirstMissing(m[1..], molarMasses)
  }

  /** Every mole fraction times its component's molar mass; the first
      component (in insertion order) without a molar mass raises KeyError. */
  function UnnormalizedWeights(molFractions: Mapping, molarMasses: map<string, real>): (r: Result<Mapping>)
    ensures r.Failure? <==> exists i :: 0 <= i < |molFractions| && molFractions[i].key !in molarMasses
    ensures r.Failure? ==> r.error.MissingMolarMass?
    ensures r.Success? ==> Keys(r.value) == Keys(molFractions)
    ensures r.Success? ==> forall i :: 0 <= i < |molFractions| ==>
      r.value[i] == Entry(molFractions[i].key, molFractions[i].value * molarMasses[molFractions[i].key])
  {
    var i := FirstMissing(molFractions, molarMasses);
    if i < |molFractions| then
      Failure(MissingMolarMass(molFractions[i].key))
    else
      var w: Mapping := seq(|molFractions|, j requires 0 <= j < |molFractions| =>
        Entry(molFractions[j].key, molFractions[j].value * molarMasses[molFractions[j].key]));
      Success(w)
  }

  /** Every weight divided by the sum of all weights. Python raises
      ZeroDivisionError only when some value is actually divided, so an empty
      mapping normalises to the empty mapping. */
  function Normalize(weights: Mapping): (r: Result<Mapping>)
    ensures r.Failure? <==> |weights| > 0 && Sum(Values(weights)) == 0.0
    ensures r.Failure? ==> r.error == ZeroTotalWeight
    ensures r.Success? ==> Keys(r.value) == Keys(weights)
    ensures r.Success? ==> forall i :: 0 <= i < |weights| ==>
      r.value[i].value * Sum(Values(weights)) == weights[i].value
    ensures r.Success? && |weights| > 0 ==> Sum(Values(r.value)) == 1.0
  {
    var total := Sum(Values(weights));
    if |weights| > 0 && total == 0.0 then
      Failure(ZeroTotalWeight)
    else
      var w: Mapping := Divide(weights, total);
      DivideByTotal(weights, total);
      Success(w)
  }

  /** Every value divided by `total`, keys and order kept. */
  function Divide(weights: seq<Entry>, total: real): (r: seq<Entry>)
    requires total != 0.0 || weights == []
    ensures |r| == |weights|
    ensures forall i :: 0 <= i < |weights| ==> r[i] == Entry(weights[i].key, weights[i].value / total)
  {
    seq(|weights|, i requires 0 <= i < |weights| => Entry(weights[i].key, weights[i].value / total))
  }

  /** Dividing by the total: each quotient times the total is the value, and
      the quotients of a non-empty mapping sum to one. */
  lemma DivideByTotal(weights: seq<Entry>, total: real)
    requires total == Sum(Values(weights))
    requires total != 0.0 || weights == []
    ensures forall i :: 0 <= i < |weights| ==> Divide(weights, total)[i].value * total == weights[i].value
    ensures |weights| > 0 ==> Sum(Values(Divide(weights, total))) == 1.0
  {
    if weights != [] {
      SumScale(Values(weights), Values(Divide(weights, total)), 1.0 / total);
    }
  }

  /** calculate_weight_fractions: 'mol' weights each mole fraction by its
      molar mass before normalising, 'wt' normalises the fractions directly,
      and any other tag is rejected. */
  function CalculateWeightFractions(fractions: Mapping, molarMasses: map<string, real>, fractionType: string)
    : (r: Result<Mapping>)
    ensures r == Failure(InvalidFractionType) <==> fractionType != Mol && fractionType != Wt
    ensures r.Success? ==> Keys(r.value) == Keys(fractions)
    ensures r.Success? && |fractions| > 0 ==> Sum(Values(r.value)) == 1.0
    ensures r.Failure? ==> r.error.InvalidFractionType? || r.error.MissingMolarMass? || r.error.ZeroTotalWeight?
    ensures fractions == [] && (fractionType == Mol || fractionType == Wt) ==> r.Success? && r.value == []
  {
    if fractionType == Mol then
      match UnnormalizedWeights(Percent(fractions), molarMasses)
      case Failure(e) => Failure(e)
      case Success(w) => Normalize(w)
    else if fractionType == Wt then
      Normalize(Percent(fractions))
    else
      Failure(InvalidFractionType)
  }

  // ---------------------------------------------------------------------
  // Reference definitions, written component by component.

  /** Σ_j p_j/100 · M_j over the components, in insertion order. */
  function MolTotal(fractions: seq<Entry>, molarMasses: map<string, real>): real
    requires forall i :: 0 <= i < |fractions| ==> fractions[i].key in molarMasses
  {
    if fractions == [] then 0.0
    else
      var last := fractions[|fractions| - 1];
      MolTotal(fractions[..|fractions| - 1], molarMasses) + last.value / 100.0 * molarMasses[last.key]
  }

  /** Σ_j p_j/100 over the components, in insertion order. */
  function WtTotal(fractions: seq<Entry>): real
  {
    if fractions == [] then 0.0
    else WtTotal(fractions[..|fractions| - 1]) + fractions[|fractions| - 1].value / 100.0
  }

  /** Every percentage multiplied by the same constant. */
  function ScalePercentages(fractions: Mapping, c: real): (r: Mapping)
    ensures Keys(r) == Keys(fractions)
    ensures forall i :: 0 <= i < |r| ==> r[i].value == c * fractions[i].value
  {
    seq(|fractions|, i requires 0 <= i < |fractions| => Entry(fractions[i].key, c * fractions[i].value))
  }

  // ---------------------------------------------------------------------
  // Lemmas.

  lemma {:induction false} MolTotalIsSum(fractions: seq<Entry>, molarMasses: map<string, real>, ws: seq<real>)
    requires forall i :: 0 <= i < |fractions| ==> fractions[i].key in molarMasses
    requires |ws| == |fractions|
    requires forall i :: 0 <= i < |ws| ==> ws[i] == fractions[i].value / 100.0 * molarMasses[fractions[i].key]
    ensures Sum(ws) == MolTotal(fractions, molarMasses)
  {
    if fractions != [] {
      MolTotalIsSum(fractions[..|fractions| - 1], molarMasses, ws[..|ws| - 1]);
    }
  }

  lemma {:induction false} WtTotalIsSum(fractions: seq<Entry>, ws: seq<real>)
    requires |ws| == |fractions|
    requires forall i :: 0 <= i < |ws| ==> ws[i] == fractions[i].value / 100.0
    ensures Sum(ws) == WtTotal(fractions)
  {
    if fractions != [] {
      WtTotalIsSum(fractions[..|fractions| - 1], ws[..|ws| - 1]);
    }
  }

  /** 'mol': a component without a molar mass is reported, and it is the first
      such component in insertion order. */
  lemma MolMissingMolarMass(fractions: Mapping, molarMasses: map<string, real>)
    ensures var r := CalculateWeightFractions(fractions, molarMasses, Mol);
      (r.Failure? && r.error.MissingMolarMass?)
        <==> exists i :: 0 <= i < |fractions| && fractions[i].key !in molarMasses
    ensures var r := CalculateWeightFractions(fractions, molarMasses, Mol);
      r.Failure? && r.error.MissingMolarMass? ==>
        exists i :: 0 <= i < |fractions| && fractions[i].key == r.error.key && r.error.key !in molarMasses
          && forall j :: 0 <= j < i ==> fractions[j].key in molarMasses
  {
    var p := Percent(fractions);
    assert forall i :: 0 <= i < |fractions| ==> p[i].key == Keys(p)[i] == Keys(fractions)[i] == fractions[i].key;
    var r := CalculateWeightFractions(fractions, molarMasses, Mol);
    if r.Failure? && r.error.MissingMolarMass? {
      var i := FirstMissing(p, molarMasses);
      assert r.error.key == fractions[i].key;
    }
  }

  /** 'mol': each weight fraction is (p_k/100 · M_k) / Σ_j (p_j/100 · M_j), and
      the only error left is a zero total weight on a non-empty mapping. */
  lemma MolBranch(fractions: Mapping, molarMasses: map<string, real>)
    requires forall i :: 0 <= i < |fractions| ==> fractions[i].key in molarMasses
    ensures var r := CalculateWeightFractions(fractions, molarMasses, Mol);
      var total := MolTotal(fractions, molarMasses);
      && (r.Failure? <==> |fractions| > 0 && total == 0.0)
      && (r.Failure? ==> r.error == ZeroTotalWeight)
      && (r.Success? ==> |r.value| == |fractions| && forall k :: 0 <= k < |fractions| ==>
            r.value[k] == Entry(fractions[k].key, fractions[k].value / 100.0 * molarMasses[fractions[k].key] / total))
  {
    var p := Percent(fractions);
    assert forall i :: 0 <= i < |fractions| ==> p[i].key == Keys(p)[i] == Keys(fractions)[i] == fractions[i].key;
    var u := UnnormalizedWeights(p, molarMasses);
    assert u.Success?;
    MolTotalIsSum(fractions, molarMasses, Values(u.value));
  }

  /** 'wt': each weight fraction is (p_k/100) / Σ_j (p_j/100), whatever the
      molar masses are, and the only error is a zero total on a non-empty
      mapping. */
  lemma WtBranch(fractions: Mapping, molarMasses: map<string, real>)
    ensures var r := CalculateWeightFractions(fractions, molarMasses, Wt);
      var total := WtTotal(fractions);
      && (r.Failure? <==> |fractions| > 0 && total == 0.0)
      && (r.Failure? ==> r.error == ZeroTotalWeight)
      && (r.Success? ==> |r.value| == |fractions| && forall k :: 0 <= k < |fractions| ==>
            r.value[k] == Entry(fractions[k].key, fractions[k].value / 100.0 / total))
  {
    var p := Percent(fractions);
    assert forall i :: 0 <= i < |fractions| ==> p[i].key == Keys(p)[i] == Keys(fractions)[i] == fractions[i].key;
    WtTotalIsSum(fractions, Values(p));
  }

  /** `scaled` holds the entries of `weights` with every value multiplied by c. */
  predicate ScaledBy(scaled: seq<Entry>, weights: seq<Entry>, c: real)
  {
    && |scaled| == |weights|
    && forall i :: 0 <= i < |weights| ==> scaled[i] == Entry(weights[i].key, c * weights[i].value)
  }

  /** Scaling every weight by the same non-zero constant does not change the
      normalised result. */
  lemma NormalizeScaleInvariant(weights: Mapping, scaled: Mapping, c: real)
    requires c != 0.0
    requires ScaledBy(scaled, weights, c)
    ensures Normalize(scaled) == Normalize(weights)
  {
    var t := Sum(Values(weights));
    ScaledTotal(weights, scaled, c);
    ProductZero(c, t);
    if t != 0.0 {
      var ts := Sum(Values(scaled));
      assert ts == c * t;
      assert |scaled| > 0 && ts != 0.0;
      assert Normalize(scaled).value == Divide(scaled, ts);
      assert Normalize(weights).value == Divide(weights, t);
      DivideScaled(weights, scaled, c, t);
    } else if weights == [] {
      assert scaled == [];
    }
  }

  /** Dividing scaled weights by the scaled total undoes the scaling. */
  lemma DivideScaled(weights: seq<Entry>, scaled: seq<Entry>, c: real, t: real)
    requires c != 0.0 && t != 0.0
    requires ScaledBy(scaled, weights, c)
    ensures Divide(scaled, c * t) == Divide(weights, t)
  {
    forall i | 0 <= i < |weights|
      ensures Divide(scaled, c * t)[i] == Divide(weights, t)[i]
    {
      ScaledEntry(weights[i], scaled[i], c, t);
    }
  }

  /** Scaling every weight scales the total. */
  lemma ScaledTotal(weights: seq<Entry>, scaled: seq<Entry>, c: real)
    requires ScaledBy(scaled, weights, c)
    ensures Sum(Values(scaled)) == c * Sum(Values(weights))
  {
    SumScale(Values(weights), Values(scaled), c);
  }

  /** One entry of the scaled mapping normalises like its original. */
  lemma ScaledEntry(w: Entry, s: Entry, c: real, t: real)
    requires c != 0.0 && t != 0.0
    requires s == Entry(w.key, c * w.value)
    ensures Entry(s.key, s.value / (c * t)) == Entry(w.key, w.value / t)
  {
    DivCancel(c, w.value, t);
  }

  lemma ProductZero(c: real, t: real)
    requires c != 0.0
    ensures c * t == 0.0 <==> t == 0.0
  {
    if c * t == 0.0 {
      assert t == (c * t) / c;
    }
  }

  lemma DivCancel(c: real, v: real, t: real)
    requires c != 0.0 && t != 0.0
    ensures (c * v) / (c * t) == v / t
  {
    ProductZero(c, t);
    assert (c * v) == (v / t) * (c * t);
  }

  /** Multiplying every percentage by the same non-zero constant (percentages
      summing to 97 or 103 instead of 100, say) leaves the weight fractions
      unchanged, for either tag. */
  lemma ScaleInvariance(fractions: Mapping, molarMasses: map<string, real>, fractionType: string, c: real)
    requires c != 0.0
    ensures CalculateWeightFractions(ScalePercentages(fractions, c), molarMasses, fractionType)
         == CalculateWeightFractions(fractions, molarMasses, fractionType)
  {
    var s := ScalePercentages(fractions, c);
    if fractionType == Mol {
      MolScaleInvariance(fractions, s, molarMasses, c);
    } else if fractionType == Wt {
      PercentOfScaled(fractions, s, c);
      NormalizeScaleInvariant(Percent(fractions), Percent(s), c);
    }
  }

  /** Scaling the percentages scales the fractions they stand for. */
  lemma PercentOfScaled(fractions: Mapping, s: Mapping, c: real)
    requires s == ScalePercentages(fractions, c)
    ensures ScaledBy(Percent(s), Percent(fractions), c)
  {
    forall i | 0 <= i < |fractions|
      ensures Percent(s)[i] == Entry(Percent(fractions)[i].key, c * Percent(fractions)[i].value)
    {
      assert s[i].key == Keys(s)[i] == Keys(fractions)[i] == fractions[i].key;
      ScaledPercent(c, fractions[i].value);
    }
  }

  lemma ScaledPercent(c: real, v: real)
    ensures (c * v) / 100.0 == c * (v / 100.0)
  {
  }

  /** The 'mol' half of the scale invariance. */
  lemma MolScaleInvariance(fractions: Mapping, s: Mapping, molarMasses: map<string, real>, c: real)
    requires c != 0.0
    requires s == ScalePercentages(fractions, c)
    ensures CalculateWeightFractions(s, molarMasses, Mol) == CalculateWeightFractions(fractions, molarMasses, Mol)
  {
    var ps, p := Percent(s), Percent(fractions);
    PercentOfScaled(fractions, s, c);
    FirstMissingSameKeys(ps, p, molarMasses);
    var us, u := UnnormalizedWeights(ps, molarMasses), UnnormalizedWeights(p, molarMasses);
    if u.Success? {
      WeightsOfScaled(p, ps, molarMasses, c);
      NormalizeScaleInvariant(u.value, us.value, c);
    }
  }

  /** Scaled mole fractions give scaled unnormalised weights. */
  lemma WeightsOfScaled(p: Mapping, ps: Mapping, molarMasses: map<string, real>, c: real)
    requires ScaledBy(ps, p, c)
    requires UnnormalizedWeights(p, molarMasses).Success?
    ensures UnnormalizedWeights(ps, molarMasses).Success?
    ensures ScaledBy(UnnormalizedWeights(ps, molarMasses).value, UnnormalizedWeights(p, molarMasses).value, c)
  {
    var u := UnnormalizedWeights(p, molarMasses);
    forall i | 0 <= i < |p| ensures ps[i].key in molarMasses {
      assert ps[i].key == p[i].key;
    }
    var us := UnnormalizedWeights(ps, molarMasses);
    forall i | 0 <= i < |p|
      ensures us.value[i] == Entry(u.value[i].key, c * u.value[i].value)
    {
      assert ps[i].key == p[i].key;
      ScaledWeight(c, p[i].value, molarMasses[p[i].key]);
    }
  }

  lemma ScaledWeight(c: real, v: real, m: real)
    ensures (c * v) * m == c * (v * m)
  {
  }

  lemma {:induction false} FirstMissingSameKeys(a: seq<Entry>, b: seq<Entry>, molarMasses: map<string, real>)
    requires |a| == |b|
    requires forall i :: 0 <= i < |a| ==> a[i].key == b[i].key
    ensures FirstMissing(a, molarMasses) == FirstMissing(b, molarMasses)
  {
    if a != [] {
      FirstMissingSameKeys(a[1..], b[1..], molarMasses);
    }
  }

  /** A single component with a non-zero percentage (and, for 'mol', a
      non-zero molar mass) has weight fraction exactly 1. */
  lemma SingleComponent(name: string, percent: real, molarMasses: map<string, real>, fractionType: string,
                        one: Mapping)
    requires percent != 0.0
    requires fractionType == Mol || fractionType == Wt
    requires fractionType == Mol ==> name in molarMasses && molarMasses[name] != 0.0
    requires one == [Entry(name, 1.0)]
    ensures CalculateWeightFractions([Entry(name, percent)], molarMasses, fractionType) == Success(one)
  {
    var f: Mapping := [Entry(name, percent)];
    var p := Percent(f);
    assert |p| == |Keys(p)| == 1 && p[0].key == name && p[0].value != 0.0;
    var w: Mapping;
    if fractionType == Mol {
      var u := UnnormalizedWeights(p, molarMasses);
      assert u.Success?;
      w := u.value;
      assert w[0].value == p[0].value * molarMasses[name];
      ProductZero(p[0].value, molarMasses[name]);
    } else {
      w := p;
    }
    assert |w| == |Keys(w)| == 1 && w[0].key == name && w[0].value != 0.0;
    SingleSum(w);
    var r := Normalize(w);
    assert CalculateWeightFractions(f, molarMasses, fractionType) == r;
    // One fraction that sums to one is one.
    SingleSum(r.value);
    assert r.value[0].key == Keys(r.value)[0] == name;
    assert r.value == one;
  }

  /** The sum of a single value is that value. */
  lemma SingleSum(w: seq<Entry>)
    requires |w| == 1
    ensures Sum(Values(w)) == w[0].value
  {
    assert Values(w)[..0] == [];
  }

  /** Mole percentages and weight percentages that describe the same mixture
      (each weight percentage proportional to mole percentage times molar
      mass) yield identical weight fractions. */
  lemma MolAndWtAgree(molPercent: Mapping, molarMasses: map<string, real>,
                      wtPercent: Mapping, anyMasses: map<string, real>, c: real)
    requires c != 0.0
    requires Keys(wtPercent) == Keys(molPercent)
    requires forall i :: 0 <= i < |molPercent| ==> molPercent[i].key in molarMasses
    requires forall i :: 0 <= i < |molPercent| ==>
      wtPercent[i].value == c * molPercent[i].value * molarMasses[molPercent[i].key]
    ensures CalculateWeightFractions(wtPercent, anyMasses, Wt)
         == CalculateWeightFractions(molPercent, molarMasses, Mol)
  {
    var u := UnnormalizedWeights(Percent(molPercent), molarMasses);
    ProportionalWeights(molPercent, molarMasses, wtPercent, c);
    NormalizeScaleInvariant(u.value, Percent(wtPercent), c);
  }

  /** The weight percentages over 100 are c times the unnormalised weights. */
  lemma ProportionalWeights(molPercent: Mapping, molarMasses: map<string, real>, wtPercent: Mapping, c: real)
    requires Keys(wtPercent) == Keys(molPercent)
    requires forall i :: 0 <= i < |molPercent| ==> molPercent[i].key in molarMasses
    requires forall i :: 0 <= i < |molPercent| ==>
      wtPercent[i].value == c * molPercent[i].value * molarMasses[molPercent[i].key]
    ensures var u := UnnormalizedWeights(Percent(molPercent), molarMasses);
      u.Success? && ScaledBy(Percent(wtPercent), u.value, c)
  {
    var p, q := Percent(molPercent), Percent(wtPercent);
    var u := UnnormalizedWeights(p, molarMasses);
    forall i | 0 <= i < |q|
      ensures q[i] == Entry(u.value[i].key, c * u.value[i].value)
    {
      assert wtPercent[i].key == Keys(wtPercent)[i] == Keys(molPercent)[i] == molPercent[i].key;
      WeightOfPercent(c, molPercent[i].value, molarMasses[molPercent[i].key]);
    }
  }

  lemma WeightOfPercent(c: real, v: real, m: real)
    ensures c * v * m / 100.0 == c * (v / 100.0 * m)
  {
  }

  /** With non-negative percentages (and non-negative molar masses for 'mol'),
      every weight fraction the normaliser returns lies in [0, 1]. */
  lemma FractionsInUnitInterval(fractions: Mapping, molarMasses: map<string, real>, fractionType: string)
    requires forall i :: 0 <= i < |fractions| ==> 0.0 <= fractions[i].value
    requires forall k :: k in molarMasses ==> 0.0 <= molarMasses[k]
    requires CalculateWeightFractions(fractions, molarMasses, fractionType).Success?
    ensures var w := CalculateWeightFractions(fractions, molarMasses, fractionType).value;
      forall i :: 0 <= i < |w| ==> 0.0 <= w[i].value <= 1.0
  {
    var p := Percent(fractions);
    assert forall i :: 0 <= i < |p| ==> 0.0 <= p[i].value;
    if fractionType == Mol {
      MolWeightsNonNegative(p, molarMasses);
      NormalizedInUnitInterval(UnnormalizedWeights(p, molarMasses).value);
    } else {
      NormalizedInUnitInterval(p);
    }
  }

  /** Non-negative mole fractions and molar masses give non-negative weights. */
  lemma MolWeightsNonNegative(p: Mapping, molarMasses: map<string, real>)
    requires forall i :: 0 <= i < |p| ==> 0.0 <= p[i].value
    requires forall k :: k in molarMasses ==> 0.0 <= molarMasses[k]
    requires UnnormalizedWeights(p, molarMasses).Success?
    ensures var w := UnnormalizedWeights(p, molarMasses).value;
      forall i :: 0 <= i < |w| ==> 0.0 <= w[i].value
  {
    var w := UnnormalizedWeights(p, molarMasses).value;
    forall i | 0 <= i < |w| ensures 0.0 <= w[i].value {
      NonNegativeProduct(p[i].value, molarMasses[p[i].key]);
    }
  }

  /** Normalising non-negative weights gives values in [0, 1]. */
  lemma NormalizedInUnitInterval(weights: Mapping)
    requires forall i :: 0 <= i < |weights| ==> 0.0 <= weights[i].value
    requires Normalize(weights).Success?
    ensures forall i :: 0 <= i < |weights| ==> 0.0 <= Normalize(weights).value[i].value <= 1.0
  {
    var vs := Values(weights);
    var t := Sum(vs);
    forall i | 0 <= i < |weights|
      ensures 0.0 <= Normalize(weights).value[i].value <= 1.0
    {
      SumBoundsElement(vs, i);
      assert 0.0 < t;
      FractionOfTotal(vs[i], t);
    }
  }

  lemma FractionOfTotal(v: real, t: real)
    requires 0.0 <= v <= t && 0.0 < t
    ensures 0.0 <= v / t <= 1.0
  {
  }
}
