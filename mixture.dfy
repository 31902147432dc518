/** The mixture attenuation evaluator: per-component linear attenuation
    coefficients from an external material lookup are combined into one
    coefficient per energy of the grid. */
module Mixture {
  import opened Composition

  /** The external material lookup, evaluated at one energy:
      `lookup(material, energy, density)` is the linear attenuation
      coefficient (1/cm) of `material` at `energy` (eV) and `density` (g/cm^3). */
  type Lookup = (string, real, real) -> real

  /** What one component adds at energy `e`: its weight fraction times the
      lookup at the partial density ρ·w. A component of zero weight adds
      nothing, whatever the lookup gives for it. */
  function Contribution(component: Entry, e: real, density: real, lookup: Lookup): (r: real)
    ensures component.value == 0.0 ==> r == 0.0
  {
    component.value * lookup(component.key, e, density * component.value)
  }

  /** The coefficient the source accumulates at one energy: over the
      components in insertion order, the sum of w · lookup(comp, E, ρ·w). */
  function MixtureAt(weightFractions: seq<Entry>, e: real, density: real, lookup: Lookup): real
  {
    if weightFractions == [] then 0.0
    else
      MixtureAt(weightFractions[..|weightFractions| - 1], e, density, lookup)
        + Contribution(weightFractions[|weightFractions| - 1], e, density, lookup)
  }

  /** The mixture coefficient at every energy of the grid, index for index. */
  function MuProfile(weightFractions: seq<Entry>, energy: seq<real>, density: real, lookup: Lookup): (mu: seq<real>)
    ensures |mu| == |energy|
  {
    seq(|energy|, i requires 0 <= i < |energy| => MixtureAt(weightFractions, energy[i], density, lookup))
  }

  /** calculate_total_mu: a zero array the length of the energy grid, to
      which every component adds its weighted coefficient, index by index. */
  method CalculateTotalMu(weightFractions: Mapping, energy: seq<real>, systemDensity: real, lookup: Lookup)
    returns (mu: array<real>)
    ensures fresh(mu)
    ensures mu[..] == MuProfile(weightFractions, energy, systemDensity, lookup)
  {
    mu := new real[|energy|](_ => 0.0);
    var c := 0;
    while c < |weightFractions|
      invariant 0 <= c <= |weightFractions|
      invariant mu.Length == |energy|
      invariant forall i :: 0 <= i < |energy| ==> mu[i] == MixtureAt(weightFractions[..c], energy[i], systemDensity, lookup)
    {
      AddComponent(mu, weightFractions[c], energy, systemDensity, lookup);
      forall i | 0 <= i < |energy|
        ensures mu[i] == MixtureAt(weightFractions[..c + 1], energy[i], systemDensity, lookup)
      {
        MixtureStep(weightFractions, c, energy[i], systemDensity, lookup);
      }
      c := c + 1;
    }
    assert weightFractions[..c] == weightFractions;
  }

  /** The vectorised in-place addition `mu += w * lookup(comp, energy, ρ·w)`
      of one component's weighted coefficient, index by index. */
  method AddComponent(mu: array<real>, component: Entry, energy: seq<real>, density: real, lookup: Lookup)
    requires mu.Length == |energy|
    modifies mu
    ensures forall i :: 0 <= i < |energy| ==> mu[i] == old(mu[i]) + Contribution(component, energy[i], density, lookup)
  {
    var j := 0;
    while j < |energy|
      invariant 0 <= j <= |energy|
      invariant forall i :: 0 <= i < j ==> mu[i] == old(mu[i]) + Contribution(component, energy[i], density, lookup)
      invariant forall i :: j <= i < |energy| ==> mu[i] == old(mu[i])
    {
      mu[j] := mu[j] + Contribution(component, energy[j], density, lookup);
      j := j + 1;
    }
  }

  /** Accumulating one more component adds its weighted coefficient. */
  lemma MixtureStep(weightFractions: seq<Entry>, c: nat, e: real, density: real, lookup: Lookup)
    requires c < |weightFractions|
    ensures MixtureAt(weightFractions[..c + 1], e, density, lookup)
         == MixtureAt(weightFractions[..c], e, density, lookup) + Contribution(weightFractions[c], e, density, lookup)
  {
    assert weightFractions[..c + 1][..c] == weightFractions[..c];
  }

  /** The contribution of a list of components is the sum of the contributions
      of its parts. */
  lemma {:induction false} MixtureAppend(a: seq<Entry>, b: seq<Entry>, e: real, density: real, lookup: Lookup)
    ensures MixtureAt(a + b, e, density, lookup) == MixtureAt(a, e, density, lookup) + MixtureAt(b, e, density, lookup)
  {
    if b == [] {
      assert a + b == a;
    } else {
      var n := |b| - 1;
      assert (a + b)[..|a + b| - 1] == a + b[..n];
      assert (a + b)[|a + b| - 1] == b[n];
      MixtureAppend(a, b[..n], e, density, lookup);
    }
  }

  /** Exchanging two blocks of components does not change the coefficient. */
  lemma MixtureOrderIndependent(a: seq<Entry>, b: seq<Entry>, e: real, density: real, lookup: Lookup)
    ensures MixtureAt(a + b, e, density, lookup) == MixtureAt(b + a, e, density, lookup)
  {
    MixtureAppend(a, b, e, density, lookup);
    MixtureAppend(b, a, e, density, lookup);
  }

  /** The order in which the components are accumulated does not matter:
      any rearrangement of the same components gives the same coefficient. */
  lemma {:induction false} MixturePermutation(a: seq<Entry>, b: seq<Entry>, e: real, density: real, lookup: Lookup)
    requires multiset(a) == multiset(b)
    ensures MixtureAt(a, e, density, lookup) == MixtureAt(b, e, density, lookup)
    decreases |a|
  {
    if a == [] {
      assert |b| == |multiset(b)| == 0;
    } else {
      var n := |a| - 1;
      var x := a[n];
      assert a == a[..n] + [x];
      assert x in multiset(a);
      var k :| 0 <= k < |b| && b[k] == x;
      var before, after := b[..k], b[k + 1..];
      assert b == before + [x] + after;
      RemoveOne(a[..n], before, after, x);
      MixturePermutation(a[..n], before + after, e, density, lookup);
      MixtureAround(before, x, after, e, density, lookup);
    }
  }

  /** Taking the same component out of two arrangements of the same
      components leaves arrangements of the same components. */
  lemma RemoveOne(init: seq<Entry>, before: seq<Entry>, after: seq<Entry>, x: Entry)
    requires multiset(init + [x]) == multiset(before + [x] + after)
    ensures multiset(init) == multiset(before + after)
  {
    assert multiset(init + [x]) == multiset(init) + multiset{x};
    assert multiset(before + [x] + after) == multiset(before) + multiset{x} + multiset(after);
    assert multiset(before + after) == multiset(before) + multiset(after);
    assert multiset(init) == multiset(init + [x]) - multiset{x};
    assert multiset(before + after) == multiset(before + [x] + after) - multiset{x};
  }

  /** A component between two blocks adds its contribution to theirs. */
  lemma MixtureAround(before: seq<Entry>, x: Entry, after: seq<Entry>, e: real, density: real, lookup: Lookup)
    ensures MixtureAt(before + [x] + after, e, density, lookup)
         == MixtureAt(before + after, e, density, lookup) + Contribution(x, e, density, lookup)
  {
    MixtureAppend(before + [x], after, e, density, lookup);
    MixtureAppend(before, after, e, density, lookup);
    assert (before + [x])[..|before|] == before;
  }

  /** No components: the coefficient stays zero at every energy. */
  lemma EmptyMixtureProfile(energy: seq<real>, density: real, lookup: Lookup)
    ensures forall i :: 0 <= i < |energy| ==> MuProfile([], energy, density, lookup)[i] == 0.0
  {
  }

  /** A single component of weight fraction 1 has, at every energy, exactly
      the coefficient the lookup gives for it at the bulk density. */
  lemma SingleComponentProfile(name: string, energy: seq<real>, density: real, lookup: Lookup)
    ensures forall i :: 0 <= i < |energy| ==>
      MuProfile([Entry(name, 1.0)], energy, density, lookup)[i] == lookup(name, energy[i], density)
  {
    var single := [Entry(name, 1.0)];
    assert single[..0] == [];
    forall i | 0 <= i < |energy|
      ensures MuProfile(single, energy, density, lookup)[i] == lookup(name, energy[i], density)
    {
      assert density * 1.0 == density;
      assert Contribution(single[0], energy[i], density, lookup) == lookup(name, energy[i], density);
      assert MixtureAt(single, energy[i], density, lookup) == Contribution(single[0], energy[i], density, lookup);
    }
  }

  // ---------------------------------------------------------------------
  // The physical mixing rule.
  //
  // A lookup is density-linear when it is a mass attenuation coefficient
  // times the density, as the material lookup of xraydb is. With such a
  // lookup the partial density ρ·w already carries the mass share w of a
  // component, so weighting its coefficient by w once more counts the share
  // twice.

  ghost predicate DensityLinear(lookup: Lookup, massAtt: (string, real) -> real)
  {
    forall name, e, d :: lookup(name, e, d) == d * massAtt(name, e)
  }

  /** ρ · Σ w · (μ/ρ): the standard additivity rule for mixtures. */
  function MassWeighted(weightFractions: seq<Entry>, e: real, massAtt: (string, real) -> real): real
  {
    if weightFractions == [] then 0.0
    else
      var last := weightFractions[|weightFractions| - 1];
      MassWeighted(weightFractions[..|weightFractions| - 1], e, massAtt) + last.value * massAtt(last.key, e)
  }

  /** Σ w² · (μ/ρ): what the source's rule amounts to, divided by ρ. */
  function SquareWeighted(weightFractions: seq<Entry>, e: real, massAtt: (string, real) -> real): real
  {
    if weightFractions == [] then 0.0
    else
      var last := weightFractions[|weightFractions| - 1];
      SquareWeighted(weightFractions[..|weightFractions| - 1], e, massAtt)
        + last.value * last.value * massAtt(last.key, e)
  }

  /** The corrected rule: every component contributes its coefficient at its
      partial density, Σ lookup(comp, E, ρ·w). */
  function PartialDensityMixtureAt(weightFractions: seq<Entry>, e: real, density: real, lookup: Lookup): real
  {
    if weightFractions == [] then 0.0
    else
      var last := weightFractions[|weightFractions| - 1];
      PartialDensityMixtureAt(weightFractions[..|weightFractions| - 1], e, density, lookup)
        + lookup(last.key, e, density * last.value)
  }

  /** As written, with a density-linear lookup, the source computes
      ρ · Σ w² · (μ/ρ) rather than ρ · Σ w · (μ/ρ). */
  lemma {:induction false} MixtureAsWrittenSquaresFractions(weightFractions: seq<Entry>, e: real, density: real,
                                                            lookup: Lookup, massAtt: (string, real) -> real)
    requires DensityLinear(lookup, massAtt)
    ensures MixtureAt(weightFractions, e, density, lookup) == density * SquareWeighted(weightFractions, e, massAtt)
  {
    if weightFractions != [] {
      var init, last := weightFractions[..|weightFractions| - 1], weightFractions[|weightFractions| - 1];
      MixtureAsWrittenSquaresFractions(init, e, density, lookup, massAtt);
      LinearContribution(last, e, density, lookup, massAtt);
      MixtureAtLast(weightFractions, e, density, lookup);
      SquareWeightedLast(weightFractions, e, massAtt);
      SquareStep(MixtureAt(weightFractions, e, density, lookup), MixtureAt(init, e, density, lookup),
                 Contribution(last, e, density, lookup), last.value, massAtt(last.key, e), density,
                 SquareWeighted(weightFractions, e, massAtt), SquareWeighted(init, e, massAtt));
    }
  }

  /** With a density-linear lookup, a component adds w · (ρ·w·m). */
  lemma LinearContribution(component: Entry, e: real, density: real, lookup: Lookup, massAtt: (string, real) -> real)
    requires DensityLinear(lookup, massAtt)
    ensures Contribution(component, e, density, lookup)
         == component.value * (density * component.value * massAtt(component.key, e))
  {
    assert lookup(component.key, e, density * component.value)
        == density * component.value * massAtt(component.key, e);
  }

  /** The source's rule, unfolded at the last component. */
  lemma MixtureAtLast(weightFractions: seq<Entry>, e: real, density: real, lookup: Lookup)
    requires weightFractions != []
    ensures MixtureAt(weightFractions, e, density, lookup)
         == MixtureAt(weightFractions[..|weightFractions| - 1], e, density, lookup)
            + Contribution(weightFractions[|weightFractions| - 1], e, density, lookup)
  {
  }

  /** Σ w²·m, unfolded at the last component. */
  lemma SquareWeightedLast(weightFractions: seq<Entry>, e: real, massAtt: (string, real) -> real)
    requires weightFractions != []
    ensures SquareWeighted(weightFractions, e, massAtt)
         == SquareWeighted(weightFractions[..|weightFractions| - 1], e, massAtt)
            + weightFractions[|weightFractions| - 1].value * weightFractions[|weightFractions| - 1].value
              * massAtt(weightFractions[|weightFractions| - 1].key, e)
  {
  }

  /** One more component in the identity above: when the component adds
      w·(ρ·w·m), ρ·S becomes ρ times S + w²·m. */
  lemma SquareStep(total: real, before: real, contribution: real, w: real, m: real, density: real,
                   squaresAll: real, squares: real)
    requires total == before + contribution
    requires squaresAll == squares + w * w * m
    requires contribution == w * (density * w * m)
    requires before == density * squares
    ensures total == density * squaresAll
  {
    assert contribution == density * (w * w * m);
    assert density * squaresAll == density * squares + density * (w * w * m);
  }

  /** The corrected rule is the additivity rule ρ · Σ w · (μ/ρ). */
  lemma {:induction false} PartialDensityMixtureIsAdditive(weightFractions: seq<Entry>, e: real, density: real,
                                                           lookup: Lookup, massAtt: (string, real) -> real)
    requires DensityLinear(lookup, massAtt)
    ensures PartialDensityMixtureAt(weightFractions, e, density, lookup)
         == density * MassWeighted(weightFractions, e, massAtt)
  {
    if weightFractions != [] {
      var n := |weightFractions| - 1;
      var last := weightFractions[n];
      PartialDensityMixtureIsAdditive(weightFractions[..n], e, density, lookup, massAtt);
      assert lookup(last.key, e, density * last.value) == density * (last.value * massAtt(last.key, e));
    }
  }

  /** The corrected rule agrees with the source's on a single component of
      weight fraction 1, for any lookup. */
  lemma PartialDensityMixtureSingle(name: string, e: real, density: real, lookup: Lookup)
    ensures PartialDensityMixtureAt([Entry(name, 1.0)], e, density, lookup)
         == MixtureAt([Entry(name, 1.0)], e, density, lookup)
         == lookup(name, e, density)
  {
    assert [Entry(name, 1.0)][..0] == [];
  }

  /** Two components, half the mass each, whose mass attenuation coefficient
      is 1 cm^2/g at every energy: the mixture has mass attenuation
      coefficient 1 as well, so its linear coefficient should be ρ, but the
      source's rule gives ρ/2. */
  lemma MixtureDoubleCountsFraction(density: real)
    requires density > 0.0
    ensures var halves := [Entry("Fe", 0.5), Entry("Ni", 0.5)];
      var lookup := (name: string, e: real, d: real) => d;
      && PartialDensityMixtureAt(halves, 10000.0, density, lookup) == density
      && MixtureAt(halves, 10000.0, density, lookup) == density / 2.0
      && MixtureAt(halves, 10000.0, density, lookup) != PartialDensityMixtureAt(halves, 10000.0, density, lookup)
  {
    var halves := [Entry("Fe", 0.5), Entry("Ni", 0.5)];
    var lookup := (name: string, e: real, d: real) => d;
    var massAtt := (name: string, e: real) => 1.0;
    assert halves[..1] == [Entry("Fe", 0.5)] && halves[..1][..0] == [];
    MixtureAsWrittenSquaresFractions(halves, 10000.0, density, lookup, massAtt);
    PartialDensityMixtureIsAdditive(halves, 10000.0, density, lookup, massAtt);
    assert SquareWeighted(halves, 10000.0, massAtt) == 0.5;
    assert MassWeighted(halves, 10000.0, massAtt) == 1.0;
  }
}
