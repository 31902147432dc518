/** One run of the calculator, from a sample specification to the values the
    presentation layer receives: weight fractions, the mixture coefficient on
    the grid, the Beer-Lambert exponents and the characteristic depth. */
module Pipeline {
  import opened Composition
  import WeightFractions
  import Mixture
  import Depth

  /** What a run hands to the presentation layer. */
  datatype Report = Report(
    weightFractions: Mapping,
    mu: seq<real>,
    exponents: seq<real>,
    depth: Depth.Depth)

  /** What a run derives from the mixture coefficient on the grid: the
      Beer-Lambert exponents and the characteristic depth. The exponents
      cover the grid and every exponent times 10000 is -t·µ. The depth is
      infinite exactly when the interpolated coefficient is zero; otherwise
      it is 10 mm divided by it, and 1000 times the mm figure in µm. */
  function Analyse(weightFractions: Mapping, mu: seq<real>, energy: seq<real>, tUm: real, target: real): (rep: Report)
    requires |energy| == |mu| > 0 && Depth.StrictlyIncreasing(energy)
    ensures rep.weightFractions == weightFractions && rep.mu == mu
    ensures |rep.exponents| == |energy|
    ensures forall i :: 0 <= i < |energy| ==> rep.exponents[i] * 10000.0 == -(tUm * rep.mu[i])
    ensures rep.depth.Infinite? <==> Depth.Interp(target, energy, rep.mu) == 0.0
    ensures rep.depth.Finite? ==> rep.depth.mm == 10.0 / Depth.Interp(target, energy, rep.mu)
    ensures rep.depth.Finite? ==> rep.depth.um == 1000.0 * rep.depth.mm
  {
    var exponents := Depth.TransmissionExponents(tUm, mu);
    var depth := Depth.OneOverEDepth(mu, energy, target);
    Report(weightFractions, mu, exponents, depth)
  }

  /** The specification of a run: a normaliser error ends it; a sample
      without components gets through the normaliser but ends at the plot
      title, which names its first component; otherwise the weight fractions,
      which keep the components and sum to 1, are analysed. */
  function Run(fractions: Mapping, molarMasses: map<string, real>, fractionType: string, density: real,
               tUm: real, energy: seq<real>, target: real, lookup: Mixture.Lookup): (r: Result<Report>)
    requires |energy| > 0 && Depth.StrictlyIncreasing(energy)
    ensures r.Success? <==> WeightFractions.CalculateWeightFractions(fractions, molarMasses, fractionType).Success?
                            && |fractions| > 0
    ensures r == Failure(EmptySample)
        <==> |fractions| == 0 && (fractionType == WeightFractions.Mol || fractionType == WeightFractions.Wt)
    ensures var w := WeightFractions.CalculateWeightFractions(fractions, molarMasses, fractionType);
      && (w.Failure? ==> r == Failure(w.error))
      && (r.Success? ==> r.value.weightFractions == w.value)
    ensures r.Success? ==>
      && Keys(r.value.weightFractions) == Keys(fractions)
      && Sum(Values(r.value.weightFractions)) == 1.0
      && r.value == Analyse(r.value.weightFractions, Mixture.MuProfile(r.value.weightFractions, energy, density, lookup),
                            energy, tUm, target)
  {
    var w := WeightFractions.CalculateWeightFractions(fractions, molarMasses, fractionType);
    if w.Failure? then
      assert !w.error.EmptySample?;
      Failure(w.error)
    else if |fractions| == 0 then Failure(EmptySample)
    else Success(Analyse(w.value, Mixture.MuProfile(w.value, energy, density, lookup), energy, tUm, target))
  }

  /** run_with_inputs without the plot and the console output; the energy
      grid is given instead of generated. */
  method RunWithInputs(fractions: Mapping, molarMasses: map<string, real>, fractionType: string, density: real,
                       tUm: real, energy: seq<real>, target: real, lookup: Mixture.Lookup)
    returns (r: Result<Report>)
    requires |energy| > 0 && Depth.StrictlyIncreasing(energy)
    ensures r == Run(fractions, molarMasses, fractionType, density, tUm, energy, target, lookup)
  {
    var weightFractions := WeightFractions.CalculateWeightFractions(fractions, molarMasses, fractionType);
    if weightFractions.Failure? {
      return Failure(weightFractions.error);
    }
    var mu := Mixture.CalculateTotalMu(weightFractions.value, energy, density, lookup);
    var profile := mu[..];
    var exponents := Depth.TransmissionExponents(tUm, profile);
    // The plot title of a single-component sample names the first
    // component; a sample without components has none.
    if |fractions| == 0 {
      return Failure(EmptySample);
    }
    var depth := Depth.OneOverEDepth(profile, energy, target);
    r := Success(Report(weightFractions.value, profile, exponents, depth));
  }

  /** A single component with a non-zero percentage (and, for 'mol', a known
      non-zero molar mass): the run succeeds, the weight fraction is exactly
      1 and the mixture coefficient is the component's own coefficient at the
      bulk density at every energy. */
  lemma SingleComponentRun(name: string, percent: real, molarMasses: map<string, real>, fractionType: string,
                           density: real, tUm: real, energy: seq<real>, target: real, lookup: Mixture.Lookup)
    requires |energy| > 0 && Depth.StrictlyIncreasing(energy)
    requires percent != 0.0
    requires fractionType == WeightFractions.Mol || fractionType == WeightFractions.Wt
    requires fractionType == WeightFractions.Mol ==> name in molarMasses && molarMasses[name] != 0.0
    ensures var r := Run([Entry(name, percent)], molarMasses, fractionType, density, tUm, energy, target, lookup);
      && r.Success?
      && r.value.weightFractions == [Entry(name, 1.0)]
      && |r.value.mu| == |energy|
      && forall i :: 0 <= i < |energy| ==> r.value.mu[i] == lookup(name, energy[i], density)
  {
    var one: Mapping := [Entry(name, 1.0)];
    WeightFractions.SingleComponent(name, percent, molarMasses, fractionType, one);
    Mixture.SingleComponentProfile(name, energy, density, lookup);
  }
}
