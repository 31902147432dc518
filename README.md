# X-ray attenuation calculator, multi-component core

This is a model of the computational core of a command-line X-ray
attenuation calculator. The user describes a sample as a set of components
(chemical formulas). Each component has a mole or weight percentage and a
molar mass. The user also gives a bulk density, a thickness in µm and an
energy range. The calculator:

- normalises the percentages into weight fractions;
- combines each component's linear attenuation coefficient into a mixture
  coefficient µ(E) on the energy grid;
- forms the Beer-Lambert transmission exp(-(t/10000)·µ);
- reports the 1/e attenuation depth at a target energy, interpolating µ
  linearly and printing it in mm (10/µ) and in µm.

It also builds English ordinals ("1st", "2nd", ...) for the input prompts.
It formats component names with subscript markers for plot titles.

Modules:

- `Composition`: ordered component mappings, the left-to-right `Sum`, and
  the errors.
- `WeightFractions`: the normaliser.
- `Mixture`: the array-accumulating evaluator of µ(E), and the mixing rule.
- `Depth`: NumPy-style linear interpolation, the thickness unit conversion,
  the transmission exponent and the 1/e depth.
- `Ordinal`: the ordinal formatter.
- `ComponentName`: the component-name formatter.
- `Pipeline`: one run from inputs to the reported values.

Decisions in the model:

- Python's insertion-ordered dicts become sequences of key/value entries with
  distinct keys (`Composition.Mapping`).
- Floats become exact reals.
- A division by a zero float total raises ZeroDivisionError. This becomes
  the error `ZeroTotalWeight`.
- A key missing from the molar masses raises KeyError. This becomes
  `MissingMolarMass`, and the model reports the first such component in
  insertion order.
- NumPy's division by a zero interpolated coefficient yields infinity, not
  an exception. This becomes `Depth.Infinite`.
- A sample without components passes the normaliser (an empty dict has no
  total to divide by). The plot title then takes the first component name,
  which raises IndexError before the depth is printed. This becomes the
  error `EmptySample`.

## Model

| member | source | states |
|---|---|---|
| Composition.SumScale | X-ray_attenuation_calculator_multi_component.py:11 | scaling every element by c scales the left-to-right sum by c |
| Composition.SumNonNegative | X-ray_attenuation_calculator_multi_component.py:11 | a sum of non-negative values is non-negative |
| Composition.SumBoundsElement | X-ray_attenuation_calculator_multi_component.py:11 | every element of a non-negative sequence lies between 0 and the sum |
| WeightFractions.Percent | X-ray_attenuation_calculator_multi_component.py:9 | keys and order are kept, and every entry times 100 is its component's percentage |
| WeightFractions.FirstMissing | X-ray_attenuation_calculator_multi_component.py:10 | the index of the first component without a molar mass: every earlier component has one, and the one at the index has none |
| WeightFractions.UnnormalizedWeights | X-ray_attenuation_calculator_multi_component.py:10 | fails exactly when some component has no molar mass, and then with MissingMolarMass; otherwise every component keeps its name and gets its mole fraction times its molar mass |
| WeightFractions.Normalize | X-ray_attenuation_calculator_multi_component.py:11-12 | fails exactly when the mapping is non-empty and its values sum to 0, with ZeroTotalWeight; otherwise keys are kept, every new value times the total is the old value, and a non-empty result sums to 1 |
| WeightFractions.CalculateWeightFractions | X-ray_attenuation_calculator_multi_component.py:7-19 | InvalidFractionType exactly when the tag is neither 'mol' nor 'wt'; every failure is one of the three errors; a success keeps the component names in order and, for a non-empty sample, sums to 1; an empty sample gives an empty result |
| WeightFractions.MolMissingMolarMass | X-ray_attenuation_calculator_multi_component.py:10 | for 'mol', a MissingMolarMass failure occurs if and only if some component lacks a molar mass, and the key it names is the first such component |
| WeightFractions.MolBranch | X-ray_attenuation_calculator_multi_component.py:8-12 | for 'mol' with every molar mass known, each fraction is (p_k/100·M_k) / Σ_j(p_j/100·M_j), and the run fails (ZeroTotalWeight) if and only if that total is 0 on a non-empty mapping |
| WeightFractions.WtBranch | X-ray_attenuation_calculator_multi_component.py:13-16 | for 'wt', each fraction is (p_k/100) / Σ_j(p_j/100), whatever the molar masses are, and the run fails (ZeroTotalWeight) if and only if that total is 0 on a non-empty mapping |
| WeightFractions.MolTotalIsSum | X-ray_attenuation_calculator_multi_component.py:10-11 | the built-in left-to-right sum of the unnormalised weights equals the component-by-component reference total |
| WeightFractions.WtTotalIsSum | X-ray_attenuation_calculator_multi_component.py:14-15 | the built-in sum of the percentages over 100 equals the component-by-component reference total |
| WeightFractions.NormalizeScaleInvariant | X-ray_attenuation_calculator_multi_component.py:11-12 | scaling all weights by a non-zero constant does not change the normalised result, errors included |
| WeightFractions.ScaleInvariance | X-ray_attenuation_calculator_multi_component.py:7-19 | scaling all percentages by a non-zero constant does not change the result of either branch, errors included |
| WeightFractions.FirstMissingSameKeys | X-ray_attenuation_calculator_multi_component.py:10 | the first missing molar mass depends only on the component names |
| WeightFractions.SingleComponent | X-ray_attenuation_calculator_multi_component.py:7-19 | a single component with a non-zero percentage (and, for 'mol', a known non-zero molar mass) gets weight fraction exactly 1 |
| WeightFractions.MolAndWtAgree | X-ray_attenuation_calculator_multi_component.py:8-16 | mole percentages, and weight percentages proportional to mole percentage times molar mass, give identical weight fractions |
| WeightFractions.FractionsInUnitInterval | X-ray_attenuation_calculator_multi_component.py:7-19 | with non-negative percentages and molar masses, every returned weight fraction lies in [0, 1] |
| WeightFractions.NormalizedInUnitInterval | X-ray_attenuation_calculator_multi_component.py:11-12 | normalising non-negative weights gives values in [0, 1] |
| Mixture.Contribution | X-ray_attenuation_calculator_multi_component.py:30 | one component's share w · lookup(comp, E, ρ·w); a component of weight 0 adds nothing, whatever the lookup gives |
| Mixture.MuProfile | X-ray_attenuation_calculator_multi_component.py:27-31 | one mixture coefficient per energy of the grid |
| Mixture.AddComponent | X-ray_attenuation_calculator_multi_component.py:30 | the in-place vector addition: every element of the array grows by exactly that component's contribution at its energy, and nothing else changes |
| Mixture.CalculateTotalMu | X-ray_attenuation_calculator_multi_component.py:27-31 | returns a fresh array whose contents are, at every energy, the sum over the components in insertion order of w · lookup(component, E, ρ·w) |
| Mixture.MixtureStep | X-ray_attenuation_calculator_multi_component.py:29-30 | accumulating one more component adds exactly its weighted coefficient |
| Mixture.MixtureAppend | X-ray_attenuation_calculator_multi_component.py:29-30 | the accumulated coefficient of a concatenation of components is the sum of the coefficients of the parts |
| Mixture.MixtureOrderIndependent | X-ray_attenuation_calculator_multi_component.py:29-30 | exchanging two blocks of components does not change the accumulated coefficient |
| Mixture.MixturePermutation | X-ray_attenuation_calculator_multi_component.py:29-30 | the order in which the components are accumulated does not matter: any rearrangement of the same components gives the same coefficient |
| Mixture.EmptyMixtureProfile | X-ray_attenuation_calculator_multi_component.py:28 | with no components the profile is zero at every energy |
| Mixture.SingleComponentProfile | X-ray_attenuation_calculator_multi_component.py:27-31 | a single component of weight fraction 1 has, at every energy, the coefficient the lookup gives for it at the bulk density |
| Mixture.MixtureAsWrittenSquaresFractions | X-ray_attenuation_calculator_multi_component.py:30 | with a density-linear lookup, the rule as written computes ρ · Σ w² · (µ/ρ) |
| Mixture.PartialDensityMixtureIsAdditive | X-ray_attenuation_calculator_multi_component.py:30 | the corrected rule, Σ lookup(component, E, ρ·w), is the additivity rule ρ · Σ w · (µ/ρ) |
| Mixture.PartialDensityMixtureSingle | X-ray_attenuation_calculator_multi_component.py:30 | for a single component of fraction 1, the corrected rule and the rule as written agree |
| Mixture.MixtureDoubleCountsFraction | X-ray_attenuation_calculator_multi_component.py:30 | two halves with mass attenuation 1 get ρ from the corrected rule but ρ/2 as written |
| Depth.Interp | X-ray_attenuation_calculator_multi_component.py:67 | np.interp with its default clamping; the interpolant lies between the smallest and the largest stored value |
| Depth.MinOf | X-ray_attenuation_calculator_multi_component.py:67 | a lower bound of every stored value |
| Depth.MaxOf | X-ray_attenuation_calculator_multi_component.py:67 | an upper bound of every stored value |
| Depth.InterpAtGridPoint | X-ray_attenuation_calculator_multi_component.py:67 | the interpolant at a grid energy is the stored coefficient |
| Depth.InterpClamped | X-ray_attenuation_calculator_multi_component.py:67 | left of the grid the interpolant is the first value, right of it the last |
| Depth.InterpOnSegment | X-ray_attenuation_calculator_multi_component.py:67 | between two neighbouring grid energies the interpolant is the straight line through their points |
| Depth.InterpWithinBounds | X-ray_attenuation_calculator_multi_component.py:67 | the interpolant never leaves a range that holds all stored values |
| Depth.ThicknessCm | X-ray_attenuation_calculator_multi_component.py:80 | the thickness in cm times 10000 is the thickness in µm |
| Depth.TransmissionExponents | X-ray_attenuation_calculator_multi_component.py:80 | one exponent per energy; each exponent times 10000 is minus the thickness in µm times µ at that energy |
| Depth.ExponentNonPositive | X-ray_attenuation_calculator_multi_component.py:80 | for a non-negative thickness and coefficient the exponent is at most 0 |
| Depth.ExponentDecreasesWithThickness | X-ray_attenuation_calculator_multi_component.py:80 | where µ > 0, a thicker sample has a strictly smaller exponent |
| Depth.Transmission | X-ray_attenuation_calculator_multi_component.py:80 | one transmission value per energy of the grid |
| Depth.TransmissionInUnitInterval | X-ray_attenuation_calculator_multi_component.py:80 | with any positive increasing exponential mapping 0 to 1, the transmission lies in (0, 1] for non-negative thickness and coefficient |
| Depth.TransmissionDecreasesWithThickness | X-ray_attenuation_calculator_multi_component.py:80 | where µ > 0, transmission strictly decreases with thickness |
| Depth.OneOverEDepth | X-ray_attenuation_calculator_multi_component.py:66-69 | the depth is infinite exactly when the interpolated µ is 0 (NumPy's float division by zero); otherwise the depth in mm times µ is 10 and the µm figure is 1000 times the mm figure |
| Depth.DepthIsOneOverE | X-ray_attenuation_calculator_multi_component.py:66-69 | a finite depth, taken as a thickness in µm, gives the Beer-Lambert exponent exactly -1 (transmission 1/e) |
| Depth.DepthPositive | X-ray_attenuation_calculator_multi_component.py:66-68 | when µ is bounded below by a positive number on the grid, the depth is finite and positive at every target energy |
| Depth.DepthAtGridPoint | X-ray_attenuation_calculator_multi_component.py:66-69 | at a grid energy with non-zero µ, the depth is 10/µ mm and 10000/µ µm |
| Ordinal.FormatInt | X-ray_attenuation_calculator_multi_component.py:86 | the `%d` form of an integer: a '-' first exactly for negative numbers, decimal digits otherwise, no leading zero (a lone "0" only for 0), and it reads back as the integer |
| Ordinal.EveryFourth | X-ray_attenuation_calculator_multi_component.py:86 | the length of the stride-4 slice |
| Ordinal.Ordinal | X-ray_attenuation_calculator_multi_component.py:85-86 | the ordinal is the decimal form of n followed by the suffix of the English rule |
| Ordinal.SliceTrickIsSuffixRule | X-ray_attenuation_calculator_multi_component.py:86 | the index arithmetic plus the stride-4 slice of "tsnrhtdd" gives "st", "nd" or "rd" for a last digit of 1, 2 or 3 outside the teens, and "th" otherwise, for every integer |
| Ordinal.NatDigitsRoundTrip | X-ray_attenuation_calculator_multi_component.py:86 | the decimal digits of a natural number read back as that number |
| Ordinal.OrdinalSpec | X-ray_attenuation_calculator_multi_component.py:85-86 | an ordinal is two characters longer than the decimal form of n, and all but its last two characters read back as n |
| ComponentName.FormatComponentName | X-ray_attenuation_calculator_multi_component.py:22-24 | as written, the substitution only adds markers: erasing them gives back a name without marker characters of its own; a name without a backslash comes back unchanged |
| ComponentName.FormatComponentNamePrefix | X-ray_attenuation_calculator_multi_component.py:24 | as written, text without a backslash holds no match and is copied unchanged in front of the substituted rest |
| ComponentName.FormatComponentNameOfMatch | X-ray_attenuation_calculator_multi_component.py:24 | as written, a backslash followed by a maximal run of 'd's is wrapped whole, backslash included, as `_{` + match + `}`, and the substitution goes on after it |
| ComponentName.FormatComponentNameLoneBackslash | X-ray_attenuation_calculator_multi_component.py:24 | as written, a backslash that no 'd' follows is no match (the pattern needs at least one 'd'): it is copied unchanged and the substitution goes on after it |
| ComponentName.FormatComponentNameSplit | X-ray_attenuation_calculator_multi_component.py:24 | as written, p + backslash + 'd'-run + q, with no backslash in p and q not continuing the run, becomes p + `_{` + backslash + run + `}` + the substitution of q |
| ComponentName.SubscriptDigits | X-ray_attenuation_calculator_multi_component.py:23-24 | the intended substitution only adds markers: erasing them gives back a name without marker characters; a name without digits comes back unchanged |
| ComponentName.SubscriptDigitsOfRun | X-ray_attenuation_calculator_multi_component.py:23-24 | a name that is one run of digits becomes `_{` + run + `}` |
| ComponentName.SubscriptDigitsConcat | X-ray_attenuation_calculator_multi_component.py:23-24 | the intended substitution distributes over a concatenation that does not cut through a run of digits |
| ComponentName.SubscriptDigitsSplit | X-ray_attenuation_calculator_multi_component.py:23-24 | a maximal run of digits d between p and q is wrapped exactly once and closed right after its last digit: p + d + q becomes sub(p) + `_{` + d + `}` + sub(q) |
| ComponentName.WaterIsNotSubscripted | X-ray_attenuation_calculator_multi_component.py:22-24 | "H2O" comes back as "H2O" as written, and as "H_{2}O" from the intended substitution |
| Pipeline.Analyse | X-ray_attenuation_calculator_multi_component.py:66-82 | from the mixture profile: one exponent per energy, each times 10000 equal to -t·µ; the depth infinite exactly when the interpolated µ is 0, and otherwise 10 mm divided by it, with the µm figure 1000 times the mm figure |
| Pipeline.Run | X-ray_attenuation_calculator_multi_component.py:73-82 | a normaliser error ends the run with that same error; a successful run reports exactly the normaliser's weight fractions; a sample without components ends with EmptySample (the IndexError that the plot title at line 51 raises before the depth is printed); otherwise the run succeeds with weight fractions that keep the component names and sum to 1, analysed on the profile MuProfile gives them |
| Pipeline.RunWithInputs | X-ray_attenuation_calculator_multi_component.py:73-82 | the run, computing µ with the array-accumulating evaluator, gives the result the specification `Run` states |
| Pipeline.SingleComponentRun | X-ray_attenuation_calculator_multi_component.py:73-82 | a run over a single valid component succeeds, with weight fraction 1 and, at every energy, the component's own coefficient at the bulk density |

## Left out

- Plotting (`plot_transmission`, lines 34-63) is left out because it is a
  matplotlib side effect. Its interpolation of the transmission at the
  target energy would be the same `Depth.Interp`. Only its title's
  IndexError on a sample without components is kept, as `EmptySample`.
- The interactive `main` (lines 89-116) is left out: console input, its
  float parsing, and the lower-casing and trimming of the tag. The normaliser
  receives the tag as given.
- The printed output and its fixed-decimal f-string formatting (lines 70 and
  76-78) are left out.
- The external material database lookup (`material_mu` from xraydb) is a
  parameter `lookup(material, energy, density)` applied at each energy of
  the grid. This assumes the lookup works elementwise. An unknown material
  or an unsupported energy raising an exception inside it is not modelled.
- The exponential of `numpy` is a parameter of `Depth.Transmission`. Its
  properties are stated as `Depth.ExpLike`.
- `np.linspace(e_start, e_end, 201)` is left out. `Pipeline.RunWithInputs`
  receives the grid itself, non-empty and strictly increasing.
- `Depth.Interp`: NumPy's interpolation is stated for strictly increasing
  grids only. NumPy does not check that order, and its output is unspecified
  for unsorted grids.
- IEEE-754 floating point is left out: rounding, NaN, and infinities other
  than the depth's. All arithmetic is on exact reals.
- A zero total weight with mole or weight percentages raises an error, as
  Python's float division does. A zero or negative interpolated coefficient
  is not rejected: zero gives an infinite depth and a negative coefficient a
  negative depth, which is what the code computes. Rejecting either as an
  error is a design recommendation that the code does not implement.
- Python dicts cannot hold duplicate keys. Inputs are therefore typed
  `Mapping`, which has distinct keys; the result of merging duplicate input
  keys is not modelled.
- `Mixture.MixtureAt` and `Composition.Sum` carry no contract of their own:
  what they compute is stated by `Mixture.CalculateTotalMu`,
  `Mixture.MixtureStep`, `Mixture.MixtureAppend` and
  `Mixture.MixtureAsWrittenSquaresFractions`, and by the `Composition.Sum...`
  lemmas.
- The console listing of the weight fractions (lines 76-78) applies
  `format_component_name` to every name. Only the formatter itself is
  modelled.
- `Pipeline.RunWithInputs` and `Pipeline.SingleComponentRun` use the mixing
  rule as written (`Mixture.MixtureAt`). This keeps the model faithful to
  what the program computes. The corrected rule is defined and proved beside
  it.

## Findings

| source | as written | input that shows it | evidently intended | confidence | as-written member | corrected member |
|---|---|---|---|---|---|---|
| X-ray_attenuation_calculator_multi_component.py:30 | each component adds w · material_mu(comp, E, density=ρ·w). The lookup already scales with the partial density ρ·w, so the share w is counted twice: ρ·Σ w²·(µ/ρ) | two components of 50 % each whose mass attenuation coefficient is 1 cm²/g: the mixture's µ comes out as ρ/2 instead of ρ | Σ material_mu(comp, E, density=ρ·w), the additivity rule ρ·Σ w·(µ/ρ) | high, not executed | Mixture.MixtureDoubleCountsFraction | Mixture.PartialDensityMixtureIsAdditive |
| X-ray_attenuation_calculator_multi_component.py:24 | the raw pattern matches a backslash followed by one or more letters d, not a run of digits | "H2O" is returned unchanged | each run of digits wrapped as a subscript, "H_{2}O" | high, not executed | ComponentName.WaterIsNotSubscripted | ComponentName.SubscriptDigitsSplit |
