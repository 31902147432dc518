/** Shared vocabulary of the attenuation calculator: the ordered component
    mappings (Python dicts keep insertion order), the running sum that
    Python's built-in `sum` computes, and the errors the core can raise. */
module Composition {

  /** One key/value pair of an ordered mapping: a component name (a chemical
      formula) and a number attached to it (a percentage or a weight fraction). */
  datatype Entry = Entry(key: string, value: real)

  /** The dict invariant: no component name occurs twice. */
  predicate DistinctKeys(m: seq<Entry>)
  {
    forall i, j :: 0 <= i < j < |m| ==> m[i].key != m[j].key
  }

  /** An insertion-ordered dictionary from component name to a real number. */
  type Mapping = m: seq<Entry> | DistinctKeys(m) witness []

  /** The errors the core can raise. */
  datatype Error =
    | InvalidFractionType        // ValueError: the tag is neither 'mol' nor 'wt'
    | MissingMolarMass(key: string)  // KeyError: a component without a molar mass
    | ZeroTotalWeight            // ZeroDivisionError: the weights sum to zero
    | EmptySample                // IndexError: the plot title of a sample without components

  datatype Result<T> = Success(value: T) | Failure(error: Error)

  function Keys(m: seq<Entry>): (ks: seq<string>)
    ensures |ks| == |m|
    ensures forall i :: 0 <= i < |m| ==> ks[i] == m[i].key
  {
    seq(|m|, i requires 0 <= i < |m| => m[i].key)
  }

  function Values(m: seq<Entry>): (vs: seq<real>)
    ensures |vs| == |m|
    ensures forall i :: 0 <= i < |m| ==> vs[i] == m[i].value
  {
    seq(|m|, i requires 0 <= i < |m| => m[i].value)
  }

  /** Python's `sum`: 0 plus the elements, added from left to right. */
  function Sum(xs: seq<real>): real
  {
    if xs == [] then 0.0 else Sum(xs[..|xs| - 1]) + xs[|xs| - 1]
  }

  /** Multiplying every element by the same number multiplies the sum by it. */
  lemma {:induction false} SumScale(xs: seq<real>, ys: seq<real>, c: real)
    requires |xs| == |ys|
    requires forall i :: 0 <= i < |xs| ==> ys[i] == c * xs[i]
    ensures Sum(ys) == c * Sum(xs)
  {
    if xs != [] {
      SumScale(xs[..|xs| - 1], ys[..|ys| - 1], c);
    }
  }

  /** Every element of a sequence of non-negative numbers lies between 0 and
      its sum. */
  lemma {:induction false} SumBoundsElement(xs: seq<real>, k: nat)
    requires k < |xs|
    requires forall i :: 0 <= i < |xs| ==> 0.0 <= xs[i]
    ensures 0.0 <= xs[k] <= Sum(xs)
  {
    var n := |xs| - 1;
    SumNonNegative(xs[..n]);
    if k < n {
      SumBoundsElement(xs[..n], k);
    }
  }

  /** A sum of non-negative numbers is non-negative. */
  lemma {:induction false} SumNonNegative(xs: seq<real>)
    requires forall i :: 0 <= i < |xs| ==> 0.0 <= xs[i]
    ensures 0.0 <= Sum(xs)
  {
    if xs != [] {
      SumNonNegative(xs[..|xs| - 1]);
    }
  }

  /** The product of two non-negative numbers is non-negative. */
  lemma NonNegativeProduct(a: real, b: real)
    requires 0.0 <= a && 0.0 <= b
    ensures 0.0 <= a * b
  {
  }
}
