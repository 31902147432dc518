/** Display form of a component name for titles and listings. The source
    substitutes with the raw pattern `(\\d+)`, which is a regular expression
    for ONE BACKSLASH FOLLOWED BY ONE OR MORE LETTERS d, not for a run of
    digits; every match is wrapped as `_{match}`. Both that substitution and
    the digit-subscripting one the comment beside it describes are modelled. */
module ComponentName {

  /** The number of leading characters of `s` that satisfy `p`. */
  function LeadingRun(s: string, p: char -> bool): (n: nat)
    ensures n <= |s|
    ensures forall i :: 0 <= i < n ==> p(s[i])
    ensures n < |s| ==> !p(s[n])
  {
    if s == [] || !p(s[0]) then 0 else 1 + LeadingRun(s[1..], p)
  }

  predicate IsLetterD(c: char) { c == 'd' }

  predicate IsDigit(c: char) { '0' <= c <= '9' }

  /** The substitution as written: scanning left to right, each backslash
      followed by a maximal run of 'd's becomes `_{` + that text + `}`. It only
      adds markers, so erasing them gives back a name without marker
      characters of its own, and a name without a backslash comes back
      unchanged. */
  function FormatComponentName(comp: string): (r: string)
    ensures NoMarkerChars(comp) ==> RemoveMarkers(r) == comp
    ensures NoBackslash(comp) ==> r == comp
    decreases |comp|
  {
    if comp == [] then ""
    else if comp[0] == '\\' && |comp| > 1 && comp[1] == 'd' then
      var n := 1 + LeadingRun(comp[1..], IsLetterD);
      var rest := FormatComponentName(comp[n..]);
      WrappedBranch(comp, n, rest);
      "_{" + comp[..n] + "}" + rest
    else
      var rest := FormatComponentName(comp[1..]);
      PlainBranch(comp, rest);
      [comp[0]] + rest
  }

  predicate NoBackslash(s: string)
  {
    forall i :: 0 <= i < |s| ==> s[i] != '\\'
  }

  /** The evidently intended substitution: each maximal run of decimal digits
      becomes `_{` + digits + `}`. It only adds markers, so erasing them gives
      back a name without marker characters of its own, and a name without
      digits comes back unchanged. */
  function SubscriptDigits(comp: string): (r: string)
    ensures NoMarkerChars(comp) ==> RemoveMarkers(r) == comp
    ensures NoDigits(comp) ==> r == comp
    decreases |comp|
  {
    if comp == [] then ""
    else if IsDigit(comp[0]) then
      var n := LeadingRun(comp, IsDigit);
      var rest := SubscriptDigits(comp[n..]);
      WrappedBranch(comp, n, rest);
      "_{" + comp[..n] + "}" + rest
    else
      var rest := SubscriptDigits(comp[1..]);
      PlainBranch(comp, rest);
      [comp[0]] + rest
  }

  predicate NoDigits(s: string)
  {
    forall i :: 0 <= i < |s| ==> !IsDigit(s[i])
  }

  /** Erases the subscript markers `_{` and `}`. */
  function RemoveMarkers(s: string): string
    decreases |s|
  {
    if s == [] then ""
    else if |s| >= 2 && s[0] == '_' && s[1] == '{' then RemoveMarkers(s[2..])
    else if s[0] == '}' then RemoveMarkers(s[1..])
    else [s[0]] + RemoveMarkers(s[1..])
  }

  predicate IsMarkerChar(c: char) { c == '_' || c == '{' || c == '}' }

  predicate NoMarkerChars(s: string)
  {
    forall i :: 0 <= i < |s| ==> !IsMarkerChar(s[i])
  }

  /** Characters that are not markers pass through the eraser unchanged. */
  lemma {:induction false} RemoveMarkersPrefix(p: string, t: string)
    ensures NoMarkerChars(p) ==> RemoveMarkers(p + t) == p + RemoveMarkers(t)
  {
    if p != [] && NoMarkerChars(p) {
      assert (p + t)[1..] == p[1..] + t;
      RemoveMarkersPrefix(p[1..], t);
    } else if p == [] {
      assert p + t == t;
    }
  }

  /** Both halves of a name are without marker characters, backslashes or
      digits when the name is. */
  lemma NoMarkerSplit(s: string, n: nat)
    requires n <= |s|
    ensures NoMarkerChars(s) ==> NoMarkerChars(s[..n]) && NoMarkerChars(s[n..])
    ensures NoBackslash(s) ==> NoBackslash(s[n..])
    ensures NoDigits(s) ==> NoDigits(s[n..])
  {
    assert forall i :: 0 <= i < |s| - n ==> s[n..][i] == s[n + i];
  }

  /** One wrapped run: the markers come off again. */
  lemma WrappedRun(run: string, rest: string)
    ensures NoMarkerChars(run) ==> RemoveMarkers("_{" + run + "}" + rest) == run + RemoveMarkers(rest)
  {
    var s := "_{" + run + "}" + rest;
    assert s[2..] == run + ("}" + rest);
    RemoveMarkersPrefix(run, "}" + rest);
    assert ("}" + rest)[1..] == rest;
  }

  /** The step of both substitutions that wraps the first `n` characters:
      the tail keeps the name's freedom from marker characters, and erasing
      the markers gives back the name when it gives back the tail. */
  lemma WrappedBranch(comp: string, n: nat, rest: string)
    requires n <= |comp|
    ensures NoMarkerChars(comp) ==> NoMarkerChars(comp[n..])
    ensures NoMarkerChars(comp) && RemoveMarkers(rest) == comp[n..] ==> RemoveMarkers("_{" + comp[..n] + "}" + rest) == comp
  {
    NoMarkerSplit(comp, n);
    WrappedRun(comp[..n], rest);
    assert comp[..n] + comp[n..] == comp;
  }

  /** The step of both substitutions that copies the first character. */
  lemma PlainBranch(comp: string, rest: string)
    requires |comp| > 0
    ensures NoMarkerChars(comp) ==> NoMarkerChars(comp[1..])
    ensures NoBackslash(comp) ==> NoBackslash(comp[1..])
    ensures NoDigits(comp) ==> NoDigits(comp[1..])
    ensures NoMarkerChars(comp) && RemoveMarkers(rest) == comp[1..] ==> RemoveMarkers([comp[0]] + rest) == comp
    ensures rest == comp[1..] ==> [comp[0]] + rest == comp
  {
    NoMarkerSplit(comp, 1);
    RemoveMarkersPrefix([comp[0]], rest);
    assert [comp[0]] + comp[1..] == comp;
  }

  // ---------------------------------------------------------------------
  // The intended substitution, run by run.

  predicate AllDigits(s: string)
  {
    forall i :: 0 <= i < |s| ==> IsDigit(s[i])
  }

  /** A run of digits is where it stops: the leading run is determined by
      where the first character outside the class sits. */
  lemma LeadingRunIs(s: string, p: char -> bool, n: nat)
    requires n <= |s|
    requires forall i :: 0 <= i < n ==> p(s[i])
    requires n < |s| ==> !p(s[n])
    ensures LeadingRun(s, p) == n
  {
  }

  /** A non-empty run of digits alone is wrapped whole. */
  lemma SubscriptDigitsOfRun(d: string)
    requires |d| > 0 && AllDigits(d)
    ensures SubscriptDigits(d) == "_{" + d + "}"
  {
    LeadingRunIs(d, IsDigit, |d|);
    assert d[..|d|] == d && d[|d|..] == [];
  }

  /** Where no digit run crosses the boundary (p ends in a non-digit, or t
      starts with one, or either is empty), the substitution works on the
      two halves separately. */
  lemma {:induction false} SubscriptDigitsConcat(p: string, t: string)
    requires p == [] || t == [] || !IsDigit(p[|p| - 1]) || !IsDigit(t[0])
    ensures SubscriptDigits(p + t) == SubscriptDigits(p) + SubscriptDigits(t)
    decreases |p|
  {
    if p == [] {
      assert p + t == t;
    } else if t == [] {
      assert p + t == p;
    } else if !IsDigit(p[0]) {
      if |p| > 1 {
        assert p[1..][|p| - 2] == p[|p| - 1];
      }
      SubscriptDigitsConcat(p[1..], t);
      ConcatAfterNonDigit(p, t);
    } else {
      var m := LeadingRun(p, IsDigit);
      if m == |p| {
        assert IsDigit(p[|p| - 1]);
      } else {
        assert p[m..][|p[m..]| - 1] == p[|p| - 1];
      }
      SubscriptDigitsConcat(p[m..], t);
      ConcatAfterRun(p, t, m);
    }
  }

  /** The step of the concatenation lemma for a name that starts with a
      non-digit. */
  lemma ConcatAfterNonDigit(p: string, t: string)
    requires p != [] && !IsDigit(p[0])
    requires SubscriptDigits(p[1..] + t) == SubscriptDigits(p[1..]) + SubscriptDigits(t)
    ensures SubscriptDigits(p + t) == SubscriptDigits(p) + SubscriptDigits(t)
  {
    FirstOfConcat(p, t);
    assert SubscriptDigits(p + t) == [p[0]] + SubscriptDigits(p[1..] + t);
    assert SubscriptDigits(p) == [p[0]] + SubscriptDigits(p[1..]);
    Associative([p[0]], SubscriptDigits(p[1..]), SubscriptDigits(t));
  }

  lemma FirstOfConcat(p: string, t: string)
    requires p != []
    ensures (p + t)[0] == p[0] && (p + t)[1..] == p[1..] + t
  {
  }

  lemma Associative(a: string, b: string, c: string)
    ensures a + (b + c) == (a + b) + c
  {
  }

  /** The step of the concatenation lemma for a name that starts with a run
      of m digits that ends inside it or at a non-digit of t. */
  lemma ConcatAfterRun(p: string, t: string, m: nat)
    requires t != [] && 0 < m <= |p| && m == LeadingRun(p, IsDigit)
    requires m == |p| ==> !IsDigit(t[0])
    requires SubscriptDigits(p[m..] + t) == SubscriptDigits(p[m..]) + SubscriptDigits(t)
    ensures SubscriptDigits(p + t) == SubscriptDigits(p) + SubscriptDigits(t)
  {
    RunPrefix(p, t, m);
    var w := "_{" + p[..m] + "}";
    assert SubscriptDigits(p + t) == w + SubscriptDigits(p[m..] + t);
    assert SubscriptDigits(p) == w + SubscriptDigits(p[m..]);
    Associative(w, SubscriptDigits(p[m..]), SubscriptDigits(t));
  }

  /** The leading digit run of p + t is that of p when it ends inside p or
      at a non-digit of t. */
  lemma RunPrefix(p: string, t: string, m: nat)
    requires 0 < m <= |p| && m == LeadingRun(p, IsDigit)
    requires m == |p| ==> t == [] || !IsDigit(t[0])
    ensures IsDigit((p + t)[0]) && LeadingRun(p + t, IsDigit) == m
    ensures (p + t)[..m] == p[..m] && (p + t)[m..] == p[m..] + t
  {
    forall i | 0 <= i < m ensures IsDigit((p + t)[i]) {
      assert (p + t)[i] == p[i];
    }
    if m < |p| {
      assert (p + t)[m] == p[m];
    } else if t != [] {
      assert (p + t)[m] == t[0];
    }
    LeadingRunIs(p + t, IsDigit, m);
  }

  /** A maximal run of digits between two stretches of the name is wrapped
      as `_{run}` and nothing else changes: in particular no marker opens
      without closing, and no non-digit is wrapped. */
  lemma SubscriptDigitsSplit(p: string, d: string, q: string)
    requires |d| > 0 && AllDigits(d)
    requires p == [] || !IsDigit(p[|p| - 1])
    requires q == [] || !IsDigit(q[0])
    ensures SubscriptDigits(p + d + q) == SubscriptDigits(p) + ("_{" + d + "}") + SubscriptDigits(q)
  {
    Associative(p, d, q);
    SubscriptDigitsOfRun(d);
    SubscriptDigitsConcat(d, q);
    SubscriptDigitsConcat(p, d + q);
    Associative(SubscriptDigits(p), "_{" + d + "}", SubscriptDigits(q));
  }

  // ---------------------------------------------------------------------
  // The substitution as written, match by match.

  predicate AllLetterD(s: string)
  {
    forall i :: 0 <= i < |s| ==> s[i] == 'd'
  }

  /** Text without a backslash holds no match and is copied as it is. */
  lemma {:induction false} FormatComponentNamePrefix(p: string, t: string)
    requires NoBackslash(p)
    ensures FormatComponentName(p + t) == p + FormatComponentName(t)
    decreases |p|
  {
    if p == [] {
      assert p + t == t;
    } else {
      FirstOfConcat(p, t);
      NoMarkerSplit(p, 1);
      assert FormatComponentName(p + t) == [p[0]] + FormatComponentName(p[1..] + t);
      FormatComponentNamePrefix(p[1..], t);
      Associative([p[0]], p[1..], FormatComponentName(t));
      assert [p[0]] + p[1..] == p;
    }
  }

  /** A backslash followed by a maximal run of 'd's is one match: it is
      wrapped whole, backslash included, and the rest is substituted on. */
  lemma FormatComponentNameOfMatch(ds: string, q: string)
    requires |ds| > 0 && AllLetterD(ds)
    requires q == [] || q[0] != 'd'
    ensures FormatComponentName("\\" + ds + q) == "_{\\" + ds + "}" + FormatComponentName(q)
  {
    var comp := "\\" + ds + q;
    assert comp[1..] == ds + q;
    if q != [] {
      assert (ds + q)[|ds|] == q[0];
    }
    LeadingRunIs(ds + q, IsLetterD, |ds|);
    var n := 1 + |ds|;
    assert comp[..n] == "\\" + ds && comp[n..] == q;
    assert "_{" + comp[..n] + "}" == "_{\\" + ds + "}";
  }

  /** A backslash that no 'd' follows is no match: it is copied unchanged
      and the substitution goes on after it. */
  lemma FormatComponentNameLoneBackslash(q: string)
    requires q == [] || q[0] != 'd'
    ensures FormatComponentName("\\" + q) == "\\" + FormatComponentName(q)
  {
    var comp := "\\" + q;
    assert comp[1..] == q;
  }

  /** As written, a backslash-'d' match between text p without backslashes
      and a rest q that does not continue the run becomes `_{` + match + `}`,
      and p is copied unchanged. */
  lemma FormatComponentNameSplit(p: string, ds: string, q: string)
    requires NoBackslash(p)
    requires |ds| > 0 && AllLetterD(ds)
    requires q == [] || q[0] != 'd'
    ensures FormatComponentName(p + "\\" + ds + q) == p + "_{\\" + ds + "}" + FormatComponentName(q)
  {
    var found, wrapped := "\\" + ds, "_{\\" + ds + "}";
    calc {
      FormatComponentName(p + "\\" + ds + q);
      { Associative(p, "\\", ds); }
      FormatComponentName(p + found + q);
      { Associative(p, found, q); }
      FormatComponentName(p + (found + q));
      { FormatComponentNamePrefix(p, found + q); }
      p + FormatComponentName(found + q);
      { FormatComponentNameOfMatch(ds, q); }
      p + (wrapped + FormatComponentName(q));
      { Associative(p, wrapped, FormatComponentName(q)); }
      p + wrapped + FormatComponentName(q);
    }
  }

  /** Water: the digit is left alone as written, and subscripted as intended. */
  lemma WaterIsNotSubscripted()
    ensures FormatComponentName("H2O") == "H2O"
    ensures SubscriptDigits("H2O") == "H_{2}O"
  {
    assert NoBackslash("H2O");
    OneDigitBetween('H', '2', 'O');
  }

  /** A single digit between two other characters is wrapped on its own. */
  lemma OneDigitBetween(a: char, d: char, b: char)
    requires !IsDigit(a) && IsDigit(d) && !IsDigit(b)
    ensures SubscriptDigits([a, d, b]) == [a] + "_{" + [d] + "}" + [b]
  {
    assert NoDigits([a]) && NoDigits([b]);
    assert [a] + [d] + [b] == [a, d, b];
    SubscriptDigitsSplit([a], [d], [b]);
  }
}
