/**
 * The decision part of `check_python_support`: keep the releases that the
 * declared `requires-python` specifier admits and that are end-of-life, sort
 * them ascending in place, and, in fix mode, compute the replacement
 * specifier with `get_fixed_spec`.  Reading and writing the manifest and the
 * cache file are left to the caller: the specifier string comes in, the
 * replacement string goes out.
 */
module CheckEol {
  import opened Wrappers
  import opened Text
  import opened Versions
  import opened Specifiers
  import opened Dates
  import opened Releases

  /** `r.python_ver in package_spec and r.is_eol(use_system_date)`. */
  predicate InOverlap(r: PythonRelease, spec: SpecifierSet, useSystemDate: bool, today: Date) {
    Contains(spec, r.pythonVer) && IsEol(r, useSystemDate, today)
  }

  /** The list comprehension that builds `eol_supported`, in release-cycle order. */
  function SelectEolSupported(releases: seq<PythonRelease>, spec: SpecifierSet, useSystemDate: bool, today: Date)
    : (selected: seq<PythonRelease>)
    ensures forall r :: r in selected <==> r in releases && InOverlap(r, spec, useSystemDate, today)
    ensures forall r :: multiset(selected)[r] == if InOverlap(r, spec, useSystemDate, today) then multiset(releases)[r] else 0
  {
    if releases == [] then []
    else
      var first := releases[0];
      var rest := SelectEolSupported(releases[1..], spec, useSystemDate, today);
      assert releases == [first] + releases[1..];
      if InOverlap(first, spec, useSystemDate, today) then [first] + rest else rest
  }

  /** Adjacent releases of `s[lo..hi]` are in ascending version order. */
  predicate AscendingBetween(s: seq<PythonRelease>, lo: int, hi: int)
    requires 0 <= lo <= hi <= |s|
  {
    forall k :: lo <= k < hi - 1 ==> ReleaseLe(s[k], s[k + 1])
  }

  /** One adjacent swap of the insertion step keeps both sorted runs and the multiset. */
  lemma SwapStep(s: seq<PythonRelease>, j: int, i: int)
    requires 0 < j <= i < |s|
    requires AscendingBetween(s, 0, j) && AscendingBetween(s, j, i + 1)
    requires j < i ==> ReleaseLe(s[j - 1], s[j + 1])
    requires !ReleaseLe(s[j - 1], s[j])
    ensures var t := s[j - 1 := s[j]][j := s[j - 1]];
      && AscendingBetween(t, 0, j - 1) && AscendingBetween(t, j - 1, i + 1)
      && (0 < j - 1 < i ==> ReleaseLe(t[j - 2], t[j]))
      && multiset(t) == multiset(s)
  {
    var t := s[j - 1 := s[j]][j := s[j - 1]];
    LeTotal(s[j - 1].pythonVer, s[j].pythonVer);
    assert ReleaseLe(t[j - 1], t[j]);
  }

  /** `eol_supported.sort(key=attrgetter("python_ver"))`: an ascending sort in place. */
  method SortByVersion(a: array<PythonRelease>)
    modifies a
    ensures SortedAscending(a[..])
    ensures multiset(a[..]) == multiset(old(a[..]))
  {
    if a.Length == 0 {
      return;
    }
    var i := 1;
    while i < a.Length
      invariant 1 <= i <= a.Length
      invariant AscendingBetween(a[..], 0, i)
      invariant multiset(a[..]) == multiset(old(a[..]))
    {
      var j := i;
      while j > 0 && !ReleaseLe(a[j - 1], a[j])
        invariant 0 <= j <= i
        invariant AscendingBetween(a[..], 0, j) && AscendingBetween(a[..], j, i + 1)
        invariant 0 < j < i ==> ReleaseLe(a[j - 1], a[j + 1])
        invariant multiset(a[..]) == multiset(old(a[..]))
      {
        SwapStep(a[..], j, i);
        a[j - 1], a[j] := a[j], a[j - 1];
        j := j - 1;
      }
      i := i + 1;
    }
  }

  // ---------------------------------------------------------------------
  // get_fixed_spec

  /** The failures of `get_fixed_spec`. */
  datatype FixError =
    | UnsupportedFix   // `UnsupportedFixError`: not a single `>=` clause
    | EmptyOverlap     // the `IndexError` of `eol_supported[-1]` on an empty list

  /** The new lower bound: the minor version after the cutoff. */
  function NextMinor(cutoff: Version): Version {
    Version([Major(cutoff), Minor(cutoff) + 1])
  }

  /** `get_fixed_spec(specs, eol_supported)`. */
  function GetFixedSpec(specs: SpecifierSet, eolSupported: seq<PythonRelease>): (r: Result<string, FixError>)
    ensures !IsSingleLowerBound(specs) ==> r == Err(UnsupportedFix)
    ensures IsSingleLowerBound(specs) && eolSupported == [] ==> r == Err(EmptyOverlap)
    ensures r.Ok? <==> IsSingleLowerBound(specs) && eolSupported != []
    ensures r.Ok? ==> r.value == FormatClause(GreaterEqual, NextMinor(eolSupported[|eolSupported| - 1].pythonVer))
  {
    if |specs.clauses| != 1 then Err(UnsupportedFix)
    else if specs.clauses[0].op != GreaterEqual then Err(UnsupportedFix)
    else if eolSupported == [] then Err(EmptyOverlap)
    else
      var cutoff := eolSupported[|eolSupported| - 1].pythonVer;
      FormatTwoPartVersion(Major(cutoff), Minor(cutoff) + 1);
      Ok(">=" + NatToString(Major(cutoff)) + "." + NatToString(Minor(cutoff) + 1))
  }

  lemma FormatTwoPartVersion(major: nat, minor: nat)
    ensures FormatVersion(Version([major, minor])) == NatToString(major) + "." + NatToString(minor)
  {
    var x, y := NatToString(major), NatToString(minor);
    assert [major, minor][1..] == [minor];
    assert [minor][1..] == [];
    assert SegmentStrings([minor]) == [y];
    assert SegmentStrings([major, minor]) == [x, y];
    assert [x, y][1..] == [y];
    assert Join([x, y], '.') == x + ['.'] + Join([y], '.');
  }

  /** Every version of the cutoff's line up to the cutoff lies below the new bound. */
  lemma CutoffBelowNextMinor(cutoff: Version)
    ensures Lt(cutoff, NextMinor(cutoff))
  {
    var a, b := cutoff.release, NextMinor(cutoff).release;
    assert Head0(b) == Major(cutoff) == Head0(a);
    assert Tail0(b) == [Minor(cutoff) + 1];
    assert Head0(Tail0(a)) == Minor(cutoff) < Head0(Tail0(b));
    assert CompareRelease(Tail0(a), Tail0(b)) == -1;
    assert CompareRelease(a, b) == CompareRelease(Tail0(a), Tail0(b));
  }

  /** The returned specifier reads back as the single clause `>= major.(minor + 1)`. */
  lemma FixedSpecReadsBack(specs: SpecifierSet, eolSupported: seq<PythonRelease>)
    requires GetFixedSpec(specs, eolSupported).Ok?
    ensures ParseSpecifierSet(GetFixedSpec(specs, eolSupported).value)
         == Ok(SpecifierSet([Clause(GreaterEqual, NextMinor(eolSupported[|eolSupported| - 1].pythonVer))]))
  {
    var bound := NextMinor(eolSupported[|eolSupported| - 1].pythonVer);
    ParseFormatClause(GreaterEqual, bound);
    assert Canonical(bound) == bound;
  }

  /** A lower-bound clause admits exactly the versions at or above its bound. */
  lemma LowerBoundContains(bound: Version, v: Version)
    ensures Contains(SpecifierSet([Clause(GreaterEqual, bound)]), v) <==> Le(bound, v)
  {
    var specs := SpecifierSet([Clause(GreaterEqual, bound)]);
    assert Contains(specs, v) <==> ClauseContains(specs.clauses[0], v);
    CompareReleaseAntisymmetric(v.release, bound.release);
  }

  /** On an ascending overlap the new bound lies strictly above every release of it. */
  lemma OverlapBelowNextMinor(eolSupported: seq<PythonRelease>, k: int)
    requires SortedAscending(eolSupported)
    requires 0 <= k < |eolSupported|
    ensures Lt(eolSupported[k].pythonVer, NextMinor(eolSupported[|eolSupported| - 1].pythonVer))
  {
    var last := eolSupported[|eolSupported| - 1];
    SortedAscendingPairwise(eolSupported, k, |eolSupported| - 1);
    CutoffBelowNextMinor(last.pythonVer);
    LeTransitive(eolSupported[k].pythonVer, last.pythonVer, NextMinor(last.pythonVer));
  }

  /** So, on an ascending overlap, the clause `>= major.(minor + 1)` admits none of it. */
  lemma NextMinorExcludesOverlap(eolSupported: seq<PythonRelease>, k: int)
    requires SortedAscending(eolSupported)
    requires 0 <= k < |eolSupported|
    ensures !Contains(SpecifierSet([Clause(GreaterEqual, NextMinor(eolSupported[|eolSupported| - 1].pythonVer))]),
                      eolSupported[k].pythonVer)
  {
    var bound := NextMinor(eolSupported[|eolSupported| - 1].pythonVer);
    var v := eolSupported[k].pythonVer;
    OverlapBelowNextMinor(eolSupported, k);
    LowerBoundContains(bound, v);
    LeTotal(v, bound);
  }

  /**
   * When every overlapping release satisfies the original specifier, the
   * repaired specifier only narrows it: what it admits, the original admitted.
   */
  lemma FixedSpecNarrows(specs: SpecifierSet, eolSupported: seq<PythonRelease>, v: Version)
    requires GetFixedSpec(specs, eolSupported).Ok?
    requires Contains(specs, eolSupported[|eolSupported| - 1].pythonVer)
    requires ParseSpecifierSet(GetFixedSpec(specs, eolSupported).value).Ok?
    requires Contains(ParseSpecifierSet(GetFixedSpec(specs, eolSupported).value).value, v)
    ensures Contains(specs, v)
  {
    var cutoff := eolSupported[|eolSupported| - 1].pythonVer;
    var lower := specs.clauses[0].version;
    FixedSpecReadsBack(specs, eolSupported);
    LowerBoundContains(NextMinor(cutoff), v);
    assert specs == SpecifierSet([Clause(GreaterEqual, lower)]);
    LowerBoundContains(lower, cutoff);
    LowerBoundContains(lower, v);
    CutoffBelowNextMinor(cutoff);
    LeTransitive(lower, cutoff, NextMinor(cutoff));
    LeTransitive(lower, NextMinor(cutoff), v);
  }

  /** `>=3.8` with 3.8 and 3.9 end-of-life becomes `>=3.10`. */
  lemma GetFixedSpecExample()
    ensures GetFixedSpec(SpecifierSet([Clause(GreaterEqual, Version([3, 8]))]),
                         [PythonRelease(Version([3, 8]), EndOfLife, Date(2024, 10, 7)),
                          PythonRelease(Version([3, 9]), Security, Date(2025, 10, 1))])
         == Ok(">=3.10")
  {
    var cutoff := Version([3, 9]);
    assert Major(cutoff) == 3 && Minor(cutoff) + 1 == 10;
    assert NatToString(1) == "1" && NatToString(0) == "0";
    assert NatToString(10) == NatToString(1) + "0" == "10";
    assert NatToString(3) == "3";
    assert ">=" + "3" + "." + "10" == ">=3.10";
  }

  lemma TwoClauseText()
    ensures FormatClauses([Clause(GreaterEqual, Version([3, 8])), Clause(Less, Version([4, 0]))]) == ">=3.8,<4.0"
  {
    var clauses := [Clause(GreaterEqual, Version([3, 8])), Clause(Less, Version([4, 0]))];
    FormatTwoPartVersion(3, 8);
    FormatTwoPartVersion(4, 0);
    assert NatToString(3) == "3" && NatToString(8) == "8" && NatToString(4) == "4" && NatToString(0) == "0";
    var texts := ClauseTexts(clauses);
    assert |texts| == 2 && texts[0] == ">=3.8" && texts[1] == "<4.0";
    assert texts[1..] == ["<4.0"];
  }

  lemma TwoClauseCanonical()
    ensures Distinct(CanonicalClauses([Clause(GreaterEqual, Version([3, 8])), Clause(Less, Version([4, 0]))]))
         == [Clause(GreaterEqual, Version([3, 8])), Clause(Less, Version([4]))]
  {
    var clauses := [Clause(GreaterEqual, Version([3, 8])), Clause(Less, Version([4, 0]))];
    assert CanonicalRelease([3, 8]) == [3, 8];
    assert [4, 0][..1] == [4];
    assert CanonicalRelease([4, 0]) == [4];
    var canon := [Clause(GreaterEqual, Version([3, 8])), Clause(Less, Version([4]))];
    assert CanonicalClauses(clauses) == canon;
    assert canon[1..][1..] == [];
    assert Distinct(canon[1..]) == [canon[1]];
  }

  /** `>=3.8,<4.0` reads as two clauses, so it is not repaired, whatever the overlap. */
  lemma TwoClauseSpecNotFixed(eolSupported: seq<PythonRelease>)
    ensures ParseSpecifierSet(">=3.8,<4.0") ==
      Ok(SpecifierSet([Clause(GreaterEqual, Version([3, 8])), Clause(Less, Version([4]))]))
    ensures GetFixedSpec(ParseSpecifierSet(">=3.8,<4.0").value, eolSupported) == Err(UnsupportedFix)
  {
    TwoClauseText();
    ParseFormatClauses([Clause(GreaterEqual, Version([3, 8])), Clause(Less, Version([4, 0]))]);
    TwoClauseCanonical();
  }

  // ---------------------------------------------------------------------
  // check_python_support

  /** How one manifest check ends. */
  datatype Outcome =
    | Passed                        // returns normally; nothing is written
    | EolPythonFound(eolSupported: seq<PythonRelease>, rewritten: Option<string>)
                                    // `EOLPythonError`; in fix mode `rewritten` was written first
    | RequiresPythonNotFound        // no, or an empty, `requires-python`
    | SpecifierFailed(specError: SpecifierError)  // `InvalidSpecifier`
    | LoadFailed(loadError: LoadError)            // the cache did not load
    | FixFailed(fixError: FixError)               // `UnsupportedFixError`; nothing is written

  /** The repaired specifier reads back and admits none of `rs`. */
  ghost predicate ExcludesAll(newSpec: string, rs: seq<PythonRelease>) {
    ParseSpecifierSet(newSpec).Ok? &&
    forall r :: r in rs ==> !Contains(ParseSpecifierSet(newSpec).value, r.pythonVer)
  }

  /**
   * The repaired specifier excludes every end-of-life release it was computed
   * from, whatever order `selected` lists them in.
   */
  lemma FixedSpecExcludesAll(spec: SpecifierSet, eolSupported: seq<PythonRelease>, selected: seq<PythonRelease>)
    requires SortedAscending(eolSupported)
    requires multiset(eolSupported) == multiset(selected)
    requires GetFixedSpec(spec, eolSupported).Ok?
    ensures ExcludesAll(GetFixedSpec(spec, eolSupported).value, selected)
  {
    var fixed := GetFixedSpec(spec, eolSupported).value;
    FixedSpecReadsBack(spec, eolSupported);
    forall r | r in selected
      ensures !Contains(ParseSpecifierSet(fixed).value, r.pythonVer)
    {
      assert r in multiset(eolSupported);
      var k :| 0 <= k < |eolSupported| && eolSupported[k] == r;
      NextMinorExcludesOverlap(eolSupported, k);
    }
  }

  /** What `check_python_support` does once the specifier and the cache are read. */
  ghost predicate Decided(spec: SpecifierSet, releases: seq<PythonRelease>, useSystemDate: bool, fix: bool,
                          today: Date, outcome: Outcome)
  {
    var selected := SelectEolSupported(releases, spec, useSystemDate, today);
    && (outcome.Passed? || outcome.FixFailed? || outcome.EolPythonFound?)
    && (outcome.Passed? <==> forall r :: r in releases ==> !InOverlap(r, spec, useSystemDate, today))
    && (outcome.FixFailed? <==> selected != [] && fix && !IsSingleLowerBound(spec))
    && (outcome.FixFailed? ==> outcome.fixError == UnsupportedFix)
    && (outcome.EolPythonFound? ==>
          && SortedAscending(outcome.eolSupported)
          && multiset(outcome.eolSupported) == multiset(selected)
          && (fix <==> outcome.rewritten.Some?)
          && (fix ==> GetFixedSpec(spec, outcome.eolSupported) == Ok(outcome.rewritten.value))
          && (fix ==> ExcludesAll(outcome.rewritten.value, selected)))
  }

  /** Lines 168-184 of `check_python_support`: filter, sort, fix and raise. */
  method CheckReleases(spec: SpecifierSet, releases: seq<PythonRelease>, useSystemDate: bool, fix: bool, today: Date)
    returns (outcome: Outcome)
    ensures Decided(spec, releases, useSystemDate, fix, today, outcome)
  {
    var selected := SelectEolSupported(releases, spec, useSystemDate, today);
    if selected == [] {
      return Passed;
    }
    var a := new PythonRelease[|selected|](i requires 0 <= i < |selected| => selected[i]);
    assert a[..] == selected;
    SortByVersion(a);
    var eolSupported := a[..];
    var rewritten: Option<string> := None;
    if fix {
      var fixed := GetFixedSpec(spec, eolSupported);
      if fixed.Err? {
        return FixFailed(fixed.error);
      }
      rewritten := Some(fixed.value);
      FixedSpecExcludesAll(spec, eolSupported, selected);
    }
    return EolPythonFound(eolSupported, rewritten);
  }

  /**
   * `check_python_support` with the manifest and cache I/O stripped:
   * `requiresPython` is `contents["project"]["requires-python"]` (`None` when
   * absent), `cache` the items of the cached release-cycle JSON and `today`
   * the current UTC date.
   */
  method CheckPythonSupport(requiresPython: Option<string>, cache: seq<CacheEntry>, useSystemDate: bool, fix: bool,
                            today: Date)
    returns (outcome: Outcome)
    ensures requiresPython.None? || requiresPython == Some("") ==> outcome == RequiresPythonNotFound
    ensures requiresPython.Some? && requiresPython.value != "" ==>
      match ParseSpecifierSet(requiresPython.value)
      case Err(e) => outcome == SpecifierFailed(e)
      case Ok(spec) =>
        match LoadReleaseCycle(cache)
        case Err(e) => outcome == LoadFailed(e)
        case Ok(releases) => Decided(spec, releases, useSystemDate, fix, today, outcome)
  {
    if requiresPython.None? || requiresPython.value == "" {
      return RequiresPythonNotFound;
    }
    var parsed := ParseSpecifierSet(requiresPython.value);
    if parsed.Err? {
      return SpecifierFailed(parsed.error);
    }
    var loaded := LoadReleaseCycle(cache);
    if loaded.Err? {
      return LoadFailed(loaded.error);
    }
    outcome := CheckReleases(parsed.value, loaded.value, useSystemDate, fix, today);
  }
}
