/**
 * Python versions as the `packaging` library orders them, restricted to the
 * release segment (`3`, `3.8`, `3.13.1`): no epoch, pre-, post-, dev- or
 * local parts.  Two versions compare as their release numbers padded with
 * zeros, so `3.8` and `3.8.0` are equal.
 */
module Versions {
  import opened Wrappers
  import opened Text

  datatype Version = Version(release: seq<nat>)

  /** `Version.major`: the first release number, 0 when there is none. */
  function Major(v: Version): (n: nat)
    ensures Le(Version([n]), v) && Lt(v, Version([n + 1]))
  {
    var n := if |v.release| >= 1 then v.release[0] else 0;
    assert Head0([n]) == n && Tail0([n]) == [];
    ReleaseAtLeastEmpty(Tail0(v.release));
    assert CompareRelease([n], v.release) == CompareRelease([], Tail0(v.release));
    n
  }

  /** `Version.minor`: the second release number, 0 when there is none. */
  function Minor(v: Version): (n: nat)
    ensures Le(Version([Major(v), n]), v) && Lt(v, Version([Major(v), n + 1]))
  {
    var n := if |v.release| >= 2 then v.release[1] else 0;
    var a := v.release;
    var m := Major(v);
    assert Head0(a) == m && Head0(Tail0(a)) == n;
    assert Head0([m, n]) == m && Tail0([m, n]) == [n];
    assert Head0([n]) == n && Tail0([n]) == [];
    assert Head0([m, n + 1]) == m && Tail0([m, n + 1]) == [n + 1];
    assert Head0([n + 1]) == n + 1;
    ReleaseAtLeastEmpty(Tail0(Tail0(a)));
    assert CompareRelease([n], Tail0(a)) == CompareRelease([], Tail0(Tail0(a)));
    assert CompareRelease([m, n], a) == CompareRelease([n], Tail0(a));
    assert CompareRelease(Tail0(a), [n + 1]) == -1;
    assert CompareRelease(a, [m, n + 1]) == CompareRelease(Tail0(a), [n + 1]);
    n
  }

  /** A missing release number counts as 0, so nothing lies below the empty release. */
  lemma {:induction false} ReleaseAtLeastEmpty(a: seq<nat>)
    ensures CompareRelease([], a) <= 0
    decreases |a|
  {
    if a != [] && Head0(a) == 0 {
      ReleaseAtLeastEmpty(Tail0(a));
    }
  }

  function Head0(s: seq<nat>): nat {
    if s == [] then 0 else s[0]
  }

  function Tail0(s: seq<nat>): seq<nat> {
    if s == [] then [] else s[1..]
  }

  /** Three-way comparison of release numbers, the shorter one padded with zeros. */
  function CompareRelease(a: seq<nat>, b: seq<nat>): (c: int)
    ensures -1 <= c <= 1
    decreases |a| + |b|
  {
    if a == [] && b == [] then 0
    else if Head0(a) < Head0(b) then -1
    else if Head0(a) > Head0(b) then 1
    else CompareRelease(Tail0(a), Tail0(b))
  }

  function Compare(v: Version, w: Version): int {
    CompareRelease(v.release, w.release)
  }

  predicate Le(v: Version, w: Version) {
    Compare(v, w) <= 0
  }

  predicate Lt(v: Version, w: Version) {
    Compare(v, w) < 0
  }

  predicate Equivalent(v: Version, w: Version) {
    Compare(v, w) == 0
  }

  // ---------------------------------------------------------------------
  // The reference ordering: packaging's comparison key drops trailing
  // zeros from the release tuple and then compares tuples as Python does.

  function StripZeros(s: seq<nat>): (r: seq<nat>)
    ensures |r| <= |s| && r == s[..|r|]
    ensures r == [] || r[|r| - 1] != 0
    ensures forall i :: |r| <= i < |s| ==> s[i] == 0
  {
    if s != [] && s[|s| - 1] == 0 then StripZeros(s[..|s| - 1]) else s
  }

  /** Python's comparison of two tuples of integers. */
  function TupleCompare(a: seq<nat>, b: seq<nat>): int
    decreases |a|
  {
    if a == [] && b == [] then 0
    else if a == [] then -1
    else if b == [] then 1
    else if a[0] < b[0] then -1
    else if a[0] > b[0] then 1
    else TupleCompare(a[1..], b[1..])
  }

  lemma {:induction false} StripZerosCons(s: seq<nat>)
    ensures StripZeros(s) ==
      if Head0(s) == 0 && StripZeros(Tail0(s)) == [] then [] else [Head0(s)] + StripZeros(Tail0(s))
    decreases |s|
  {
    if |s| >= 2 {
      var init := s[..|s| - 1];
      assert Head0(init) == Head0(s);
      assert Tail0(init) == Tail0(s)[..|Tail0(s)| - 1];
      if s[|s| - 1] == 0 {
        StripZerosCons(init);
      }
    }
  }

  /** The padded comparison is packaging's key comparison. */
  lemma {:induction false} CompareReleaseIsTupleCompare(a: seq<nat>, b: seq<nat>)
    ensures CompareRelease(a, b) == TupleCompare(StripZeros(a), StripZeros(b))
    decreases |a| + |b|
  {
    if !(a == [] && b == []) {
      StripZerosCons(a);
      StripZerosCons(b);
      if Head0(a) == Head0(b) {
        CompareReleaseIsTupleCompare(Tail0(a), Tail0(b));
        var ta, tb := StripZeros(Tail0(a)), StripZeros(Tail0(b));
        if Head0(a) != 0 || ta != [] {
          assert ([Head0(a)] + ta)[1..] == ta;
        }
        if Head0(b) != 0 || tb != [] {
          assert ([Head0(b)] + tb)[1..] == tb;
        }
      }
    }
  }

  lemma {:induction false} TupleCompareZero(a: seq<nat>, b: seq<nat>)
    ensures TupleCompare(a, b) == 0 <==> a == b
    decreases |a|
  {
    if a != [] && b != [] && a[0] == b[0] {
      TupleCompareZero(a[1..], b[1..]);
      assert a == [a[0]] + a[1..] && b == [b[0]] + b[1..];
    }
  }

  /** Two versions are equal exactly when they agree once trailing zeros are dropped. */
  lemma EquivalentIffSameKey(v: Version, w: Version)
    ensures Equivalent(v, w) <==> StripZeros(v.release) == StripZeros(w.release)
  {
    CompareReleaseIsTupleCompare(v.release, w.release);
    TupleCompareZero(StripZeros(v.release), StripZeros(w.release));
  }

  // ---------------------------------------------------------------------
  // Order laws.

  lemma {:induction false} CompareReleaseAntisymmetric(a: seq<nat>, b: seq<nat>)
    ensures CompareRelease(a, b) == -CompareRelease(b, a)
    decreases |a| + |b|
  {
    if !(a == [] && b == []) && Head0(a) == Head0(b) {
      CompareReleaseAntisymmetric(Tail0(a), Tail0(b));
    }
  }

  lemma {:induction false} CompareReleaseTransitive(a: seq<nat>, b: seq<nat>, c: seq<nat>)
    requires CompareRelease(a, b) <= 0 && CompareRelease(b, c) <= 0
    ensures CompareRelease(a, c) <= 0
    ensures CompareRelease(a, c) == 0 ==> CompareRelease(a, b) == 0 && CompareRelease(b, c) == 0
    decreases |a| + |b| + |c|
  {
    if !(a == [] && b == [] && c == []) && Head0(a) == Head0(b) == Head0(c) {
      CompareReleaseTransitive(Tail0(a), Tail0(b), Tail0(c));
    }
  }

  lemma LeTotal(v: Version, w: Version)
    ensures Le(v, w) || Le(w, v)
    ensures Lt(v, w) <==> !Le(w, v)
  {
    CompareReleaseAntisymmetric(v.release, w.release);
  }

  lemma LeTransitive(u: Version, v: Version, w: Version)
    requires Le(u, v) && Le(v, w)
    ensures Le(u, w)
    ensures Lt(u, v) || Lt(v, w) ==> Lt(u, w)
  {
    CompareReleaseTransitive(u.release, v.release, w.release);
  }

  // ---------------------------------------------------------------------
  // Canonical form, as `packaging.utils.canonicalize_version` produces it
  // for a specifier's version: trailing `.0` parts removed, one part kept.

  function CanonicalRelease(s: seq<nat>): (r: seq<nat>)
    ensures |r| <= |s| && r == s[..|r|]
    ensures forall i :: |r| <= i < |s| ==> s[i] == 0
    ensures |r| <= 1 || r[|r| - 1] != 0
    ensures |s| >= 1 ==> |r| >= 1
  {
    if |s| > 1 && s[|s| - 1] == 0 then CanonicalRelease(s[..|s| - 1]) else s
  }

  function Canonical(v: Version): Version {
    Version(CanonicalRelease(v.release))
  }

  lemma {:induction false} StripZerosOfCanonicalRelease(s: seq<nat>)
    ensures StripZeros(CanonicalRelease(s)) == StripZeros(s)
    decreases |s|
  {
    if |s| > 1 && s[|s| - 1] == 0 {
      StripZerosOfCanonicalRelease(s[..|s| - 1]);
    }
  }

  /** Canonicalising a version does not move it in the order. */
  lemma CanonicalEquivalent(v: Version)
    ensures Equivalent(Canonical(v), v)
  {
    StripZerosOfCanonicalRelease(v.release);
    EquivalentIffSameKey(Canonical(v), v);
  }

  // ---------------------------------------------------------------------
  // Text form: dot-separated decimal numbers.

  /** `int()` on every dot-separated part; fails when any part does not read. */
  function ParseSegments(parts: seq<string>): (r: Option<seq<nat>>)
    ensures r.Some? <==> forall i :: 0 <= i < |parts| ==> ParseNat(parts[i]).Some?
    ensures r.Some? ==> |r.value| == |parts| && forall i :: 0 <= i < |parts| ==> ParseNat(parts[i]) == Some(r.value[i])
  {
    if parts == [] then Some([])
    else
      var rest := ParseSegments(parts[1..]);
      assert forall i :: 1 <= i < |parts| ==> parts[i] == parts[1..][i - 1];
      match (ParseNat(parts[0]), rest)
      case (Some(n), Some(tail)) => Some([n] + tail)
      case _ => None
  }

  /** `version.Version(s)` on a dotted-decimal string; `None` is `InvalidVersion`. */
  function ParseVersion(s: string): (r: Option<Version>)
    ensures r.Some? ==> |r.value.release| == |Split(s, '.')| && |r.value.release| >= 1
    ensures r.Some? <==> forall i :: 0 <= i < |Split(s, '.')| ==> ParseNat(Split(s, '.')[i]).Some?
    ensures r.Some? ==> forall i :: 0 <= i < |Split(s, '.')| ==> ParseNat(Split(s, '.')[i]) == Some(r.value.release[i])
  {
    var parts := Split(s, '.');
    match ParseSegments(parts)
    case Some(release) =>
      assert |release| == |parts| && |parts| >= 1;
      Some(Version(release))
    case None =>
      var i :| 0 <= i < |parts| && ParseNat(parts[i]).None?;
      assert ParseNat(Split(s, '.')[i]).None?;
      None
  }

  /** A version text starts with a digit. */
  lemma ParseVersionStartsWithDigit(s: string)
    ensures ParseVersion(s).Some? ==> s != [] && IsDigit(s[0])
  {
    if ParseVersion(s).Some? {
      var parts := Split(s, '.');
      assert ParseNat(parts[0]).Some?;
      assert IsDigits(parts[0]);
      assert Join(parts, '.')[0] == parts[0][0];
    }
  }

  function SegmentStrings(release: seq<nat>): (parts: seq<string>)
    ensures |parts| == |release|
    ensures forall i :: 0 <= i < |parts| ==> IsDigits(parts[i])
  {
    if release == [] then [] else [NatToString(release[0])] + SegmentStrings(release[1..])
  }

  /** `str(version)` for a release-only version. */
  function FormatVersion(v: Version): (s: string)
    requires |v.release| >= 1
    ensures s != [] && IsDigit(s[0]) && IsDigit(s[|s| - 1])
    ensures forall i :: 0 <= i < |s| ==> IsDigit(s[i]) || s[i] == '.'
  {
    var parts := SegmentStrings(v.release);
    FormatVersionDigits(parts);
    Join(parts, '.')
  }

  lemma {:induction false} FormatVersionDigits(parts: seq<string>)
    requires |parts| >= 1
    requires forall i :: 0 <= i < |parts| ==> IsDigits(parts[i])
    ensures var s := Join(parts, '.'); s != [] && IsDigit(s[0]) && IsDigit(s[|s| - 1])
    ensures var s := Join(parts, '.'); forall i :: 0 <= i < |s| ==> IsDigit(s[i]) || s[i] == '.'
  {
    if |parts| > 1 {
      FormatVersionDigits(parts[1..]);
    }
  }

  lemma {:induction false} ParseSegmentStrings(release: seq<nat>)
    ensures ParseSegments(SegmentStrings(release)) == Some(release)
  {
    if release != [] {
      var parts := SegmentStrings(release);
      assert parts[1..] == SegmentStrings(release[1..]);
      ParseNatOfNatToString(release[0]);
      ParseSegmentStrings(release[1..]);
      assert [release[0]] + release[1..] == release;
    }
  }

  /** Reading back a printed version gives the same version. */
  lemma ParseFormatVersion(v: Version)
    requires |v.release| >= 1
    ensures ParseVersion(FormatVersion(v)) == Some(v)
  {
    var parts := SegmentStrings(v.release);
    forall i | 0 <= i < |parts| ensures '.' !in parts[i] {
      assert IsDigits(parts[i]);
    }
    SplitOfJoin(parts, '.');
    ParseSegmentStrings(v.release);
  }
}
