/**
 * One Python release of the release-cycle data (`PythonRelease`), its
 * lifecycle phase (`ReleasePhase`), how an entry of the cached JSON becomes
 * a release (`from_json`), when a release counts as end-of-life (`is_eol`),
 * and the loading of the whole cache into a version-descending list.
 */
module Releases {
  import opened Wrappers
  import opened Text
  import opened Versions
  import opened Dates

  /** The release phases of PEP 602, a closed vocabulary. */
  datatype ReleasePhase = Feature | Prerelease | Bugfix | Security | EndOfLife

  /** The string value of each phase. */
  function PhaseValue(p: ReleasePhase): string {
    match p
    case Feature => "feature"
    case Prerelease => "prerelease"
    case Bugfix => "bugfix"
    case Security => "security"
    case EndOfLife => "end-of-life"
  }

  /** `ReleasePhase(s)`: lookup by value; `None` is the `ValueError`. */
  function ParsePhase(s: string): (r: Option<ReleasePhase>)
    ensures r.Some? ==> PhaseValue(r.value) == s
  {
    if s == "feature" then Some(Feature)
    else if s == "prerelease" then Some(Prerelease)
    else if s == "bugfix" then Some(Bugfix)
    else if s == "security" then Some(Security)
    else if s == "end-of-life" then Some(EndOfLife)
    else None
  }

  /** Every phase is found again from its value. */
  lemma ParsePhaseValue(p: ReleasePhase)
    ensures ParsePhase(PhaseValue(p)) == Some(p)
  {
  }

  /** A status string is accepted exactly when it is the value of one of the five phases. */
  lemma ParsePhaseClosed(s: string)
    ensures ParsePhase(s).Some? <==> exists p :: PhaseValue(p) == s
  {
    if exists p :: PhaseValue(p) == s {
      var p :| PhaseValue(p) == s;
      ParsePhaseValue(p);
    }
  }

  /** An immutable release record. */
  datatype PythonRelease = PythonRelease(pythonVer: Version, status: ReleasePhase, endOfLife: Date)

  /** The exceptions `from_json` lets through, in the order it can raise them. */
  datatype LoadError =
    | InvalidVersion(ver: string)              // `version.Version(ver)`
    | MissingKey(key: string)                  // `metadata[key]`
    | UnknownStatus(status: string)            // `ReleasePhase(status)`
    | MalformedDate(date: string, reason: DateError)  // `_parse_eol_date`

  /** The metadata object of one cache entry, restricted to string values. */
  type Metadata = map<string, string>

  /**
   * `PythonRelease.from_json(ver, metadata)`.  The arguments of the record are
   * evaluated in order, so the first failing step decides the exception.
   */
  function FromJson(ver: string, metadata: Metadata): (r: Result<PythonRelease, LoadError>)
    ensures r.Ok? <==> && ParseVersion(ver).Some?
                       && "status" in metadata && ParsePhase(metadata["status"]).Some?
                       && "end_of_life" in metadata && ParseEolDate(metadata["end_of_life"]).Ok?
    ensures r.Ok? ==> ParseVersion(ver) == Some(r.value.pythonVer)
    ensures r.Ok? ==> "status" in metadata && metadata["status"] == PhaseValue(r.value.status)
    ensures r.Ok? ==> "end_of_life" in metadata && ParseEolDate(metadata["end_of_life"]) == Ok(r.value.endOfLife)
    ensures r.Ok? ==> ValidDate(r.value.endOfLife) && |r.value.pythonVer.release| >= 1
    ensures ParseVersion(ver).None? ==> r == Err(InvalidVersion(ver))
    ensures ParseVersion(ver).Some? && "status" !in metadata ==> r == Err(MissingKey("status"))
    ensures ParseVersion(ver).Some? && "status" in metadata && ParsePhase(metadata["status"]).None? ==>
      r == Err(UnknownStatus(metadata["status"]))
    ensures (ParseVersion(ver).Some? && "status" in metadata && ParsePhase(metadata["status"]).Some?
             && "end_of_life" !in metadata) ==> r == Err(MissingKey("end_of_life"))
    ensures (ParseVersion(ver).Some? && "status" in metadata && ParsePhase(metadata["status"]).Some?
             && "end_of_life" in metadata && ParseEolDate(metadata["end_of_life"]).Err?) ==>
      r == Err(MalformedDate(metadata["end_of_life"], ParseEolDate(metadata["end_of_life"]).error))
  {
    match ParseVersion(ver)
    case None => Err(InvalidVersion(ver))
    case Some(v) =>
      if "status" !in metadata then Err(MissingKey("status"))
      else match ParsePhase(metadata["status"])
        case None => Err(UnknownStatus(metadata["status"]))
        case Some(phase) =>
          if "end_of_life" !in metadata then Err(MissingKey("end_of_life"))
          else match ParseEolDate(metadata["end_of_life"])
            case Err(e) => Err(MalformedDate(metadata["end_of_life"], e))
            case Ok(d) => Ok(PythonRelease(v, phase, d))
  }

  /** The cache entry a release would be read from. */
  function ToJson(r: PythonRelease): (string, Metadata)
    requires |r.pythonVer.release| >= 1 && ValidDate(r.endOfLife)
  {
    (FormatVersion(r.pythonVer), map["status" := PhaseValue(r.status), "end_of_life" := FormatIsoDate(r.endOfLife)])
  }

  /** Reading back the entry of a release gives that release. */
  lemma FromJsonToJson(r: PythonRelease)
    requires |r.pythonVer.release| >= 1 && ValidDate(r.endOfLife)
    ensures FromJson(ToJson(r).0, ToJson(r).1) == Ok(r)
  {
    ParseFormatVersion(r.pythonVer);
    ParsePhaseValue(r.status);
    ParseIsoDate(r.endOfLife);
  }

  /**
   * A cache entry loads whatever other keys (`branch`, `pep`, `first_release`,
   * ...) its metadata carries, given the version, the status and an ISO date.
   */
  lemma FromJsonOfIsoEntry(r: PythonRelease, metadata: Metadata)
    requires |r.pythonVer.release| >= 1 && ValidDate(r.endOfLife)
    requires "status" in metadata && metadata["status"] == PhaseValue(r.status)
    requires "end_of_life" in metadata && metadata["end_of_life"] == FormatIsoDate(r.endOfLife)
    ensures FromJson(FormatVersion(r.pythonVer), metadata) == Ok(r)
  {
    ParseFormatVersion(r.pythonVer);
    ParsePhaseValue(r.status);
    ParseIsoDate(r.endOfLife);
  }

  /** An entry whose end of life is a `YYYY-MM` month loads with the first of that month. */
  lemma FromJsonOfMonthEntry(v: Version, status: ReleasePhase, year: nat, month: nat, yearWidth: nat, monthWidth: nat,
                             metadata: Metadata)
    requires |v.release| >= 1 && 1 <= year <= 9999 && 1 <= month <= 12
    requires "status" in metadata && metadata["status"] == PhaseValue(status)
    requires "end_of_life" in metadata && metadata["end_of_life"] == PadNat(year, yearWidth) + "-" + PadNat(month, monthWidth)
    ensures FromJson(FormatVersion(v), metadata) == Ok(PythonRelease(v, status, Date(year, month, 1)))
  {
    ParseFormatVersion(v);
    ParsePhaseValue(status);
    ParseYearMonth(year, month, yearWidth, monthWidth);
  }

  /** An entry as the release-cycle feed publishes it. */
  lemma FromJsonFeedExample()
    ensures FromJson("3.14", map["branch" := "3.14", "pep" := "745", "status" := "prerelease",
                                 "first_release" := "2025-10-01", "end_of_life" := "2030-10",
                                 "release_manager" := "Hugo van Kemenade"])
         == Ok(PythonRelease(Version([3, 14]), Prerelease, Date(2030, 10, 1)))
  {
    var v := Version([3, 14]);
    assert SegmentStrings([14]) == [NatToString(14)];
    assert NatToString(14) == NatToString(1) + [DigitChar(4)] == "14";
    assert NatToString(3) == "3";
    assert [3, 14][1..] == [14];
    assert SegmentStrings([3, 14]) == ["3", "14"];
    assert FormatVersion(v) == "3.14";
    assert NatToString(2030) == "2030" && PadNat(2030, 4) == "2030";
    assert NatToString(10) == "10" && PadNat(10, 2) == "10";
    FromJsonOfMonthEntry(v, Prerelease, 2030, 10, 4, 2,
                         map["branch" := "3.14", "pep" := "745", "status" := "prerelease",
                             "first_release" := "2025-10-01", "end_of_life" := "2030-10",
                             "release_manager" := "Hugo van Kemenade"]);
  }

  /**
   * `PythonRelease.is_eol(use_system_date)`, with today's UTC date passed in.
   * An explicit end-of-life status decides whatever the flag and the dates;
   * without the system date only the status counts; with it, a release is
   * also end-of-life from its end-of-life date on.
   */
  function IsEol(r: PythonRelease, useSystemDate: bool, today: Date): (b: bool)
    ensures r.status == EndOfLife ==> b
    ensures !useSystemDate ==> (b <==> r.status == EndOfLife)
    ensures useSystemDate ==> (b <==> r.status == EndOfLife || DateLe(r.endOfLife, today))
  {
    if r.status == EndOfLife then true
    else if useSystemDate && DateLe(r.endOfLife, today) then true
    else false
  }

  /** A release that is end-of-life stays so on every later day. */
  lemma IsEolLater(r: PythonRelease, useSystemDate: bool, today: Date, later: Date)
    requires DateLe(today, later)
    requires IsEol(r, useSystemDate, today)
    ensures IsEol(r, useSystemDate, later)
  {
  }

  // ---------------------------------------------------------------------
  // Loading the cache.

  /** One `(version string, metadata)` item of the cache, in file order. */
  type CacheEntry = (string, Metadata)

  predicate ReleaseLe(a: PythonRelease, b: PythonRelease) {
    Le(a.pythonVer, b.pythonVer)
  }

  predicate SortedDescending(rs: seq<PythonRelease>) {
    forall i :: 0 <= i < |rs| - 1 ==> ReleaseLe(rs[i + 1], rs[i])
  }

  predicate SortedAscending(rs: seq<PythonRelease>) {
    forall i :: 0 <= i < |rs| - 1 ==> ReleaseLe(rs[i], rs[i + 1])
  }

  /**
   * The generator `(PythonRelease.from_json(v, m) for v, m in contents.items())`
   * as `sorted` drains it: every release, or the exception of the first entry
   * that raises.
   */
  function ParseEntries(entries: seq<CacheEntry>): (r: Result<seq<PythonRelease>, LoadError>)
    ensures r.Ok? <==> forall i :: 0 <= i < |entries| ==> FromJson(entries[i].0, entries[i].1).Ok?
    ensures r.Ok? ==> |r.value| == |entries|
    ensures r.Ok? ==> forall i :: 0 <= i < |entries| ==> FromJson(entries[i].0, entries[i].1) == Ok(r.value[i])
    ensures r.Err? ==> exists i :: 0 <= i < |entries| && FromJson(entries[i].0, entries[i].1) == Err(r.error)
                        && forall j :: 0 <= j < i ==> FromJson(entries[j].0, entries[j].1).Ok?
  {
    var loaded := seq(|entries|, i requires 0 <= i < |entries| => FromJson(entries[i].0, entries[i].1));
    CollectLoaded(entries, loaded);
    Collect(loaded)
  }

  /** Draining the loaded entries yields exactly what `from_json` gives on each of them. */
  lemma CollectLoaded(entries: seq<CacheEntry>, loaded: seq<Result<PythonRelease, LoadError>>)
    requires |loaded| == |entries|
    requires forall i :: 0 <= i < |entries| ==> loaded[i] == FromJson(entries[i].0, entries[i].1)
    ensures var r := Collect(loaded);
      && (r.Ok? <==> forall i :: 0 <= i < |entries| ==> FromJson(entries[i].0, entries[i].1).Ok?)
      && (r.Ok? ==> |r.value| == |entries|)
      && (r.Ok? ==> forall i :: 0 <= i < |entries| ==> FromJson(entries[i].0, entries[i].1) == Ok(r.value[i]))
      && (r.Err? ==> exists i :: 0 <= i < |entries| && FromJson(entries[i].0, entries[i].1) == Err(r.error)
                        && forall j :: 0 <= j < i ==> FromJson(entries[j].0, entries[j].1).Ok?)
  {
    var r := Collect(loaded);
    if r.Err? {
      var i :| 0 <= i < |loaded| && loaded[i] == Err(r.error) && forall j :: 0 <= j < i ==> loaded[j].Ok?;
      assert FromJson(entries[i].0, entries[i].1) == Err(r.error);
    }
  }

  /** Inserts `x` into a descending list, before the releases whose version is not above it. */
  function InsertDescending(x: PythonRelease, rs: seq<PythonRelease>): (r: seq<PythonRelease>)
    requires SortedDescending(rs)
    ensures SortedDescending(r)
    ensures multiset(r) == multiset(rs) + multiset{x}
    ensures r[0] == x || (rs != [] && r[0] == rs[0])
  {
    if rs == [] || ReleaseLe(rs[0], x) then [x] + rs
    else
      LeTotal(rs[0].pythonVer, x.pythonVer);
      var tail := InsertDescending(x, rs[1..]);
      assert rs == [rs[0]] + rs[1..];
      [rs[0]] + tail
  }

  /** `sorted(releases, key=attrgetter("python_ver"), reverse=True)`. */
  function SortDescending(rs: seq<PythonRelease>): (r: seq<PythonRelease>)
    ensures SortedDescending(r)
    ensures multiset(r) == multiset(rs)
  {
    if rs == [] then []
    else
      assert rs == [rs[0]] + rs[1..];
      InsertDescending(rs[0], SortDescending(rs[1..]))
  }

  /** `_get_cached_release_cycle`, on the cache's items instead of the file. */
  function LoadReleaseCycle(entries: seq<CacheEntry>): (r: Result<seq<PythonRelease>, LoadError>)
    ensures r.Ok? <==> ParseEntries(entries).Ok?
    ensures r.Err? ==> r.error == ParseEntries(entries).error
    ensures r.Ok? ==> SortedDescending(r.value) && multiset(r.value) == multiset(ParseEntries(entries).value)
  {
    match ParseEntries(entries)
    case Err(e) => Err(e)
    case Ok(rs) => Ok(SortDescending(rs))
  }

  /** In a descending list every release is at least every later one. */
  lemma {:induction false} SortedDescendingPairwise(rs: seq<PythonRelease>, i: int, j: int)
    requires SortedDescending(rs)
    requires 0 <= i <= j < |rs|
    ensures ReleaseLe(rs[j], rs[i])
    decreases j - i
  {
    if i == j {
      CompareReleaseAntisymmetric(rs[i].pythonVer.release, rs[i].pythonVer.release);
    } else {
      SortedDescendingPairwise(rs, i + 1, j);
      LeTransitive(rs[j].pythonVer, rs[i + 1].pythonVer, rs[i].pythonVer);
    }
  }

  /** In an ascending list every release is at most every later one. */
  lemma {:induction false} SortedAscendingPairwise(rs: seq<PythonRelease>, i: int, j: int)
    requires SortedAscending(rs)
    requires 0 <= i <= j < |rs|
    ensures ReleaseLe(rs[i], rs[j])
    decreases j - i
  {
    if i == j {
      CompareReleaseAntisymmetric(rs[i].pythonVer.release, rs[i].pythonVer.release);
    } else {
      SortedAscendingPairwise(rs, i + 1, j);
      LeTransitive(rs[i].pythonVer, rs[i + 1].pythonVer, rs[j].pythonVer);
    }
  }

  /** A cache holding an unknown status loads nothing. */
  lemma UnknownStatusFailsLoad(entries: seq<CacheEntry>, k: int)
    requires 0 <= k < |entries|
    requires "status" in entries[k].1 && ParsePhase(entries[k].1["status"]).None?
    ensures LoadReleaseCycle(entries).Err?
  {
  }
}
