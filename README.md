# pre-commit-python-eol, modelled in Dafny

`pre-commit-python-eol` is a pre-commit hook. It reads the `requires-python`
specifier of a `pyproject.toml` and the locally cached Python release cycle (a
JSON object from version string to `{"status", "end_of_life", ...}`). It fails
when the specifier admits a Python version that is end-of-life. A version is
end-of-life when its status says so or, unless `--cache_only` is given, when its
end-of-life date is on or before today. With `--fix` it rewrites a specifier
that is a single `>=` clause, whatever its version, to `>=M.(m+1)`. Here `M.m`
are the major and minor numbers of the newest end-of-life version the old
specifier admitted.

The model covers the decision core of `pre_commit_python_eol/check_eol.py`:

- `wrappers.dfy`: `Option` and `Result`.
- `text.dfy`: the pieces of Python string handling the core uses: `str.split`
  on one character, `str.strip`, `int()` on a string of ASCII digits, and
  `str()` of a natural number.
- `versions.dfy`: `packaging.version.Version` restricted to release segments. It
  covers parsing a dotted-decimal string, the comparison (zero-padded, which is
  proved equal to packaging's rule of stripping trailing zeros and comparing
  tuples), the canonical form, and printing.
- `specifiers.dfy`: `packaging.specifiers.SpecifierSet` restricted to the
  operators `>=`, `>`, `<=`, `<`, `==` and `!=`. It covers parsing a
  comma-separated list into a set of distinct canonical clauses, membership, and
  the read-back of printed clauses joined by commas.
- `dates.dfy`: `_parse_eol_date`. A `YYYY-MM-DD` date goes through
  `date.fromisoformat`; a `YYYY-MM` date through `int()` and `date(y, m, 1)`;
  day, month and year ranges are checked against the Gregorian calendar, and a
  field too large for a C `int` raises `OverflowError`.
- `releases.dfy`: `ReleasePhase`, the `PythonRelease` record,
  `PythonRelease.from_json` with the exception each of its steps raises
  (`InvalidVersion`, `KeyError`, the `ValueError` of an unknown status, and the
  `ValueError` or `OverflowError` of the date), `is_eol` with
  today's UTC date as a parameter, and `_get_cached_release_cycle` on the
  cache's items, sorted descending by version.
- `check_eol.dfy`: `get_fixed_spec` and `check_python_support` from the
  specifier string to its outcome. The outcome is a value: pass, the error
  that is raised, and the list of end-of-life versions together with the
  rewritten specifier in fix mode. The ascending sort of `eol_supported` is an
  in-place insertion sort on an array, proved sorted and a permutation.

The central results:

- the repaired specifier reads back as one `>=` clause;
- it admits none of the end-of-life releases it was computed from;
- it admits nothing the original specifier did not;
- each parser inverts its printer: versions, ISO dates, `YYYY-MM` dates with
  any zero padding, release phases, and whole cache entries. A specifier set
  printed as clauses joined by commas reads back as those clauses in canonical
  form, each once; it is the same list only when no two clauses share a
  canonical form.

Three behaviours of the code that the model keeps as written:

- In fix mode `check_python_support` writes the new specifier and *still*
  raises `EOLPythonError`. `CheckEol.Decided` states this: the outcome is
  `EolPythonFound` with `rewritten` set.
- `UnsupportedFixError` is not caught by `main`, so it propagates. It is the
  separate outcome `FixFailed(UnsupportedFix)`.
- An empty `eol_supported` list cannot reach `get_fixed_spec`, because
  `check_python_support` returns first. The `IndexError` that
  `get_fixed_spec` would raise on it is `CheckEol.GetFixedSpec`'s
  `Err(EmptyOverlap)`. `CheckEol.CheckReleases` never asks for it, so its
  outcomes never carry `FixFailed(EmptyOverlap)`.

## Model

| member | source | states |
|---|---|---|
| Text.Split | pre_commit_python_eol/check_eol.py:55 | `date_str.split("-")`: at least one part, no part contains the separator, and joining the parts with the separator gives back the input |
| Text.SplitOfJoin | pre_commit_python_eol/check_eol.py:55 | splitting a join of separator-free parts gives those parts back |
| Text.SplitAtSeparator | pre_commit_python_eol/check_eol.py:55 | a string that starts with a separator-free piece and a separator splits into that piece followed by the split of the rest |
| Text.SplitWithoutSeparator | pre_commit_python_eol/check_eol.py:55 | a string without the separator splits into itself alone |
| Text.ParseNat | pre_commit_python_eol/check_eol.py:60 | `int()` on ASCII digits reads exactly the non-empty digit strings, and the value it reads, zero-padded to the input's width, prints as the input again |
| Text.NatToString | pre_commit_python_eol/check_eol.py:139 | the decimal form of `n` in the f-string is a non-empty digit string that has a leading zero only for 0 |
| Text.DigitsValueOfNatToString | pre_commit_python_eol/check_eol.py:139 | the digits printed for `n` have value `n` |
| Text.ParseNatOfNatToString | pre_commit_python_eol/check_eol.py:60 | `int(str(n)) == n` |
| Text.ParseNatOfPadNat | pre_commit_python_eol/check_eol.py:60 | `int()` ignores leading zeros: any zero-padded form of `n` reads as `n` |
| Text.StripLeft | pre_commit_python_eol/check_eol.py:165 | the strip of leading whitespace that packaging applies to a clause's version: a suffix of the input, every character removed is whitespace, and the result does not start with whitespace |
| Text.StripRight | pre_commit_python_eol/check_eol.py:165 | the strip of trailing whitespace: a prefix of the input, every character removed is whitespace, and the result does not end with whitespace |
| Text.Strip | pre_commit_python_eol/check_eol.py:165 | `str.strip()` on each comma-separated item: a contiguous middle of the input, everything before and after it is whitespace, and the result neither starts nor ends with whitespace |
| Text.StripUnpadded | pre_commit_python_eol/check_eol.py:165 | stripping a string with no outer whitespace leaves it unchanged |
| Text.StripPadded | pre_commit_python_eol/check_eol.py:165 | whitespace added around a string with no outer whitespace is exactly what stripping removes |
| Versions.Major | pre_commit_python_eol/check_eol.py:139 | `cutoff.major` is the `n` with `n <= v < n+1` in the version order |
| Versions.Minor | pre_commit_python_eol/check_eol.py:139 | `cutoff.minor` is the `n` with `M.n <= v < M.(n+1)`, where `M` is the major number |
| Versions.CompareRelease | pre_commit_python_eol/check_eol.py:121 | the comparison of two release tuples, zero-padded to equal length, takes the values -1, 0 and 1 |
| Versions.StripZeros | pre_commit_python_eol/check_eol.py:121 | packaging's comparison key: the release with its trailing zeros dropped, so a prefix with no trailing zero beyond which every segment is 0 |
| Versions.CompareReleaseIsTupleCompare | pre_commit_python_eol/check_eol.py:121 | the padded comparison equals Python's tuple comparison of the zero-stripped releases, which is how packaging orders versions |
| Versions.TupleCompareZero | pre_commit_python_eol/check_eol.py:121 | tuple comparison returns 0 exactly on equal tuples |
| Versions.EquivalentIffSameKey | pre_commit_python_eol/check_eol.py:121 | two versions compare equal if and only if their zero-stripped releases coincide, in both directions |
| Versions.CompareReleaseAntisymmetric | pre_commit_python_eol/check_eol.py:175 | swapping the operands negates the comparison |
| Versions.CompareReleaseTransitive | pre_commit_python_eol/check_eol.py:175 | the comparison is transitive, and the outer pair compares equal only when both inner pairs do |
| Versions.LeTotal | pre_commit_python_eol/check_eol.py:175 | the version order used as the sort key is total, and `<` is the negation of the reversed `<=` |
| Versions.LeTransitive | pre_commit_python_eol/check_eol.py:175 | `<=` is transitive, and strict when either step is strict |
| Versions.CanonicalRelease | pre_commit_python_eol/check_eol.py:165 | the canonical release that packaging keys a specifier on: a prefix of the release, every segment it drops is 0, it keeps at least one segment, and it ends in a non-zero segment unless it is one segment long |
| Versions.StripZerosOfCanonicalRelease | pre_commit_python_eol/check_eol.py:165 | canonicalising does not change the comparison key |
| Versions.CanonicalEquivalent | pre_commit_python_eol/check_eol.py:165 | a canonical version compares equal to the version it came from |
| Versions.ParseSegments | pre_commit_python_eol/check_eol.py:86 | the segments read exactly when every segment reads with `int()`; then there is one number per segment, each the value of its segment |
| Versions.ParseVersion | pre_commit_python_eol/check_eol.py:86 | `version.Version(ver)` succeeds exactly when every dot-separated part reads with `int()`; the release then has one segment per part, each that part's value, and at least one; otherwise `InvalidVersion` |
| Versions.ParseVersionStartsWithDigit | pre_commit_python_eol/check_eol.py:86 | a version text starts with a digit |
| Versions.SegmentStrings | pre_commit_python_eol/check_eol.py:139 | each release segment prints as a digit string |
| Versions.FormatVersion | pre_commit_python_eol/check_eol.py:139-140 | a printed version is non-empty, begins and ends with a digit, and holds only digits and dots |
| Versions.ParseSegmentStrings | pre_commit_python_eol/check_eol.py:86 | reading the printed segments gives the release back |
| Versions.ParseFormatVersion | pre_commit_python_eol/check_eol.py:86 | `Version(str(v)) == v` for every release-only version |
| Specifiers.SplitOperator | pre_commit_python_eol/check_eol.py:134 | the operator found at the head of an item: the item is its token followed by the rest; `>` or `<` is taken only when no `=` follows; when none is found, no operator token starts the item |
| Specifiers.ParseClause | pre_commit_python_eol/check_eol.py:165 | `Specifier(item)` fails with `InvalidSpecifier` naming that item |
| Specifiers.ParseClauseReads | pre_commit_python_eol/check_eol.py:165 | a read clause's operator token starts the item and its version is the canonical form of the version after the token; a failed item has no operator token after which a version reads |
| Specifiers.NonEmptyItems | pre_commit_python_eol/check_eol.py:165 | the items kept after `if s.strip()`: exactly the non-empty ones, and no more items than were given |
| Specifiers.ParseItems | pre_commit_python_eol/check_eol.py:165 | `map(Specifier, items)` drained in order: it succeeds exactly when every item reads, with one clause per item, each that item's clause; otherwise it fails with the error of the first item that does not read |
| Specifiers.Distinct | pre_commit_python_eol/check_eol.py:165 | the frozenset of clauses: no duplicates, and the same clauses as the items |
| Specifiers.ParseSpecifierSet | pre_commit_python_eol/check_eol.py:165 | `SpecifierSet(requires_python)` holds no clause twice; it succeeds exactly when every non-empty stripped comma-separated part reads; its clauses are exactly the clauses those parts read as; a failure is the error of one of those non-empty parts, never of an empty part the filter skips |
| Specifiers.ClauseContains | pre_commit_python_eol/check_eol.py:169 | `>=`, `>`, `<=` and `<` admit a version by the version order; `==` and `!=` compare the zero-stripped releases |
| Specifiers.ClauseContainsCanonical | pre_commit_python_eol/check_eol.py:169 | a clause admits the same versions whether its version is canonical or as written |
| Specifiers.Contains | pre_commit_python_eol/check_eol.py:169 | `v in specs` holds when every clause admits `v`, so an empty set admits every version |
| Specifiers.SplitOperatorOfToken | pre_commit_python_eol/check_eol.py:134 | the operator at the head of a clause is found again from its token |
| Specifiers.ParseClauseOfFormat | pre_commit_python_eol/check_eol.py:140 | a clause printed as operator and version reads back as that operator with the canonical version |
| Specifiers.ParseSingleItem | pre_commit_python_eol/check_eol.py:165 | a single clause without commas or outer whitespace parses to a one-clause set |
| Specifiers.FormatClauseShape | pre_commit_python_eol/check_eol.py:140 | a printed clause is non-empty, has no comma and has no outer whitespace |
| Specifiers.ParseFormatClause | pre_commit_python_eol/check_eol.py:140 | the printed clause `op + str(v)` reads back as the one-clause set of that operator and the canonical version |
| Specifiers.ParseFormatClauses | pre_commit_python_eol/check_eol.py:165 | printed clauses joined by commas read back as those clauses in canonical form, each once |
| Dates.DaysInMonth | pre_commit_python_eol/check_eol.py:58-61 | the month lengths `dt.date` validates against, between 28 and 31 |
| Dates.MakeDate | pre_commit_python_eol/check_eol.py:61 | `dt.date(year, month, day)` returns that date exactly when it is a calendar date in years 1 to 9999; it raises `OverflowError` when a field does not fit in a C `int` and `ValueError` otherwise |
| Dates.FromIsoFormat | pre_commit_python_eol/check_eol.py:57-58 | `date.fromisoformat` on three parts: a date it returns is valid and prints back as the input; it fails only with the format `ValueError`, and then the parts are not four, two and two ASCII digits, or with the range `ValueError`; parts that are not four, two and two ASCII digits always give the format `ValueError` |
| Dates.FromYearMonth | pre_commit_python_eol/check_eol.py:59-61 | `int()` on each part, then `dt.date(year, month, 1)`: a date it returns has year and month read from the parts and day 1; a part `int()` refuses raises its `ValueError`, the year first; when both parts read, the result is `dt.date(year, month, 1)`, so `OverflowError` beyond C `int` and the range `ValueError` for any other pair that names no month |
| Dates.ParseEolDate | pre_commit_python_eol/check_eol.py:47-65 | `_parse_eol_date`: every date returned lies in years 1 to 9999 and exists in the calendar; a three-part date prints back as the input; a two-part date is the first of the month whose year and month are the values of the parts; any part count other than 2 or 3 raises the unknown-format `ValueError` |
| Dates.ParseIsoDate | pre_commit_python_eol/check_eol.py:57-58 | every valid date printed as `YYYY-MM-DD` parses back to itself |
| Dates.ParseYearMonth | pre_commit_python_eol/check_eol.py:59-61 | `YYYY-MM`, with any zero padding on either part, parses to the first of that month |
| Dates.ParseHugeYear | pre_commit_python_eol/check_eol.py:59-61 | a `YYYY-MM` date whose year does not fit in a C `int` raises `OverflowError` |
| Dates.ParseHugeMonth | pre_commit_python_eol/check_eol.py:59-61 | a `YYYY-MM` date whose month does not fit in a C `int` raises `OverflowError` |
| Dates.ParseNoSuchYearMonth | pre_commit_python_eol/check_eol.py:59-61 | numeric `YYYY-MM` fields that fit in a C `int` but name no month, such as year 0, year 10000 or month 0, raise the range `ValueError` |
| Dates.ParseFullDateExample | pre_commit_python_eol/check_eol.py:52 | `"2023-06-27"` is 27 June 2023 |
| Dates.ParseYearMonthExample | pre_commit_python_eol/check_eol.py:53 | `"2023-06"` is 1 June 2023 |
| Dates.ParseUnknownFormatExamples | pre_commit_python_eol/check_eol.py:62-63 | `"2023"` and `"garbage"` raise the unknown-format error |
| Dates.ParseShortMonthExample | pre_commit_python_eol/check_eol.py:57-58 | `"2023-6-27"` is not ISO 8601, and `fromisoformat` refuses it |
| Dates.ParseNoSuchIsoDate | pre_commit_python_eol/check_eol.py:57-58 | any `YYYY-MM-DD` text whose fields name no calendar date raises the range `ValueError` |
| Dates.ParseNoSuchDayExample | pre_commit_python_eol/check_eol.py:57-58 | `"2023-02-30"` is well formed but names no date, so it raises the range `ValueError` |
| Dates.ParseNoSuchMonthExample | pre_commit_python_eol/check_eol.py:59-61 | `"2023-13"` raises the range `ValueError` of `dt.date` |
| Dates.ParseHugeYearExample | pre_commit_python_eol/check_eol.py:59-61 | `"99999999999-01"` raises `OverflowError` |
| Releases.ParsePhase | pre_commit_python_eol/check_eol.py:33-44 | `ReleasePhase(s)` succeeds only on a string that is the value of the phase it returns |
| Releases.ParsePhaseValue | pre_commit_python_eol/check_eol.py:40-44 | every phase is found again from its string value |
| Releases.ParsePhaseClosed | pre_commit_python_eol/check_eol.py:33-44 | `ReleasePhase(s)` succeeds if and only if `s` is one of the five values |
| Releases.FromJson | pre_commit_python_eol/check_eol.py:77-89 | `from_json` succeeds exactly when the version, the status and the date all read. A loaded release has the parsed version, the named status and the parsed date. The errors come in argument order: an invalid version first, then a missing `status`, then an unknown status, then a missing `end_of_life`, then its date error |
| Releases.FromJsonToJson | pre_commit_python_eol/check_eol.py:77-89 | a cache entry written from a release loads back as that release |
| Releases.FromJsonOfIsoEntry | pre_commit_python_eol/check_eol.py:77-89 | an entry with any further keys loads as its release when the date is `YYYY-MM-DD` |
| Releases.FromJsonOfMonthEntry | pre_commit_python_eol/check_eol.py:77-89 | an entry with any further keys loads, with the first of the month, when the date is `YYYY-MM` in any zero padding |
| Releases.FromJsonFeedExample | pre_commit_python_eol/check_eol.py:77-89 | the `3.14` entry of the release-cycle feed, with its `branch`, `pep`, `first_release` and `release_manager` keys (the feed's integer `pep` written as the string `"745"`) and end of life `2030-10`, loads as 3.14, prerelease, 1 October 2030 |
| Releases.IsEol | pre_commit_python_eol/check_eol.py:91-106 | `is_eol`: an `end-of-life` status is end-of-life; without the system date nothing else is; with it, a release is also end-of-life when its date is on or before today |
| Releases.IsEolLater | pre_commit_python_eol/check_eol.py:100-103 | a release that is end-of-life today stays end-of-life on every later day |
| Releases.ParseEntries | pre_commit_python_eol/check_eol.py:120 | `from_json` on each cache item, drained by `sorted`: it succeeds exactly when every item loads, giving one release per item, each the result of `from_json` on it; otherwise the error of the first item that fails |
| Releases.InsertDescending | pre_commit_python_eol/check_eol.py:119-123 | inserting into a descending list keeps it descending and adds exactly the new release |
| Releases.SortDescending | pre_commit_python_eol/check_eol.py:119-123 | `sorted(..., reverse=True)` is descending by version and a permutation of its input |
| Releases.LoadReleaseCycle | pre_commit_python_eol/check_eol.py:108-124 | the cache loads exactly when every item loads, with the same error otherwise; the result is descending and a permutation of the loaded items |
| Releases.SortedDescendingPairwise | pre_commit_python_eol/check_eol.py:108-112 | in the descending cycle every release is at least every later one |
| Releases.SortedAscendingPairwise | pre_commit_python_eol/check_eol.py:175 | in the ascending `eol_supported` every release is at most every later one |
| Releases.UnknownStatusFailsLoad | pre_commit_python_eol/check_eol.py:87 | one cache item with an unknown status makes the whole load fail |
| CheckEol.SelectEolSupported | pre_commit_python_eol/check_eol.py:168-170 | `eol_supported` holds exactly the releases of the cycle that the specifier admits and that are end-of-life, each as often as in the cycle |
| CheckEol.SortByVersion | pre_commit_python_eol/check_eol.py:175 | `eol_supported.sort(key=attrgetter("python_ver"))` leaves the array ascending by version and a permutation of what it held |
| CheckEol.GetFixedSpec | pre_commit_python_eol/check_eol.py:127-140 | `UnsupportedFixError` unless the set is one `>=` clause; `IndexError` on an empty list; otherwise `>=major.(minor+1)` of the last release's version |
| CheckEol.FormatTwoPartVersion | pre_commit_python_eol/check_eol.py:139 | the f-string `f"{major}.{minor}"` is the printed two-segment version |
| CheckEol.CutoffBelowNextMinor | pre_commit_python_eol/check_eol.py:136-139 | the cutoff lies strictly below the new minimum |
| CheckEol.FixedSpecReadsBack | pre_commit_python_eol/check_eol.py:137-140 | the returned string parses as the single clause `>= major.(minor+1)` |
| CheckEol.LowerBoundContains | pre_commit_python_eol/check_eol.py:169 | a one-clause `>=` set admits a version if and only if the version is at or above the bound |
| CheckEol.OverlapBelowNextMinor | pre_commit_python_eol/check_eol.py:136-139 | on an ascending list, every release lies strictly below the new minimum built from the last one |
| CheckEol.NextMinorExcludesOverlap | pre_commit_python_eol/check_eol.py:136-140 | on an ascending list, the new `>=` clause admits none of its releases |
| CheckEol.FixedSpecExcludesAll | pre_commit_python_eol/check_eol.py:175-178 | the repaired specifier, computed on the sorted list, parses and admits none of the end-of-life releases, in whatever order they were selected |
| CheckEol.FixedSpecNarrows | pre_commit_python_eol/check_eol.py:127-140 | when the original specifier admitted the cutoff, the repaired one admits only versions the original admitted |
| CheckEol.GetFixedSpecExample | pre_commit_python_eol/check_eol.py:137-140 | `>=3.8` with 3.8 and 3.9 end-of-life becomes `>=3.10` |
| CheckEol.TwoClauseSpecNotFixed | pre_commit_python_eol/check_eol.py:129-131 | `>=3.8,<4.0` reads as the two clauses `>=3.8` and `<4`, so `get_fixed_spec` raises `UnsupportedFixError` whatever the overlap |
| CheckEol.CheckReleases | pre_commit_python_eol/check_eol.py:168-184 | the outcome is a pass exactly when no release overlaps. In fix mode, a set that is not one `>=` clause fails with `UnsupportedFixError`. Otherwise the outcome lists the overlapping releases ascending and as a permutation; in fix mode it carries `get_fixed_spec` of that list, which excludes them all, and it still raises `EOLPythonError` |
| CheckEol.CheckPythonSupport | pre_commit_python_eol/check_eol.py:143-184 | a missing or empty `requires-python` raises `RequiresPythonNotFoundError`; then the specifier's `InvalidSpecifier`, then a cache load error; otherwise the outcome of `CheckReleases` |

## Left out

- Reading and writing `pyproject.toml` with `tomlkit`, and reading the cache file with `json`: the specifier string and the cache's items come in as parameters, and the rewritten specifier goes out in the outcome.
- The system clock: `dt.datetime.now(dt.timezone.utc).date()` is the parameter `today`. The source reads the clock once for each admitted release that is not already end-of-life, and only without `--cache_only`, so a run that crosses midnight UTC can compare against two different days; the model uses one `today` for the whole list.
- `main`, argument parsing, the printed messages and the exit codes. So are `PythonRelease.__str__` and the text of every exception message; `EOLPythonError` carries the sorted releases in place of the joined string.
- `bump_cache.py` and the network fetch of the release cycle are not part of this model.
- Non-string JSON values in a cache entry: `Metadata` maps strings to strings, so values the source never reads, such as the feed's integer `pep`, are written as strings. The failures such values cause in the source are not modelled: a non-string `status` makes the `ReleasePhase` lookup raise `ValueError`; a non-string or null `end_of_life` makes `date_str.split` raise `AttributeError`; metadata that is not an object (a list, a string, a number) raises `TypeError` when it is indexed.
- Versions.ParseVersion: only dotted decimal release segments. It leaves out packaging's epochs, pre-, post- and dev-releases, local labels, the `v` prefix, surrounding whitespace and letter case. The prerelease rule of `SpecifierSet.contains` therefore never applies.
- Specifiers.ParseSpecifierSet: only the operators `>=`, `>`, `<=`, `<`, `==` and `!=` with a plain version. packaging also reads `~=`, `===` and `.*` wildcards. A `requires-python` such as `~=3.8` or `==3.*` is valid there, but here it ends in `SpecifierFailed`, an outcome the source never produces for it.
- Text.IsSpace: only ASCII whitespace, and Text.ParseNat only ASCII digits. `int()` also accepts a sign, underscores, surrounding whitespace and non-ASCII digits.
- Text.ParseNat: no limit on the number of digits. CPython's `int()` refuses strings of more than 4300 digits by default.
- Dates.ParseEolDate: the three-part branch accepts exactly `YYYY-MM-DD` in ASCII digits. The ISO week form `YYYY-Www-D`, which `date.fromisoformat` accepts since Python 3.11, is rejected.
- Releases.SortDescending and CheckEol.SortByVersion: both are written stably, keeping equal versions in their input order as Python's sort does. Their contracts state order and permutation, not stability.
