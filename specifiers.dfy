/**
 * Version specifiers as `packaging.specifiers.SpecifierSet` reads and
 * evaluates them, restricted to the six comparison operators
 * `>=`, `>`, `<=`, `<`, `==` and `!=` over release-only versions.
 *
 * A specifier set is a comma-separated list of clauses; each item is
 * stripped of whitespace and empty items are dropped.  packaging keeps the
 * clauses in a frozenset keyed by operator and canonical version, so two
 * clauses that differ only in trailing zeros count once (`len(specs)`).
 */
module Specifiers {
  import opened Wrappers
  import opened Text
  import opened Versions

  datatype Operator = GreaterEqual | Greater | LessEqual | Less | Equal | NotEqual

  datatype Clause = Clause(op: Operator, version: Version)

  /** The distinct clauses of a specifier set; a repeated clause is kept at its last position. */
  datatype SpecifierSet = SpecifierSet(clauses: seq<Clause>)

  /** `InvalidSpecifier`, naming the item that could not be read. */
  datatype SpecifierError = InvalidSpecifier(item: string)

  function OperatorToken(op: Operator): string {
    match op
    case GreaterEqual => ">="
    case Greater => ">"
    case LessEqual => "<="
    case Less => "<"
    case Equal => "=="
    case NotEqual => "!="
  }

  predicate StartsWith(s: string, prefix: string) {
    |prefix| <= |s| && s[..|prefix|] == prefix
  }

  /** Splits the leading operator off an item; two-character operators win. */
  function SplitOperator(item: string): (r: Option<(Operator, string)>)
    ensures r.Some? ==> item == OperatorToken(r.value.0) + r.value.1
    ensures r.Some? && (r.value.0 == Greater || r.value.0 == Less) ==> r.value.1 == [] || r.value.1[0] != '='
    ensures r.None? ==> forall op :: !StartsWith(item, OperatorToken(op))
  {
    if item == [] then None
    else
      var twoChars := |item| >= 2 && item[1] == '=';
      match item[0]
      case '>' => if twoChars then Some((GreaterEqual, item[2..])) else Some((Greater, item[1..]))
      case '<' => if twoChars then Some((LessEqual, item[2..])) else Some((Less, item[1..]))
      case '=' => if twoChars then Some((Equal, item[2..])) else None
      case '!' => if twoChars then Some((NotEqual, item[2..])) else None
      case _ => None
  }

  /** The version text after an operator token that `item` starts with. */
  function AfterToken(item: string, op: Operator): string
    requires StartsWith(item, OperatorToken(op))
  {
    StripLeft(item[|OperatorToken(op)|..])
  }

  /**
   * `Specifier(item)`: an operator, optional whitespace, a version.  The
   * clause is read exactly when some operator token starts the item and the
   * rest is a version; the clause keeps that version in canonical form.
   */
  function ParseClause(item: string): (r: Result<Clause, SpecifierError>)
    ensures r.Err? ==> r.error == InvalidSpecifier(item)
  {
    match SplitOperator(item)
    case None => Err(InvalidSpecifier(item))
    case Some((op, rest)) =>
      match ParseVersion(StripLeft(rest))
      case None => Err(InvalidSpecifier(item))
      case Some(v) => Ok(Clause(op, Canonical(v)))
  }

  /**
   * The clause is read exactly when some operator token starts the item and
   * the rest is a version; the clause keeps that version in canonical form.
   */
  lemma ParseClauseReads(item: string)
    ensures var r := ParseClause(item);
      r.Ok? ==>
        && StartsWith(item, OperatorToken(r.value.op))
        && ParseVersion(AfterToken(item, r.value.op)).Some?
        && r.value.version == Canonical(ParseVersion(AfterToken(item, r.value.op)).value)
    ensures ParseClause(item).Err? ==>
      forall op :: StartsWith(item, OperatorToken(op)) ==> ParseVersion(AfterToken(item, op)).None?
  {
    match SplitOperator(item)
    case None =>
    case Some((op, rest)) =>
      assert item[|OperatorToken(op)|..] == rest;
      if ParseVersion(StripLeft(rest)).None? {
        ShorterTokenFails(item, op, rest);
      }
  }

  /** When `>=` or `<=` heads an item, reading it as `>` or `<` leaves `=` before the version. */
  lemma ShorterTokenFails(item: string, op: Operator, rest: string)
    requires SplitOperator(item) == Some((op, rest))
    ensures forall other :: StartsWith(item, OperatorToken(other)) && other != op ==>
      ParseVersion(AfterToken(item, other)).None?
  {
    forall other | StartsWith(item, OperatorToken(other)) && other != op
      ensures ParseVersion(AfterToken(item, other)).None?
    {
      var after := item[|OperatorToken(other)|..];
      assert after != [] && after[0] == '=';
      assert StripLeft(after) == after;
      ParseVersionStartsWithDigit(after);
    }
  }

  /** Each comma-separated part with its outer whitespace removed. */
  function StripItems(parts: seq<string>): (items: seq<string>)
    ensures |items| == |parts| && forall j :: 0 <= j < |parts| ==> items[j] == Strip(parts[j])
  {
    seq(|parts|, j requires 0 <= j < |parts| => Strip(parts[j]))
  }

  /** The non-empty items of a list, in their order. */
  function NonEmptyItems(items: seq<string>): (r: seq<string>)
    ensures |r| <= |items|
    ensures forall x :: x in r <==> x in items && x != []
  {
    if items == [] then []
    else
      var rest := NonEmptyItems(items[1..]);
      assert forall x :: x in items <==> x == items[0] || x in items[1..];
      if items[0] == [] then rest else [items[0]] + rest
  }

  /** `map(read, items)` drained in order: the first item that does not read is the error. */
  function ParseItems<T, E>(items: seq<string>, read: string -> Result<T, E>): (r: Result<seq<T>, E>)
    ensures r.Ok? <==> forall i :: 0 <= i < |items| ==> read(items[i]).Ok?
    ensures r.Ok? ==> |r.value| == |items| && forall i :: 0 <= i < |items| ==> read(items[i]) == Ok(r.value[i])
    ensures r.Err? ==> exists i ::
      && 0 <= i < |items|
      && read(items[i]) == Err(r.error)
      && forall j :: 0 <= j < i ==> read(items[j]).Ok?
  {
    var parsed := seq(|items|, i requires 0 <= i < |items| => read(items[i]));
    assert forall i :: 0 <= i < |items| ==> parsed[i] == read(items[i]);
    Collect(parsed)
  }

  predicate NoDuplicates(clauses: seq<Clause>) {
    forall i, j :: 0 <= i < j < |clauses| ==> clauses[i] != clauses[j]
  }

  /** One copy of each clause: what building a frozenset of them leaves. */
  function Distinct(clauses: seq<Clause>): (r: seq<Clause>)
    ensures NoDuplicates(r)
    ensures forall c :: c in r <==> c in clauses
  {
    if clauses == [] then []
    else
      var rest := Distinct(clauses[1..]);
      if clauses[0] in rest then rest
      else
        [clauses[0]] + rest
  }

  /**
   * `SpecifierSet(s)`: the clauses are those of the non-empty stripped
   * comma-separated items, and it fails when one of those items does not read.
   */
  function ParseSpecifierSet(s: string): (r: Result<SpecifierSet, SpecifierError>)
    ensures r.Ok? ==> NoDuplicates(r.value.clauses)
    ensures r.Ok? <==> forall j :: 0 <= j < |Split(s, ',')| && Strip(Split(s, ',')[j]) != [] ==>
      ParseClause(Strip(Split(s, ',')[j])).Ok?
    ensures r.Ok? ==> forall c :: c in r.value.clauses <==>
      exists j :: 0 <= j < |Split(s, ',')| && ParseClause(Strip(Split(s, ',')[j])) == Ok(c)
    ensures r.Err? ==>
      exists j :: 0 <= j < |Split(s, ',')| && Strip(Split(s, ',')[j]) != [] && ParseClause(Strip(Split(s, ',')[j])) == Err(r.error)
  {
    var parts := Split(s, ',');
    var r := ParseItems(NonEmptyItems(StripItems(parts)), ParseClause);
    ParseItemsOfParts(parts, ParseClause, r);
    match r
    case Ok(clauses) => Ok(SpecifierSet(Distinct(clauses)))
    case Err(e) => Err(e)
  }

  /**
   * What reading every non-empty stripped item with `read` gives, stated
   * in terms of the unstripped parts.
   */
  lemma ParseItemsOfParts<T, E>(parts: seq<string>, read: string -> Result<T, E>, r: Result<seq<T>, E>)
    requires read([]).Err?
    requires r == ParseItems(NonEmptyItems(StripItems(parts)), read)
    ensures r.Ok? <==> forall j :: 0 <= j < |parts| && Strip(parts[j]) != [] ==> read(Strip(parts[j])).Ok?
    ensures r.Ok? ==> forall c :: c in r.value <==> exists j :: 0 <= j < |parts| && read(Strip(parts[j])) == Ok(c)
    ensures r.Err? ==> exists j :: 0 <= j < |parts| && Strip(parts[j]) != [] && read(Strip(parts[j])) == Err(r.error)
  {
    var stripped := StripItems(parts);
    var items := NonEmptyItems(stripped);
    assert forall j :: 0 <= j < |parts| ==> stripped[j] == Strip(parts[j]);
    AllItemsRead(stripped, items, read);
    match r
    case Ok(values) => ValuesOfItems(stripped, items, read, values);
    case Err(e) => ErrorOfItems(stripped, items, read, e);
  }

  lemma AllItemsRead<T, E>(stripped: seq<string>, items: seq<string>, read: string -> Result<T, E>)
    requires items == NonEmptyItems(stripped)
    ensures (forall i :: 0 <= i < |items| ==> read(items[i]).Ok?) <==>
      (forall j :: 0 <= j < |stripped| && stripped[j] != [] ==> read(stripped[j]).Ok?)
  {
    if forall i :: 0 <= i < |items| ==> read(items[i]).Ok? {
      forall j | 0 <= j < |stripped| && stripped[j] != []
        ensures read(stripped[j]).Ok?
      {
        assert stripped[j] in items;
        var i :| 0 <= i < |items| && items[i] == stripped[j];
      }
    } else {
      var i :| 0 <= i < |items| && !read(items[i]).Ok?;
      assert items[i] in stripped;
      var j :| 0 <= j < |stripped| && items[i] == stripped[j];
      assert !read(stripped[j]).Ok?;
    }
  }

  lemma ValuesOfItems<T, E>(stripped: seq<string>, items: seq<string>, read: string -> Result<T, E>, values: seq<T>)
    requires items == NonEmptyItems(stripped)
    requires read([]).Err?
    requires |values| == |items| && forall i :: 0 <= i < |items| ==> read(items[i]) == Ok(values[i])
    ensures forall c :: c in values <==> exists j :: 0 <= j < |stripped| && read(stripped[j]) == Ok(c)
  {
    forall c | c in values
      ensures exists j :: 0 <= j < |stripped| && read(stripped[j]) == Ok(c)
    {
      var i :| 0 <= i < |values| && values[i] == c;
      assert items[i] in stripped;
      var j :| 0 <= j < |stripped| && items[i] == stripped[j];
      assert read(stripped[j]) == Ok(c);
    }
    forall c, j | 0 <= j < |stripped| && read(stripped[j]) == Ok(c)
      ensures c in values
    {
      assert stripped[j] != [];
      assert stripped[j] in items;
      var i :| 0 <= i < |items| && items[i] == stripped[j];
      assert read(items[i]) == Ok(values[i]);
    }
  }

  lemma ErrorOfItems<T, E>(stripped: seq<string>, items: seq<string>, read: string -> Result<T, E>, e: E)
    requires items == NonEmptyItems(stripped)
    requires exists i :: 0 <= i < |items| && read(items[i]) == Err(e)
    ensures exists j :: 0 <= j < |stripped| && stripped[j] != [] && read(stripped[j]) == Err(e)
  {
    var i :| 0 <= i < |items| && read(items[i]) == Err(e);
    assert items[i] in items && items[i] in stripped && items[i] != [];
    var j :| 0 <= j < |stripped| && items[i] == stripped[j];
    assert stripped[j] != [] && read(stripped[j]) == Err(e);
  }

  /** `spec.contains(v)` for one clause, in terms of the version order and the comparison key. */
  function ClauseContains(c: Clause, v: Version): (b: bool)
    ensures c.op == GreaterEqual ==> (b <==> Le(c.version, v))
    ensures c.op == Greater ==> (b <==> Lt(c.version, v))
    ensures c.op == LessEqual ==> (b <==> Le(v, c.version))
    ensures c.op == Less ==> (b <==> Lt(v, c.version))
    ensures c.op == Equal ==> (b <==> StripZeros(v.release) == StripZeros(c.version.release))
    ensures c.op == NotEqual ==> (b <==> StripZeros(v.release) != StripZeros(c.version.release))
  {
    CompareReleaseAntisymmetric(v.release, c.version.release);
    EquivalentIffSameKey(v, c.version);
    var k := Compare(v, c.version);
    match c.op
    case GreaterEqual => k >= 0
    case Greater => k > 0
    case LessEqual => k <= 0
    case Less => k < 0
    case Equal => k == 0
    case NotEqual => k != 0
  }

  /** A clause admits the same versions whether or not its version is canonical. */
  lemma ClauseContainsCanonical(op: Operator, w: Version, v: Version)
    ensures ClauseContains(Clause(op, Canonical(w)), v) == ClauseContains(Clause(op, w), v)
  {
    CompareReleaseIsTupleCompare(v.release, w.release);
    CompareReleaseIsTupleCompare(v.release, Canonical(w).release);
    StripZerosOfCanonicalRelease(w.release);
  }

  /** `v in specs`: every clause admits `v` (an empty set admits every version). */
  function Contains(specs: SpecifierSet, v: Version): (b: bool)
    ensures b <==> forall c :: c in specs.clauses ==> ClauseContains(c, v)
    ensures specs.clauses == [] ==> b
  {
    forall i :: 0 <= i < |specs.clauses| ==> ClauseContains(specs.clauses[i], v)
  }

  /** The one shape a specifier can be repaired from: a single `>=` clause. */
  predicate IsSingleLowerBound(specs: SpecifierSet) {
    |specs.clauses| == 1 && specs.clauses[0].op == GreaterEqual
  }

  /** The text of one clause, as `str(Specifier)` prints it. */
  function FormatClause(op: Operator, v: Version): string
    requires |v.release| >= 1
  {
    OperatorToken(op) + FormatVersion(v)
  }

  lemma SplitOperatorOfToken(op: Operator, rest: string)
    requires rest != [] && IsDigit(rest[0])
    ensures SplitOperator(OperatorToken(op) + rest) == Some((op, rest))
  {
    var item := OperatorToken(op) + rest;
    assert item[|OperatorToken(op)|..] == rest;
  }

  lemma ParseClauseOfFormat(op: Operator, v: Version)
    requires |v.release| >= 1
    ensures ParseClause(FormatClause(op, v)) == Ok(Clause(op, Canonical(v)))
  {
    var text := FormatVersion(v);
    SplitOperatorOfToken(op, text);
    assert !IsSpace(text[0]);
    assert StripLeft(text) == text;
    ParseFormatVersion(v);
    assert ParseVersion(StripLeft(text)) == Some(v);
  }

  lemma NonEmptyItemsSingle(s: string)
    requires Strip(s) == s && s != []
    ensures NonEmptyItems(StripItems([s])) == [s]
  {
    assert StripItems([s]) == [s];
    assert [s][1..] == [];
  }

  lemma ParseItemsSingle(s: string, c: Clause)
    requires ParseClause(s) == Ok(c)
    ensures ParseItems([s], ParseClause) == Ok([c])
  {
    var r := ParseItems([s], ParseClause);
    assert [s][0] == s;
    assert r.Ok? && |r.value| == 1 && r.value[0] == c;
    assert r.value == [c];
  }

  lemma DistinctSingle(c: Clause)
    ensures Distinct([c]) == [c]
  {
    assert [c][1..] == [];
    assert [c] + [] == [c];
  }

  lemma ParseSingleItem(s: string, c: Clause)
    requires ',' !in s && Strip(s) == s && s != []
    requires ParseClause(s) == Ok(c)
    ensures ParseSpecifierSet(s) == Ok(SpecifierSet([c]))
  {
    SplitWithoutSeparator(s, ',');
    NonEmptyItemsSingle(s);
    ParseItemsSingle(s, c);
    DistinctSingle(c);
  }

  /** A printed clause is one comma-free item with no outer whitespace. */
  lemma FormatClauseShape(op: Operator, v: Version)
    requires |v.release| >= 1
    ensures var s := FormatClause(op, v); s != [] && ',' !in s && Strip(s) == s
  {
    var text := FormatVersion(v);
    var s := FormatClause(op, v);
    assert s[|s| - 1] == text[|text| - 1];
    assert forall i :: |OperatorToken(op)| <= i < |s| ==> s[i] == text[i - |OperatorToken(op)|];
    assert ',' !in s;
    StripUnpadded(s);
  }

  /** A printed clause reads back as that clause, with its version canonicalised. */
  lemma ParseFormatClause(op: Operator, v: Version)
    requires |v.release| >= 1
    ensures ParseSpecifierSet(FormatClause(op, v)) == Ok(SpecifierSet([Clause(op, Canonical(v))]))
  {
    FormatClauseShape(op, v);
    ParseClauseOfFormat(op, v);
    ParseSingleItem(FormatClause(op, v), Clause(op, Canonical(v)));
  }

  predicate Printable(clauses: seq<Clause>) {
    forall i :: 0 <= i < |clauses| ==> |clauses[i].version.release| >= 1
  }

  function ClauseTexts(clauses: seq<Clause>): (texts: seq<string>)
    requires Printable(clauses)
  {
    seq(|clauses|, i requires 0 <= i < |clauses| => FormatClause(clauses[i].op, clauses[i].version))
  }

  /** `str(SpecifierSet)`: the printed clauses joined by commas, in the order given. */
  function FormatClauses(clauses: seq<Clause>): string
    requires |clauses| >= 1 && Printable(clauses)
  {
    Join(ClauseTexts(clauses), ',')
  }

  /** Each clause with its version in canonical form. */
  function CanonicalClauses(clauses: seq<Clause>): (r: seq<Clause>)
    ensures |r| == |clauses|
  {
    seq(|clauses|, i requires 0 <= i < |clauses| => Clause(clauses[i].op, Canonical(clauses[i].version)))
  }

  lemma {:induction false} NonEmptyItemsOfNonEmpty(items: seq<string>)
    requires forall i :: 0 <= i < |items| ==> items[i] != []
    ensures NonEmptyItems(items) == items
  {
    if items != [] {
      NonEmptyItemsOfNonEmpty(items[1..]);
      assert [items[0]] + items[1..] == items;
    }
  }

  /**
   * Printed clauses joined by commas read back as the set of those clauses,
   * canonicalised, each once.
   */
  lemma ParseFormatClauses(clauses: seq<Clause>)
    requires |clauses| >= 1 && Printable(clauses)
    ensures ParseSpecifierSet(FormatClauses(clauses)) == Ok(SpecifierSet(Distinct(CanonicalClauses(clauses))))
  {
    var texts := ClauseTexts(clauses);
    var canon := CanonicalClauses(clauses);
    forall i | 0 <= i < |texts|
      ensures texts[i] != [] && ',' !in texts[i] && Strip(texts[i]) == texts[i]
      ensures ParseClause(texts[i]) == Ok(canon[i])
    {
      FormatClauseShape(clauses[i].op, clauses[i].version);
      ParseClauseOfFormat(clauses[i].op, clauses[i].version);
    }
    SplitOfJoin(texts, ',');
    assert StripItems(texts) == texts;
    NonEmptyItemsOfNonEmpty(texts);
    ParseItemsOfReadable(texts, canon);
  }

  /** Items that each read as the matching clause read as those clauses, in order. */
  lemma ParseItemsOfReadable(items: seq<string>, clauses: seq<Clause>)
    requires |items| == |clauses|
    requires forall i :: 0 <= i < |items| ==> ParseClause(items[i]) == Ok(clauses[i])
    ensures ParseItems(items, ParseClause) == Ok(clauses)
  {
    var r := ParseItems(items, ParseClause);
    assert r.Ok?;
    assert r.value == clauses;
  }
}
