/**
 * The offline side: `clean_company_name`, the Python twin of the browser's
 * canonicaliser, and the part of `preprocess_csv` that picks the organisation and
 * route columns from the CSV header and folds the rows into the dictionary
 * `{cleaned name: original name}`. Rows arrive already parsed; file, CSV, JSON and
 * gzip handling are not part of this model.
 */
module PreprocessSponsors {

  import opened Wrappers
  import opened CompanyName
  import opened Sponsors

  // ---------------------------------------------------------------------------
  // clean_company_name

  /** `clean_company_name`, reassigning `name` step by step as the source does. */
  method CleanCompanyName(name: string) returns (clean: string)
    ensures clean == Canonicalize(Py, name)
    ensures IsCanonical(clean)
  {
    clean := Lower(name);

    // remove content in parentheses
    clean := RemoveParens(Py, clean);

    // remove common legal entity suffixes, each tried once, in order
    ghost var unbracketed := clean;
    var k := 0;
    while k < |SUFFIXES|
      invariant 0 <= k <= |SUFFIXES|
      invariant clean == StripSuffixes(unbracketed, SUFFIXES[..k])
    {
      var suffix := SUFFIXES[k];
      if EndsWith(clean, suffix) {
        clean := clean[..|clean| - |suffix|];
      }
      assert SUFFIXES[..k + 1][..k] == SUFFIXES[..k];
      k := k + 1;
    }
    assert SUFFIXES[..k] == SUFFIXES;

    // remove special characters and extra whitespace
    clean := KeepRetained(Py, clean);
    clean := Join(Split(Py, clean));
    CanonicalizeIsCanonical(Py, name);
  }

  // ---------------------------------------------------------------------------
  // Header detection

  const ORGANISATION_HEADER := "organisation name"
  const ROUTE_HEADER := "route"
  const SKILLED_WORKER := "skilled worker"

  predicate StartsWith(s: string, prefix: string) {
    |prefix| <= |s| && s[..|prefix|] == prefix
  }

  /** Python's substring test `part in s`. */
  predicate Contains(s: string, part: string)
    decreases |s|
  {
    StartsWith(s, part) || (|s| > 0 && Contains(s[1..], part))
  }

  predicate OccursAt(s: string, part: string, i: int) {
    0 <= i && i + |part| <= |s| && s[i..i + |part|] == part
  }

  /** `part in s` holds iff `part` occurs in `s` at some position. */
  lemma {:induction false} ContainsSpec(s: string, part: string)
    ensures Contains(s, part) <==> exists i :: OccursAt(s, part, i)
    decreases |s|
  {
    if StartsWith(s, part) {
      assert OccursAt(s, part, 0);
    } else if |s| > 0 {
      ContainsSpec(s[1..], part);
      if exists i :: OccursAt(s, part, i) {
        var i :| OccursAt(s, part, i);
        assert i > 0;
        assert s[1..][i - 1..i - 1 + |part|] == s[i..i + |part|];
        assert OccursAt(s[1..], part, i - 1);
      }
      if exists i :: OccursAt(s[1..], part, i) {
        var i :| OccursAt(s[1..], part, i);
        assert s[1..][i..i + |part|] == s[i + 1..i + 1 + |part|];
        assert OccursAt(s, part, i + 1);
      }
    }
  }

  predicate IsOrganisationHeader(column: string) {
    Contains(Lower(column), ORGANISATION_HEADER)
  }

  /** The `elif`: a header that names both is taken as the organisation column. */
  predicate IsRouteHeader(column: string) {
    !IsOrganisationHeader(column) && Contains(Lower(column), ROUTE_HEADER)
  }

  /** The last header that qualifies for the organisation column, if any. */
  function OrganisationColumn(fieldnames: seq<string>): Option<string>
    decreases |fieldnames|
  {
    if fieldnames == [] then None
    else if IsOrganisationHeader(fieldnames[|fieldnames| - 1]) then Some(fieldnames[|fieldnames| - 1])
    else OrganisationColumn(fieldnames[..|fieldnames| - 1])
  }

  /** The last header that qualifies for the route column, if any. */
  function RouteColumn(fieldnames: seq<string>): Option<string>
    decreases |fieldnames|
  {
    if fieldnames == [] then None
    else if IsRouteHeader(fieldnames[|fieldnames| - 1]) then Some(fieldnames[|fieldnames| - 1])
    else RouteColumn(fieldnames[..|fieldnames| - 1])
  }

  /**
   * The header loop, reassigning `org_col` and `route_col` as each header is read,
   * so that the last qualifying header of each kind wins.
   */
  method DetectColumns(fieldnames: seq<string>) returns (orgCol: Option<string>, routeCol: Option<string>)
    ensures orgCol == OrganisationColumn(fieldnames)
    ensures routeCol == RouteColumn(fieldnames)
  {
    orgCol, routeCol := None, None;
    var k := 0;
    while k < |fieldnames|
      invariant 0 <= k <= |fieldnames|
      invariant orgCol == OrganisationColumn(fieldnames[..k])
      invariant routeCol == RouteColumn(fieldnames[..k])
    {
      var col := fieldnames[k];
      var lowerCol := Lower(col);
      if Contains(lowerCol, ORGANISATION_HEADER) {
        orgCol := Some(col);
      } else if Contains(lowerCol, ROUTE_HEADER) {
        routeCol := Some(col);
      }
      assert fieldnames[..k + 1][..k] == fieldnames[..k];
      k := k + 1;
    }
    assert fieldnames[..k] == fieldnames;
  }

  /**
   * `OrganisationColumn` answers a header exactly when it qualifies and no later
   * header does, and nothing exactly when no header qualifies; likewise for routes.
   */
  lemma {:induction false} ColumnsSpec(fieldnames: seq<string>)
    ensures OrganisationColumn(fieldnames).None? <==>
            forall k :: 0 <= k < |fieldnames| ==> !IsOrganisationHeader(fieldnames[k])
    ensures OrganisationColumn(fieldnames).Some? ==>
            exists k :: 0 <= k < |fieldnames| && fieldnames[k] == OrganisationColumn(fieldnames).value &&
                        IsOrganisationHeader(fieldnames[k]) &&
                        forall l :: k < l < |fieldnames| ==> !IsOrganisationHeader(fieldnames[l])
    ensures RouteColumn(fieldnames).None? <==>
            forall k :: 0 <= k < |fieldnames| ==> !IsRouteHeader(fieldnames[k])
    ensures RouteColumn(fieldnames).Some? ==>
            exists k :: 0 <= k < |fieldnames| && fieldnames[k] == RouteColumn(fieldnames).value &&
                        IsRouteHeader(fieldnames[k]) &&
                        forall l :: k < l < |fieldnames| ==> !IsRouteHeader(fieldnames[l])
    decreases |fieldnames|
  {
    if fieldnames != [] {
      var init := fieldnames[..|fieldnames| - 1];
      ColumnsSpec(init);
      assert forall k :: 0 <= k < |init| ==> init[k] == fieldnames[k];
    }
  }

  // ---------------------------------------------------------------------------
  // The row loop

  /** A parsed CSV row; a column with no value in a short row is absent from the map. */
  type Row = map<string, string>

  /** Why nothing is produced: no header, no organisation column, or a row lacking a value it needs. */
  datatype PreprocessError = MissingHeaders | MissingOrganisationColumn | MissingValue

  /** The dictionary built and the two counters the script reports. */
  datatype Summary = Summary(sponsors: seq<Entry>, count: nat, skipped: nat)

  /** The route filter: with a route column, a row passes iff its stripped, lower-cased route is "skilled worker". */
  predicate Accepted(routeCol: Option<string>, row: Row) {
    routeCol.None? ||
    (routeCol.value in row && Lower(Trim(Py, row[routeCol.value])) == SKILLED_WORKER)
  }

  predicate Rejected(routeCol: Option<string>, row: Row) {
    routeCol.Some? && routeCol.value in row && Lower(Trim(Py, row[routeCol.value])) != SKILLED_WORKER
  }

  /** A row has every value the loop reads from it: the route, and the name when the route passes. */
  predicate HasValues(orgCol: string, routeCol: Option<string>, row: Row) {
    (routeCol.Some? ==> routeCol.value in row) && (Accepted(routeCol, row) ==> orgCol in row)
  }

  /** A row that adds or overwrites an entry: it passes the filter and its name cleans to a non-empty key. */
  predicate Kept(orgCol: string, routeCol: Option<string>, row: Row) {
    Accepted(routeCol, row) && orgCol in row && Canonicalize(Py, row[orgCol]) != ""
  }

  /** One pass of the loop body over `row`. */
  function Step(orgCol: string, routeCol: Option<string>, acc: Summary, row: Row): Result<Summary, PreprocessError> {
    if routeCol.Some? && routeCol.value !in row then Err(MissingValue)
    else if !Accepted(routeCol, row) then Ok(acc.(skipped := acc.skipped + 1))
    else if orgCol !in row then Err(MissingValue)
    else
      var cleaned := Canonicalize(Py, row[orgCol]);
      if cleaned != "" then Ok(Summary(Put(acc.sponsors, cleaned, row[orgCol]), acc.count + 1, acc.skipped))
      else Ok(acc)
  }

  /** The loop over `rows` from an empty dictionary and zero counters. */
  function Build(orgCol: string, routeCol: Option<string>, rows: seq<Row>): Result<Summary, PreprocessError>
    decreases |rows|
  {
    if rows == [] then Ok(Summary([], 0, 0))
    else match Build(orgCol, routeCol, rows[..|rows| - 1])
      case Err(e) => Err(e)
      case Ok(acc) => Step(orgCol, routeCol, acc, rows[|rows| - 1])
  }

  /** The whole of `preprocess_csv` short of its I/O. */
  function Preprocess(fieldnames: seq<string>, rows: seq<Row>): Result<Summary, PreprocessError> {
    if fieldnames == [] then Err(MissingHeaders)
    else match OrganisationColumn(fieldnames)
      case None => Err(MissingOrganisationColumn)
      case Some(orgCol) => Build(orgCol, RouteColumn(fieldnames), rows)
  }

  /** Once a prefix of the rows fails, the whole run fails the same way. */
  lemma {:induction false} BuildErrPersists(orgCol: string, routeCol: Option<string>, rows: seq<Row>, n: nat)
    requires n <= |rows| && Build(orgCol, routeCol, rows[..n]).Err?
    ensures Build(orgCol, routeCol, rows) == Build(orgCol, routeCol, rows[..n])
    decreases |rows|
  {
    if n < |rows| {
      var init := rows[..|rows| - 1];
      assert init[..n] == rows[..n];
      BuildErrPersists(orgCol, routeCol, init, n);
    } else {
      assert rows[..n] == rows;
    }
  }

  /** The loop's next step: one more row is one more `Step` on a run that has not failed. */
  lemma BuildNext(orgCol: string, routeCol: Option<string>, rows: seq<Row>, n: nat)
    requires n < |rows|
    ensures Build(orgCol, routeCol, rows[..n + 1]) ==
            if Build(orgCol, routeCol, rows[..n]).Err? then Build(orgCol, routeCol, rows[..n])
            else Step(orgCol, routeCol, Build(orgCol, routeCol, rows[..n]).value, rows[n])
  {
    assert rows[..n + 1][..n] == rows[..n];
  }

  /**
   * `preprocess_csv`: check the header, detect the columns, then filter the rows by
   * route and store each non-empty cleaned name, updating the dictionary and the two
   * counters in place.
   */
  method PreprocessCsv(fieldnames: seq<string>, rows: seq<Row>) returns (res: Result<Summary, PreprocessError>)
    ensures res == Preprocess(fieldnames, rows)
  {
    if |fieldnames| == 0 {
      return Err(MissingHeaders);
    }
    var orgCol, routeCol := DetectColumns(fieldnames);
    if orgCol.None? {
      return Err(MissingOrganisationColumn);
    }

    var sponsors: seq<Entry> := [];
    var count := 0;
    var skipped := 0;
    var n := 0;
    while n < |rows|
      invariant 0 <= n <= |rows|
      invariant Build(orgCol.value, routeCol, rows[..n]) == Ok(Summary(sponsors, count, skipped))
    {
      var row := rows[n];
      BuildNext(orgCol.value, routeCol, rows, n);
      if routeCol.Some? {
        if routeCol.value !in row {
          BuildErrPersists(orgCol.value, routeCol, rows, n + 1);
          return Err(MissingValue);
        }
        var routeValue := Trim(Py, row[routeCol.value]);
        if Lower(routeValue) != SKILLED_WORKER {
          assert Step(orgCol.value, routeCol, Summary(sponsors, count, skipped), row) ==
                 Ok(Summary(sponsors, count, skipped + 1));
          skipped := skipped + 1;
          n := n + 1;
          continue;
        }
      }
      if orgCol.value !in row {
        BuildErrPersists(orgCol.value, routeCol, rows, n + 1);
        return Err(MissingValue);
      }
      var originalName := row[orgCol.value];
      var cleaned := CleanCompanyName(originalName);
      assert Accepted(routeCol, row);
      ghost var acc := Summary(sponsors, count, skipped);
      if cleaned != "" {
        assert Step(orgCol.value, routeCol, acc, row) ==
               Ok(Summary(Put(sponsors, cleaned, originalName), count + 1, skipped));
        sponsors := Put(sponsors, cleaned, originalName);
        count := count + 1;
      } else {
        assert Step(orgCol.value, routeCol, acc, row) == Ok(acc);
      }
      n := n + 1;
    }
    assert rows[..n] == rows;
    return Ok(Summary(sponsors, count, skipped));
  }

  // ---------------------------------------------------------------------------
  // What the loop produces

  /** A run fails exactly when some row lacks a value the loop reads, and then with `MissingValue`. */
  lemma {:induction false} BuildErrors(orgCol: string, routeCol: Option<string>, rows: seq<Row>)
    ensures Build(orgCol, routeCol, rows).Err? <==>
            exists j :: 0 <= j < |rows| && !HasValues(orgCol, routeCol, rows[j])
    ensures Build(orgCol, routeCol, rows).Err? ==> Build(orgCol, routeCol, rows).error == MissingValue
    decreases |rows|
  {
    if rows != [] {
      var init := rows[..|rows| - 1];
      BuildErrors(orgCol, routeCol, init);
      assert forall j :: 0 <= j < |init| ==> init[j] == rows[j];
      if exists j :: 0 <= j < |rows| && !HasValues(orgCol, routeCol, rows[j]) {
        var j :| 0 <= j < |rows| && !HasValues(orgCol, routeCol, rows[j]);
        if j < |init| {
          assert !HasValues(orgCol, routeCol, init[j]);
        }
      }
    }
  }

  /** A run that succeeds on all rows succeeds on every prefix of them. */
  lemma BuildInitOk(orgCol: string, routeCol: Option<string>, rows: seq<Row>)
    requires rows != [] && Build(orgCol, routeCol, rows).Ok?
    ensures Build(orgCol, routeCol, rows[..|rows| - 1]).Ok?
  {
  }

  /**
   * Every stored entry has a non-empty canonical key that its value cleans to, and its
   * value is the organisation name of some row kept by the filter.
   */
  ghost predicate EntriesFromRows(orgCol: string, routeCol: Option<string>, rows: seq<Row>, dict: seq<Entry>) {
    forall i :: 0 <= i < |dict| ==>
      dict[i].0 != "" && Canonicalize(Py, dict[i].1) == dict[i].0 &&
      exists j :: 0 <= j < |rows| && Kept(orgCol, routeCol, rows[j]) && rows[j][orgCol] == dict[i].1
  }

  /** Entries taken from a prefix of the rows are taken from the rows. */
  lemma EntriesWiden(orgCol: string, routeCol: Option<string>, rows: seq<Row>, n: nat, dict: seq<Entry>)
    requires n <= |rows| && EntriesFromRows(orgCol, routeCol, rows[..n], dict)
    ensures EntriesFromRows(orgCol, routeCol, rows, dict)
  {
    forall i | 0 <= i < |dict|
      ensures dict[i].0 != "" && Canonicalize(Py, dict[i].1) == dict[i].0
      ensures exists j :: 0 <= j < |rows| && Kept(orgCol, routeCol, rows[j]) && rows[j][orgCol] == dict[i].1
    {
      var j :| 0 <= j < n && Kept(orgCol, routeCol, rows[..n][j]) && rows[..n][j][orgCol] == dict[i].1;
      assert rows[..n][j] == rows[j];
    }
  }

  /** Storing the name of a kept row keeps the entries well formed. */
  lemma EntriesPut(orgCol: string, routeCol: Option<string>, rows: seq<Row>, j: nat, dict: seq<Entry>)
    requires j < |rows| && Kept(orgCol, routeCol, rows[j])
    requires DistinctKeys(dict) && EntriesFromRows(orgCol, routeCol, rows, dict)
    ensures DistinctKeys(Put(dict, Canonicalize(Py, rows[j][orgCol]), rows[j][orgCol]))
    ensures EntriesFromRows(orgCol, routeCol, rows, Put(dict, Canonicalize(Py, rows[j][orgCol]), rows[j][orgCol]))
  {
    var name := rows[j][orgCol];
    var key := Canonicalize(Py, name);
    var p := Put(dict, key, name);
    PutShape(dict, key, name);
    PutEntries(dict, key, name);
    forall i | 0 <= i < |p|
      ensures p[i].0 != "" && Canonicalize(Py, p[i].1) == p[i].0
      ensures exists j :: 0 <= j < |rows| && Kept(orgCol, routeCol, rows[j]) && rows[j][orgCol] == p[i].1
    {
      if p[i] != (key, name) {
        var m :| 0 <= m < |dict| && dict[m] == p[i];
      }
    }
  }

  /** The dictionary built has distinct, non-empty canonical keys, each the cleaned form of its value, taken from a kept row. */
  lemma {:induction false} BuildEntries(orgCol: string, routeCol: Option<string>, rows: seq<Row>)
    requires Build(orgCol, routeCol, rows).Ok?
    ensures DistinctKeys(Build(orgCol, routeCol, rows).value.sponsors)
    ensures EntriesFromRows(orgCol, routeCol, rows, Build(orgCol, routeCol, rows).value.sponsors)
    ensures forall i :: 0 <= i < |Build(orgCol, routeCol, rows).value.sponsors| ==>
              IsCanonical(Build(orgCol, routeCol, rows).value.sponsors[i].0)
    decreases |rows|
  {
    var dict := Build(orgCol, routeCol, rows).value.sponsors;
    if rows != [] {
      var n := |rows| - 1;
      BuildInitOk(orgCol, routeCol, rows);
      BuildEntries(orgCol, routeCol, rows[..n]);
      var acc := Build(orgCol, routeCol, rows[..n]).value.sponsors;
      EntriesWiden(orgCol, routeCol, rows, n, acc);
      if Kept(orgCol, routeCol, rows[n]) {
        EntriesPut(orgCol, routeCol, rows, n, acc);
      }
    }
    forall i | 0 <= i < |dict| ensures IsCanonical(dict[i].0) {
      CanonicalizeIsCanonical(Py, dict[i].1);
    }
  }

  /**
   * `sponsors[cleaned] = original_name` overwrites: a kept row's name is the value
   * stored under its key unless a later kept row cleans to the same key.
   */
  lemma {:induction false} BuildLastWins(orgCol: string, routeCol: Option<string>, rows: seq<Row>, j: nat)
    requires Build(orgCol, routeCol, rows).Ok?
    requires j < |rows| && Kept(orgCol, routeCol, rows[j])
    requires forall l :: j < l < |rows| && Kept(orgCol, routeCol, rows[l]) ==>
               Canonicalize(Py, rows[l][orgCol]) != Canonicalize(Py, rows[j][orgCol])
    ensures Lookup(Build(orgCol, routeCol, rows).value.sponsors, Canonicalize(Py, rows[j][orgCol])) ==
            Some(rows[j][orgCol])
    decreases |rows|
  {
    var n := |rows| - 1;
    var key := Canonicalize(Py, rows[j][orgCol]);
    BuildInitOk(orgCol, routeCol, rows);
    var acc := Build(orgCol, routeCol, rows[..n]).value.sponsors;
    if j == n {
      LookupPut(acc, key, rows[j][orgCol], key);
    } else {
      assert forall l :: 0 <= l < n ==> rows[..n][l] == rows[l];
      BuildLastWins(orgCol, routeCol, rows[..n], j);
      if Kept(orgCol, routeCol, rows[n]) {
        LookupPut(acc, Canonicalize(Py, rows[n][orgCol]), rows[n][orgCol], key);
      }
    }
  }

  /** The indices of the rows that store a name. */
  ghost function KeptRows(orgCol: string, routeCol: Option<string>, rows: seq<Row>): set<int> {
    set j | 0 <= j < |rows| && Kept(orgCol, routeCol, rows[j])
  }

  /** The indices of the rows turned away by the route filter. */
  ghost function RejectedRows(routeCol: Option<string>, rows: seq<Row>): set<int> {
    set j | 0 <= j < |rows| && Rejected(routeCol, rows[j])
  }

  lemma RowSetsNext(orgCol: string, routeCol: Option<string>, rows: seq<Row>)
    requires rows != []
    ensures KeptRows(orgCol, routeCol, rows) ==
            KeptRows(orgCol, routeCol, rows[..|rows| - 1]) +
            (if Kept(orgCol, routeCol, rows[|rows| - 1]) then {|rows| - 1} else {})
    ensures RejectedRows(routeCol, rows) ==
            RejectedRows(routeCol, rows[..|rows| - 1]) +
            (if Rejected(routeCol, rows[|rows| - 1]) then {|rows| - 1} else {})
  {
    assert forall j :: 0 <= j < |rows| - 1 ==> rows[..|rows| - 1][j] == rows[j];
  }

  /** The last row of a successful run stores a name, counts as skipped, or changes nothing. */
  lemma BuildLast(orgCol: string, routeCol: Option<string>, rows: seq<Row>)
    requires rows != [] && Build(orgCol, routeCol, rows).Ok?
    ensures Build(orgCol, routeCol, rows[..|rows| - 1]).Ok?
    ensures var acc := Build(orgCol, routeCol, rows[..|rows| - 1]).value;
            var row := rows[|rows| - 1];
            Build(orgCol, routeCol, rows).value ==
              if Kept(orgCol, routeCol, row) then
                Summary(Put(acc.sponsors, Canonicalize(Py, row[orgCol]), row[orgCol]), acc.count + 1, acc.skipped)
              else if Rejected(routeCol, row) then acc.(skipped := acc.skipped + 1)
              else acc
  {
  }

  /**
   * `count` is the number of rows that stored a name and `skipped_count` the number
   * the route filter turned away, none when there is no route column.
   */
  lemma {:induction false} BuildCounts(orgCol: string, routeCol: Option<string>, rows: seq<Row>)
    requires Build(orgCol, routeCol, rows).Ok?
    ensures Build(orgCol, routeCol, rows).value.count == |KeptRows(orgCol, routeCol, rows)|
    ensures Build(orgCol, routeCol, rows).value.skipped == |RejectedRows(routeCol, rows)|
    ensures routeCol.None? ==> Build(orgCol, routeCol, rows).value.skipped == 0
    decreases |rows|
  {
    if rows != [] {
      var n := |rows| - 1;
      BuildLast(orgCol, routeCol, rows);
      BuildCounts(orgCol, routeCol, rows[..n]);
      RowSetsNext(orgCol, routeCol, rows);
      assert n !in KeptRows(orgCol, routeCol, rows[..n]);
      assert n !in RejectedRows(routeCol, rows[..n]);
    }
  }

  /**
   * There are never more keys than stored names (a repeated key overwrites), and the
   * stored and skipped rows together never outnumber the rows.
   */
  lemma {:induction false} BuildSizes(orgCol: string, routeCol: Option<string>, rows: seq<Row>)
    requires Build(orgCol, routeCol, rows).Ok?
    ensures |Build(orgCol, routeCol, rows).value.sponsors| <= Build(orgCol, routeCol, rows).value.count
    ensures Build(orgCol, routeCol, rows).value.count + Build(orgCol, routeCol, rows).value.skipped <= |rows|
    decreases |rows|
  {
    if rows != [] {
      var n := |rows| - 1;
      BuildLast(orgCol, routeCol, rows);
      BuildSizes(orgCol, routeCol, rows[..n]);
      var acc := Build(orgCol, routeCol, rows[..n]).value;
      if Kept(orgCol, routeCol, rows[n]) {
        BuildEntries(orgCol, routeCol, rows[..n]);
        PutShape(acc.sponsors, Canonicalize(Py, rows[n][orgCol]), rows[n][orgCol]);
      }
    }
  }

  /**
   * The three ways `preprocess_csv` produces nothing: no header at all, no header
   * naming the organisation, or a row lacking a value the loop reads.
   */
  lemma PreprocessErrors(fieldnames: seq<string>, rows: seq<Row>)
    ensures Preprocess(fieldnames, rows) == Err(MissingHeaders) <==> fieldnames == []
    ensures Preprocess(fieldnames, rows) == Err(MissingOrganisationColumn) <==>
            fieldnames != [] && forall k :: 0 <= k < |fieldnames| ==> !IsOrganisationHeader(fieldnames[k])
    ensures Preprocess(fieldnames, rows) == Err(MissingValue) <==>
            fieldnames != [] && OrganisationColumn(fieldnames).Some? &&
            exists j :: 0 <= j < |rows| &&
              !HasValues(OrganisationColumn(fieldnames).value, RouteColumn(fieldnames), rows[j])
  {
    ColumnsSpec(fieldnames);
    if OrganisationColumn(fieldnames).Some? {
      BuildErrors(OrganisationColumn(fieldnames).value, RouteColumn(fieldnames), rows);
    }
  }
}
