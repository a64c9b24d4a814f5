/**
 * The two halves together: the dictionary the Python script writes, looked up by
 * the browser's matcher. On names free of `\r` and of the four separators
 * 0x1C-0x1F, which the cleaners treat differently, a registered name typed back
 * in finds itself.
 */
module Pipeline {

  import opened Wrappers
  import opened CompanyName
  import opened Sponsors
  import opened Utils
  import opened PreprocessSponsors

  /** An empty name cleans to the empty key in both dialects. */
  lemma EmptyNameEmptyKey(d: Dialect)
    ensures Canonicalize(d, "") == ""
  {
    assert Lower("") == "" && RemoveParens(d, "") == "";
    NoSuffixWithoutSpace("");
    assert KeepRetained(d, "") == "";
    assert Trim(d, CollapseRuns(d, "")) == "" && Join(Split(d, "")) == "";
  }

  /** The browser's key for a name is the key the Python script stored for it. */
  lemma BrowserKeyAgrees(name: string)
    requires forall c :: 0 <= c < |name| ==> IsNeutral(name[c])
    ensures CleanedKey(Some(name)) == Canonicalize(Py, name)
  {
    DialectsAgree(name);
    EmptyNameEmptyKey(Py);
  }

  /** Every value stored in the dictionary, typed back in, is matched exactly to itself. */
  lemma StoredNameFindsItself(fieldnames: seq<string>, rows: seq<Row>, i: nat)
    requires Preprocess(fieldnames, rows).Ok?
    requires i < |Preprocess(fieldnames, rows).value.sponsors|
    requires var name := Preprocess(fieldnames, rows).value.sponsors[i].1;
             forall c :: 0 <= c < |name| ==> IsNeutral(name[c])
    ensures var sponsors := Preprocess(fieldnames, rows).value.sponsors;
            Match(Some(sponsors[i].1), sponsors) == Some(sponsors[i].1)
  {
    var orgCol := OrganisationColumn(fieldnames).value;
    var sponsors := Preprocess(fieldnames, rows).value.sponsors;
    BuildEntries(orgCol, RouteColumn(fieldnames), rows);
    BrowserKeyAgrees(sponsors[i].1);
    MatchExact(Some(sponsors[i].1), sponsors, i);
  }

  /**
   * The name on a Skilled Worker row, when no later such row cleans to the same key,
   * is what the matcher returns for that very name.
   */
  lemma RowNameFindsItself(fieldnames: seq<string>, rows: seq<Row>, j: nat)
    requires Preprocess(fieldnames, rows).Ok?
    requires j < |rows|
    requires var orgCol := OrganisationColumn(fieldnames).value;
             Kept(orgCol, RouteColumn(fieldnames), rows[j]) &&
             (forall c :: 0 <= c < |rows[j][orgCol]| ==> IsNeutral(rows[j][orgCol][c])) &&
             forall l :: j < l < |rows| && Kept(orgCol, RouteColumn(fieldnames), rows[l]) ==>
               Canonicalize(Py, rows[l][orgCol]) != Canonicalize(Py, rows[j][orgCol])
    ensures var orgCol := OrganisationColumn(fieldnames).value;
            Match(Some(rows[j][orgCol]), Preprocess(fieldnames, rows).value.sponsors) == Some(rows[j][orgCol])
  {
    var orgCol := OrganisationColumn(fieldnames).value;
    var name := rows[j][orgCol];
    BuildLastWins(orgCol, RouteColumn(fieldnames), rows, j);
    BrowserKeyAgrees(name);
  }
}
