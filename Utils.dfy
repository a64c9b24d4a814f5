/**
 * The browser side of the matcher: the table-filling Levenshtein distance, the
 * canonicaliser `cleanCompanyName`, and `fuzzyMatch`, which looks a scraped
 * company name up in the sponsors dictionary, first exactly and then within a
 * small edit distance.
 */
module Utils {

  import opened Wrappers
  import opened EditDistance
  import opened CompanyName
  import opened Sponsors

  // ---------------------------------------------------------------------------
  // levenshteinDistance

  /**
   * The distance by the classic table: `matrix[i, j]` is the distance between the
   * first `j` characters of `a` and the first `i` of `b`, filled row by row.
   */
  method LevenshteinDistance(a: string, b: string) returns (d: nat)
    ensures d == EditDist(a, b)
  {
    if |a| == 0 {
      return |b|;
    }
    if |b| == 0 {
      return |a|;
    }

    var matrix := new nat[|b| + 1, |a| + 1];

    // increment along the first column of each row
    var i := 0;
    while i <= |b|
      invariant 0 <= i <= |b| + 1
      invariant forall r :: 0 <= r < i ==> matrix[r, 0] == r
    {
      matrix[i, 0] := i;
      i := i + 1;
    }

    // increment each column in the first row
    var j := 0;
    while j <= |a|
      invariant 0 <= j <= |a| + 1
      invariant forall r :: 0 <= r <= |b| ==> matrix[r, 0] == r
      invariant forall c :: 0 <= c < j ==> matrix[0, c] == c
    {
      matrix[0, j] := j;
      j := j + 1;
    }

    forall c | 0 <= c <= |a| ensures matrix[0, c] == Dist(a, b, c, 0) {
    }

    // fill in the rest of the matrix
    i := 1;
    while i <= |b|
      invariant 1 <= i <= |b| + 1
      invariant forall r, c {:trigger matrix[r, c]} :: 0 <= r < i && 0 <= c <= |a| ==> matrix[r, c] == Dist(a, b, c, r)
      invariant forall r :: i <= r <= |b| ==> matrix[r, 0] == r
    {
      FillRow(matrix, a, b, i);
      i := i + 1;
    }

    return matrix[|b|, |a|];
  }

  /**
   * The inner loop of the table: row `i` from row `i - 1` and the row's first cell,
   * leaving the rows above and the first cells below as they were.
   */
  method FillRow(matrix: array2<nat>, a: string, b: string, i: nat)
    requires matrix.Length0 == |b| + 1 && matrix.Length1 == |a| + 1 && 0 < i <= |b|
    requires forall r, c {:trigger matrix[r, c]} :: 0 <= r < i && 0 <= c <= |a| ==> matrix[r, c] == Dist(a, b, c, r)
    requires forall r :: i <= r <= |b| ==> matrix[r, 0] == r
    modifies matrix
    ensures forall r, c {:trigger matrix[r, c]} :: 0 <= r <= i && 0 <= c <= |a| ==> matrix[r, c] == Dist(a, b, c, r)
    ensures forall r :: i < r <= |b| ==> matrix[r, 0] == r
  {
    assert matrix[i, 0] == Dist(a, b, 0, i);
    var j := 1;
    while j <= |a|
      invariant 1 <= j <= |a| + 1
      invariant forall r, c {:trigger matrix[r, c]} :: 0 <= r < i && 0 <= c <= |a| ==> matrix[r, c] == Dist(a, b, c, r)
      invariant forall r :: i < r <= |b| ==> matrix[r, 0] == r
      invariant forall c {:trigger matrix[i, c]} :: 0 <= c < j ==> matrix[i, c] == Dist(a, b, c, i)
    {
      CellValue(a, b, i, j, matrix[i - 1, j - 1], matrix[i, j - 1], matrix[i - 1, j]);
      if b[i - 1] == a[j - 1] {
        matrix[i, j] := matrix[i - 1, j - 1];
      } else {
        matrix[i, j] := Min(matrix[i - 1, j - 1] + 1, // substitution
                            Min(matrix[i, j - 1] + 1, // insertion
                                matrix[i - 1, j] + 1)); // deletion
      }
      assert matrix[i, j] == Dist(a, b, j, i);
      j := j + 1;
    }
  }

  /**
   * One cell of the table from its three neighbours, with the source's shortcut
   * (copy the diagonal) when the two characters agree.
   */
  lemma CellValue(a: string, b: string, i: nat, j: nat, diagonal: nat, left: nat, above: nat)
    requires 0 < i <= |b| && 0 < j <= |a|
    requires diagonal == Dist(a, b, j - 1, i - 1)
    requires left == Dist(a, b, j - 1, i)
    requires above == Dist(a, b, j, i - 1)
    ensures Dist(a, b, j, i) ==
            if b[i - 1] == a[j - 1] then diagonal else Min(diagonal + 1, Min(left + 1, above + 1))
  {
    if b[i - 1] == a[j - 1] {
      MatchShortcut(a, b, j, i);
    }
  }

  // ---------------------------------------------------------------------------
  // cleanCompanyName

  /** The key of a possibly absent name: `!name` (null or empty) gives the empty key. */
  function CleanedKey(name: Option<string>): string {
    match name
    case None => ""
    case Some(s) => if s == "" then "" else Canonicalize(Js, s)
  }

  /** `cleanCompanyName`, reassigning `clean` step by step as the source does. */
  method CleanCompanyName(name: Option<string>) returns (clean: string)
    ensures clean == CleanedKey(name)
    ensures name.None? || name == Some("") ==> clean == ""
    ensures IsCanonical(clean)
  {
    if name.None? || name.value == "" {
      return "";
    }
    clean := Lower(name.value);

    // remove matches in parentheses
    clean := RemoveParens(Js, clean);

    // common suffixes, each tried once, in order, against the current string
    ghost var unbracketed := clean;
    var k := 0;
    while k < |SUFFIXES|
      invariant 0 <= k <= |SUFFIXES|
      invariant clean == StripSuffixes(unbracketed, SUFFIXES[..k])
    {
      var suffix := SUFFIXES[k];
      if EndsWith(clean, suffix) {
        clean := clean[..|clean| - |suffix|];
      }
      assert SUFFIXES[..k + 1][..k] == SUFFIXES[..k];
      k := k + 1;
    }
    assert SUFFIXES[..k] == SUFFIXES;

    // remove special characters and normalise spaces
    clean := KeepRetained(Js, clean);
    clean := Trim(Js, CollapseRuns(Js, clean));
    CanonicalizeIsCanonical(Js, name.value);
  }

  // ---------------------------------------------------------------------------
  // fuzzyMatch

  /** The tolerance: two edits for keys longer than five characters, one otherwise. */
  function MaxDistance(length: nat): (d: nat)
    ensures 1 <= d <= 2
    ensures d == 2 <==> length > 5
  {
    if length > 5 then 2 else 1
  }

  /** The index of the first sponsor whose key is within `maxDistance` edits of `query`. */
  function FirstWithin(query: string, sponsors: seq<Entry>, maxDistance: nat): (r: Option<nat>)
    ensures r.Some? ==> r.value < |sponsors| && EditDist(query, sponsors[r.value].0) <= maxDistance
    decreases |sponsors|
  {
    if sponsors == [] then None
    else if EditDist(query, sponsors[0].0) <= maxDistance then Some(0)
    else match FirstWithin(query, sponsors[1..], maxDistance)
      case None => None
      case Some(i) => Some(i + 1)
  }

  /** `FirstWithin` finds nothing exactly when no key is within tolerance. */
  lemma {:induction false} FirstWithinNone(query: string, sponsors: seq<Entry>, maxDistance: nat)
    ensures FirstWithin(query, sponsors, maxDistance).None? <==>
            forall j :: 0 <= j < |sponsors| ==> EditDist(query, sponsors[j].0) > maxDistance
    decreases |sponsors|
  {
    if sponsors != [] && EditDist(query, sponsors[0].0) > maxDistance {
      var rest := sponsors[1..];
      FirstWithinNone(query, rest, maxDistance);
      forall j | 1 <= j < |sponsors| ensures sponsors[j] == rest[j - 1] { }
    }
  }

  /** `FirstWithin` answers `i` exactly when the `i`-th key is within tolerance and no earlier key is. */
  lemma {:induction false} FirstWithinSome(query: string, sponsors: seq<Entry>, maxDistance: nat, i: nat)
    requires i < |sponsors|
    ensures FirstWithin(query, sponsors, maxDistance) == Some(i) <==>
            EditDist(query, sponsors[i].0) <= maxDistance &&
            forall j :: 0 <= j < i ==> EditDist(query, sponsors[j].0) > maxDistance
    decreases i
  {
    if i > 0 && EditDist(query, sponsors[0].0) > maxDistance {
      var rest := sponsors[1..];
      FirstWithinSome(query, rest, maxDistance, i - 1);
      forall j | 1 <= j <= i ensures sponsors[j] == rest[j - 1] { }
    }
  }

  /**
   * `FirstWithin` finds exactly the first qualifying sponsor: it answers `i` iff the
   * `i`-th key is within tolerance and no earlier key is, and nothing iff no key is.
   */
  lemma FirstWithinSpec(query: string, sponsors: seq<Entry>, maxDistance: nat)
    ensures FirstWithin(query, sponsors, maxDistance).None? <==>
            forall j :: 0 <= j < |sponsors| ==> EditDist(query, sponsors[j].0) > maxDistance
    ensures forall i :: 0 <= i < |sponsors| ==>
              (FirstWithin(query, sponsors, maxDistance) == Some(i) <==>
               EditDist(query, sponsors[i].0) <= maxDistance &&
               forall j :: 0 <= j < i ==> EditDist(query, sponsors[j].0) > maxDistance)
  {
    FirstWithinNone(query, sponsors, maxDistance);
    forall i | 0 <= i < |sponsors|
      ensures FirstWithin(query, sponsors, maxDistance) == Some(i) <==>
              EditDist(query, sponsors[i].0) <= maxDistance &&
              forall j :: 0 <= j < i ==> EditDist(query, sponsors[j].0) > maxDistance
    {
      FirstWithinSome(query, sponsors, maxDistance, i);
    }
  }

  /** The matcher as the value it computes, the partner of the method `FuzzyMatch`. */
  function Match(companyName: Option<string>, sponsors: seq<Entry>): Option<string> {
    var key := CleanedKey(companyName);
    if Lookup(sponsors, key).Some? then Lookup(sponsors, key)
    else if |key| < 3 then None
    else match FirstWithin(key, sponsors, MaxDistance(|key|))
      case None => None
      case Some(i) => Some(sponsors[i].1)
  }

  /**
   * The scan of `fuzzyMatch`, in dictionary order: keys whose length alone puts them
   * out of reach are skipped, and the first key within tolerance is the answer.
   */
  method ScanNearKeys(cleaned: string, sponsors: seq<Entry>, maxDistance: nat) returns (found: Option<nat>)
    ensures found == FirstWithin(cleaned, sponsors, maxDistance)
  {
    var n := 0;
    while n < |sponsors|
      invariant 0 <= n <= |sponsors|
      invariant forall j :: 0 <= j < n ==> EditDist(cleaned, sponsors[j].0) > maxDistance
    {
      var sponsorKey := sponsors[n].0;
      // length check
      var gap := |sponsorKey| - |cleaned|;
      if (if gap < 0 then -gap else gap) > maxDistance {
        LengthLowerBound(cleaned, sponsorKey);
        n := n + 1;
        continue;
      }
      var d := LevenshteinDistance(cleaned, sponsorKey);
      if d <= maxDistance {
        FirstWithinSpec(cleaned, sponsors, maxDistance);
        return Some(n);
      }
      n := n + 1;
    }
    FirstWithinSpec(cleaned, sponsors, maxDistance);
    return None;
  }

  /**
   * `fuzzyMatch`: the exact lookup, then, for keys of three characters or more, the
   * scan with one edit allowed, or two for keys longer than five characters.
   */
  method FuzzyMatch(companyName: Option<string>, sponsors: seq<Entry>) returns (r: Option<string>)
    ensures r == Match(companyName, sponsors)
  {
    var cleaned := CleanCompanyName(companyName);

    // 1. exact match
    var exact := Lookup(sponsors, cleaned);
    if exact.Some? {
      return exact;
    }

    // 2. fuzzy match
    var maxDistance := MaxDistance(|cleaned|);
    if |cleaned| < 3 {
      return None;
    }
    var found := ScanNearKeys(cleaned, sponsors, maxDistance);
    if found.Some? {
      return Some(sponsors[found.value].1);
    }
    return None;
  }

  /** An exact hit wins, whatever the key's length, when the dictionary's keys are distinct. */
  lemma MatchExact(companyName: Option<string>, sponsors: seq<Entry>, i: nat)
    requires DistinctKeys(sponsors) && i < |sponsors|
    requires sponsors[i].0 == CleanedKey(companyName)
    ensures Match(companyName, sponsors) == Some(sponsors[i].1)
  {
    LookupEntry(sponsors, i);
  }

  /** Without an exact hit, keys shorter than three characters match nothing. */
  lemma MatchShortKey(companyName: Option<string>, sponsors: seq<Entry>)
    requires |CleanedKey(companyName)| < 3
    ensures Match(companyName, sponsors).Some? <==>
            exists i :: 0 <= i < |sponsors| && sponsors[i].0 == CleanedKey(companyName)
  {
    LookupSpec(sponsors, CleanedKey(companyName));
  }

  /**
   * Without an exact hit, a key of three or more characters matches the value of the
   * first sponsor within `MaxDistance` edits, and nothing when there is none.
   */
  lemma MatchFuzzy(companyName: Option<string>, sponsors: seq<Entry>)
    requires forall j :: 0 <= j < |sponsors| ==> sponsors[j].0 != CleanedKey(companyName)
    requires |CleanedKey(companyName)| >= 3
    ensures Match(companyName, sponsors).None? <==>
            forall j :: 0 <= j < |sponsors| ==>
              EditDist(CleanedKey(companyName), sponsors[j].0) > MaxDistance(|CleanedKey(companyName)|)
    ensures forall i :: 0 <= i < |sponsors| &&
              EditDist(CleanedKey(companyName), sponsors[i].0) <= MaxDistance(|CleanedKey(companyName)|) &&
              (forall j :: 0 <= j < i ==>
                 EditDist(CleanedKey(companyName), sponsors[j].0) > MaxDistance(|CleanedKey(companyName)|))
              ==> Match(companyName, sponsors) == Some(sponsors[i].1)
  {
    var key := CleanedKey(companyName);
    LookupSpec(sponsors, key);
    FirstWithinSpec(key, sponsors, MaxDistance(|key|));
  }

  /** Whatever the matcher returns is the value of some sponsor whose key is near the cleaned name. */
  lemma MatchFromSponsors(companyName: Option<string>, sponsors: seq<Entry>)
    ensures Match(companyName, sponsors).Some? ==>
            exists i :: 0 <= i < |sponsors| && sponsors[i].1 == Match(companyName, sponsors).value &&
                        EditDist(CleanedKey(companyName), sponsors[i].0) <= 2
  {
    var key := CleanedKey(companyName);
    LookupSpec(sponsors, key);
    if Lookup(sponsors, key).Some? {
      var i :| 0 <= i < |sponsors| && sponsors[i] == (key, Lookup(sponsors, key).value);
      SelfZero(key);
    }
  }
}
