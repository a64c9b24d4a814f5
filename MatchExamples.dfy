/**
 * Worked inputs for the matcher: a misspelt name found by edit distance, a short
 * name that only an exact hit could match, and a key ruled out by length alone.
 */
module MatchExamples {

  import opened Wrappers
  import opened EditDistance
  import opened CompanyName
  import opened Sponsors
  import opened Utils

  /** A single lower-case word is its own key. */
  lemma WordIsKey(w: string)
    requires |w| > 0 && forall k :: 0 <= k < |w| ==> IsKeyChar(w[k])
    ensures CleanedKey(Some(w)) == w
  {
    JoinIsCanonical([w]);
    assert Join([w]) == w;
    assert ' ' !in w by {
      forall k | 0 <= k < |w| ensures w[k] != ' ' {
        assert IsKeyChar(w[k]);
      }
    }
    NoSuffixWithoutSpace(w);
    CanonicalizeFixesKeys(Js, w);
  }

  lemma MisspeltDistance()
    ensures EditDist("micrsoft", "microsoft") <= 1
  {
    InsertOne("micr", "soft", 'o');
    assert "micr" + "soft" == "micrsoft";
    assert "micr" + ['o'] + "soft" == "microsoft";
  }

  /** One dropped letter in an eight-letter name is within the two edits allowed. */
  lemma MisspeltNameMatches()
    ensures Match(Some("micrsoft"), [("microsoft", "Microsoft Ltd")]) == Some("Microsoft Ltd")
  {
    var sponsors := [("microsoft", "Microsoft Ltd")];
    WordIsKey("micrsoft");
    assert "micrsoft" != "microsoft" by {
      assert "micrsoft"[4] != "microsoft"[4];
    }
    assert Lookup(sponsors, "micrsoft") == None;
    MisspeltDistance();
    assert FirstWithin("micrsoft", sponsors, 2) == Some(0);
  }

  /** A two-letter key is never matched by distance, even one edit away. */
  lemma ShortNameNeedsExactHit()
    ensures Match(Some("ab"), [("abc", "ABC Ltd")]) == None
  {
    WordIsKey("ab");
  }

  /** A three-letter key tolerates one edit, so a nine-letter sponsor is out of reach. */
  lemma LengthRulesOut()
    ensures Match(Some("mic"), [("microsoft", "Microsoft Ltd")]) == None
  {
    var sponsors := [("microsoft", "Microsoft Ltd")];
    WordIsKey("mic");
    assert "mic" != "microsoft";
    assert Lookup(sponsors, "mic") == None;
    LengthLowerBound("mic", "microsoft");
    assert FirstWithin("mic", sponsors, 1) == None;
  }
}
