/**
 * Worked inputs for the canonicaliser: where the code departs from a plain
 * "strip the legal suffix" reading, and the ASCII characters (`\r` and the four
 * separators 0x1C-0x1F) on which the JavaScript and Python versions disagree.
 */
module CanonicalExamples {

  import opened Wrappers
  import opened CompanyName

  lemma StripSuffixesOneSuffix()
    ensures StripSuffixes("acme ltd", SUFFIXES) == "acme"
  {
    StripSuffixesInOrder("acme ltd");
    var s := "acme ltd";
    assert StripSuffix(s, " limited") == s;
    assert StripSuffix(s, " ltd") == "acme";
    var u := "acme";
    assert StripSuffix(u, " plc") == u;
    assert StripSuffix(u, " llp") == u;
    assert StripSuffix(u, " inc") == u;
    assert StripSuffix(u, " corp") == u;
    assert StripSuffix(u, " corporation") == u;
    assert StripSuffix(u, " gmbh") == u;
    assert StripSuffix(u, " s.a.") == u;
    assert StripSuffix(u, " s.r.l.") == u;
    assert StripSuffix(u, " b.v.") == u;
    assert StripSuffix(u, " n.v.") == u;
    assert StripSuffix(u, " sa") == u;
    assert StripSuffix(u, " sarl") == u;
  }

  /** A canonical key that is its own squeeze. */
  lemma SqueezeKey(k: string)
    requires IsCanonical(k)
    ensures Squeeze(Js, k) == k
  {
    SplitJoinCanonical(Js, k);
    CollapseTrimIsSplitJoin(Js, k);
  }

  lemma AcmeLtdIsKey()
    ensures IsCanonical("acme ltd")
  {
    JoinIsCanonical(["acme", "ltd"]);
    assert Join(["acme", "ltd"]) == "acme" + " " + Join(["ltd"]);
  }

  /** `Canonicalize` as its five steps, so that a worked input can be checked step by step. */
  lemma CanonicalizeVia(d: Dialect, name: string, lowered: string, unbracketed: string,
                        stripped: string, kept: string, key: string)
    requires Lower(name) == lowered
    requires RemoveParens(d, lowered) == unbracketed
    requires StripSuffixes(unbracketed, SUFFIXES) == stripped
    requires KeepRetained(d, stripped) == kept
    requires Squeeze(d, kept) == key
    ensures Canonicalize(d, name) == key
  {
  }

  lemma LowerAcmeLtd()
    ensures Lower("Acme Ltd.") == "acme ltd."
  {
  }

  lemma KeepAcmeLtd()
    ensures KeepRetained(Js, "acme ltd.") == "acme ltd"
  {
    assert "acme ltd." == "acme ltd" + ".";
    KeepRetainedAppend(Js, "acme ltd", ".");
    assert KeepRetained(Js, ".") == "";
    KeepAcmeLtdKey();
    assert "acme ltd" + "" == "acme ltd";
  }

  lemma KeepAcmeLtdKey()
    ensures KeepRetained(Js, "acme ltd") == "acme ltd"
  {
    KeepRetainedAll(Js, "acme ltd");
  }

  lemma FirstPass()
    ensures Canonicalize(Js, "Acme Ltd.") == "acme ltd"
  {
    LowerAcmeLtd();
    RemoveParensNoOpen(Js, "acme ltd.");
    StripSuffixesBeforePunctuation();
    KeepAcmeLtd();
    AcmeLtdIsKey();
    SqueezeKey("acme ltd");
    CanonicalizeVia(Js, "Acme Ltd.", "acme ltd.", "acme ltd.", "acme ltd.", "acme ltd", "acme ltd");
  }

  lemma LowerAcmeLtdKey()
    ensures Lower("acme ltd") == "acme ltd"
  {
    LowerKeepsLower("acme ltd");
  }

  lemma AcmeIsKey()
    ensures IsCanonical("acme") && KeepRetained(Js, "acme") == "acme"
  {
    KeepRetainedAll(Js, "acme");
  }

  lemma SecondPass()
    ensures Canonicalize(Js, "acme ltd") == "acme"
  {
    LowerAcmeLtdKey();
    RemoveParensNoOpen(Js, "acme ltd");
    StripSuffixesOneSuffix();
    AcmeIsKey();
    SqueezeKey("acme");
    CanonicalizeVia(Js, "acme ltd", "acme ltd", "acme ltd", "acme", "acme", "acme");
  }

  /**
   * Canonicalising twice is not canonicalising once: the suffix loop runs before
   * punctuation is removed, so `" ltd."` survives the first pass and `" ltd"` is cut
   * by the second.
   */
  lemma NotIdempotent()
    ensures Canonicalize(Js, "Acme Ltd.") == "acme ltd"
    ensures Canonicalize(Js, Canonicalize(Js, "Acme Ltd.")) == "acme"
  {
    FirstPass();
    SecondPass();
  }

  // ---------------------------------------------------------------------------
  // A bracket after the suffix leaves a space behind, and the space shields the suffix.

  lemma LowerAcmeLtdUk()
    ensures Lower("Acme Ltd (UK)") == "acme ltd (uk)"
  {
  }

  lemma RemoveUkBracket()
    ensures RemoveParens(Js, "acme ltd (uk)") == "acme ltd "
  {
    var q := "(uk)";
    assert CloseAt(Js, q, 1) == Some(3);
    assert q[4..] == [];
    assert "acme ltd (uk)" == "acme ltd " + q;
    RemoveParensPrefix(Js, "acme ltd ", q);
  }

  lemma KeepAcmeLtdSpace()
    ensures KeepRetained(Js, "acme ltd ") == "acme ltd "
  {
    KeepRetainedAll(Js, "acme ltd ");
  }

  lemma CollapseAcmeLtdSpace()
    ensures CollapseRuns(Js, "acme ltd ") == "acme ltd "
  {
    assert DropSpaces(Js, " ") == [];
    assert CollapseRuns(Js, " ") == " ";
    CollapseAfterWord(Js, "ltd", " ");
    assert "ltd" + " " == "ltd ";
    assert DropSpaces(Js, " ltd ") == "ltd ";
    assert CollapseRuns(Js, " ltd ") == " ltd ";
    CollapseAfterWord(Js, "acme", " ltd ");
    assert "acme" + " ltd " == "acme ltd ";
  }

  lemma SqueezeAcmeLtdSpace()
    ensures Squeeze(Js, "acme ltd ") == "acme ltd"
  {
    CollapseAcmeLtdSpace();
    assert DropSpaces(Js, "acme ltd ") == "acme ltd ";
    TrailingSpaceDropped(Js, "acme ltd");
    assert "acme ltd" + " " == "acme ltd ";
  }

  /** The bracket goes, but the space before it stays in place while the suffixes are tried, so `" ltd"` is kept. */
  lemma BracketShieldsSuffix()
    ensures Canonicalize(Js, "Acme Ltd (UK)") == "acme ltd"
  {
    LowerAcmeLtdUk();
    RemoveUkBracket();
    TrailingSpaceBlocksSuffixes("acme ltd");
    assert "acme ltd" + " " == "acme ltd ";
    KeepAcmeLtdSpace();
    SqueezeAcmeLtdSpace();
    CanonicalizeVia(Js, "Acme Ltd (UK)", "acme ltd (uk)", "acme ltd ", "acme ltd ", "acme ltd ", "acme ltd");
  }

  // ---------------------------------------------------------------------------
  // `\r` inside brackets: JavaScript's `.` stops at it, Python's does not.

  lemma JsKeepsBracketWithReturn()
    ensures RemoveParens(Js, "(a\rb)") == "(a\rb)"
  {
    var s := "(a\rb)";
    assert CloseAt(Js, s, 2) == None;
    assert CloseAt(Js, s, 1) == None;
    RemoveParensNoOpen(Js, s[1..]);
  }

  lemma PyDropsBracketWithReturn()
    ensures RemoveParens(Py, "(a\rb)") == ""
  {
    var s := "(a\rb)";
    assert CloseAt(Py, s, 4) == Some(4);
    assert CloseAt(Py, s, 1) == Some(4);
    assert s[5..] == [];
  }

  lemma KeepBracketWithReturn()
    ensures KeepRetained(Js, "(a\rb)") == "a\rb"
  {
    assert "(a\rb)" == "(" + "a\rb" + ")";
    KeepRetainedAppend(Js, "(" + "a\rb", ")");
    KeepRetainedAppend(Js, "(", "a\rb");
    KeepRetainedAll(Js, "a\rb");
  }

  lemma SqueezeReturn()
    ensures Squeeze(Js, "a\rb") == "a b"
  {
    CollapseTrimIsSplitJoin(Js, "a\rb");
    var s := "a\rb";
    assert DropSpaces(Js, s) == s;
    assert TakeWord(Js, s) == "a";
    assert DropSpaces(Js, s[1..]) == "b";
    assert TakeWord(Js, "b") == "b";
    assert Split(Js, "b") == ["b"];
    assert Split(Js, s) == ["a", "b"];
  }

  lemma LowerBracketWithReturn()
    ensures Lower("(a\rb)") == "(a\rb)"
  {
    LowerKeepsLower("(a\rb)");
  }

  lemma StripBracketWithReturn()
    ensures StripSuffixes("(a\rb)", SUFFIXES) == "(a\rb)"
  {
    NoSuffixAtOtherEnd("(a\rb)");
  }

  lemma BracketWithReturnJs()
    ensures Canonicalize(Js, "(a\rb)") == "a b"
  {
    LowerBracketWithReturn();
    JsKeepsBracketWithReturn();
    StripBracketWithReturn();
    KeepBracketWithReturn();
    SqueezeReturn();
    CanonicalizeVia(Js, "(a\rb)", "(a\rb)", "(a\rb)", "(a\rb)", "a\rb", "a b");
  }

  lemma BracketWithReturnPy()
    ensures Canonicalize(Py, "(a\rb)") == ""
  {
    LowerBracketWithReturn();
    PyDropsBracketWithReturn();
    NoSuffixWithoutSpace("");
    assert KeepRetained(Py, "") == "";
    assert Squeeze(Py, "") == "";
    CanonicalizeVia(Py, "(a\rb)", "(a\rb)", "", "", "", "");
  }

  /** A carriage return inside brackets: the browser keeps the text, the builder drops it. */
  lemma BracketWithReturnDisagrees()
    ensures Canonicalize(Js, "(a\rb)") == "a b"
    ensures Canonicalize(Py, "(a\rb)") == ""
  {
    BracketWithReturnJs();
    BracketWithReturnPy();
  }

  // ---------------------------------------------------------------------------
  // 0x1F: whitespace for Python, punctuation for JavaScript.

  lemma SplitUnitSeparator()
    ensures Squeeze(Py, "a\U{001F}b") == "a b"
  {
    var s := "a\U{001F}b";
    assert DropSpaces(Py, s) == s;
    assert TakeWord(Py, s) == "a";
    assert DropSpaces(Py, s[1..]) == "b";
    assert TakeWord(Py, "b") == "b";
    assert Split(Py, "b") == ["b"];
    assert Split(Py, s) == ["a", "b"];
  }

  lemma KeepUnitSeparator()
    ensures KeepRetained(Js, "a\U{001F}b") == "ab"
    ensures KeepRetained(Py, "a\U{001F}b") == "a\U{001F}b"
  {
    assert "a\U{001F}b" == "a" + "\U{001F}" + "b";
    KeepRetainedAppend(Js, "a" + "\U{001F}", "b");
    KeepRetainedAppend(Js, "a", "\U{001F}");
    KeepRetainedAll(Py, "a\U{001F}b");
  }

  /** The first three steps leave the input with the unit separator unchanged. */
  lemma UnitSeparatorUntouched(d: Dialect)
    ensures Lower("a\U{001F}b") == "a\U{001F}b"
    ensures RemoveParens(d, "a\U{001F}b") == "a\U{001F}b"
    ensures StripSuffixes("a\U{001F}b", SUFFIXES) == "a\U{001F}b"
  {
    var s := "a\U{001F}b";
    LowerKeepsLower(s);
    RemoveParensNoOpen(d, s);
    NoSuffixAtOtherEnd(s);
  }

  lemma SqueezeAb()
    ensures Squeeze(Js, "ab") == "ab"
  {
    JoinIsCanonical(["ab"]);
    assert Join(["ab"]) == "ab";
    SqueezeKey("ab");
  }

  lemma UnitSeparatorJs()
    ensures Canonicalize(Js, "a\U{001F}b") == "ab"
  {
    var s := "a\U{001F}b";
    UnitSeparatorUntouched(Js);
    KeepUnitSeparator();
    SqueezeAb();
    CanonicalizeVia(Js, s, s, s, s, "ab", "ab");
  }

  lemma UnitSeparatorPy()
    ensures Canonicalize(Py, "a\U{001F}b") == "a b"
  {
    var s := "a\U{001F}b";
    UnitSeparatorUntouched(Py);
    KeepUnitSeparator();
    SplitUnitSeparator();
    CanonicalizeVia(Py, s, s, s, s, s, "a b");
  }

  /** A unit separator between words: the browser joins them, the builder splits them. */
  lemma UnitSeparatorDisagrees()
    ensures Canonicalize(Js, "a\U{001F}b") == "ab"
    ensures Canonicalize(Py, "a\U{001F}b") == "a b"
  {
    UnitSeparatorJs();
    UnitSeparatorPy();
  }
}
