/**
 * The company-name canonicaliser shared by the matcher (JavaScript) and the
 * dictionary builder (Python). Both run the same five steps: lower-case, delete
 * `(...)` spans non-greedily, strip legal suffixes one after another in a fixed
 * order, delete every character outside `[a-z0-9\s]`, and squeeze whitespace.
 * The two languages differ only in their character classes, so every step takes
 * the `Dialect` it runs in. Characters are classified as ASCII only.
 */
module CompanyName {

  import opened Wrappers

  /** Which runtime's regular-expression and whitespace rules apply. */
  datatype Dialect = Js | Py

  /**
   * Whitespace: `\s` in JavaScript; `\s`, `str.split()` and `str.strip()` in
   * Python, which also count the information separators 0x1C-0x1F.
   */
  predicate IsSpace(d: Dialect, c: char) {
    c == ' ' || ('\t' <= c <= '\r') ||
    (d == Py && 0x1C <= c as int <= 0x1F)
  }

  /** Characters that the regular-expression `.` refuses to match. */
  predicate IsLineTerminator(d: Dialect, c: char) {
    c == '\n' || (d == Js && c == '\r')
  }

  /** Characters allowed in a canonical key besides the single space. */
  predicate IsKeyChar(c: char) {
    'a' <= c <= 'z' || '0' <= c <= '9'
  }

  /** ASCII case folding, standing for `toLowerCase()` and `lower()`. */
  function LowerChar(c: char): char {
    if 'A' <= c <= 'Z' then (c as int + 32) as char else c
  }

  function Lower(s: string): string {
    seq(|s|, i requires 0 <= i < |s| => LowerChar(s[i]))
  }

  // ---------------------------------------------------------------------------
  // Step 2: delete `\(.*?\)` matches, left to right.

  /**
   * Where the lazy `.*?\)` started just after an opening parenthesis ends: the
   * first `)` at or after `i`, unless a line terminator (which `.` cannot match)
   * or the end of the string comes first.
   */
  function CloseAt(d: Dialect, s: string, i: nat): (r: Option<nat>)
    requires i <= |s|
    ensures r.Some? ==> i <= r.value < |s| && s[r.value] == ')' &&
                        forall k :: i <= k < r.value ==> s[k] != ')' && !IsLineTerminator(d, s[k])
    ensures r.None? ==> forall k :: i <= k < |s| && s[k] == ')' ==>
                          exists t :: i <= t < k && IsLineTerminator(d, s[t])
    decreases |s| - i
  {
    if i == |s| then None
    else if s[i] == ')' then Some(i)
    else if IsLineTerminator(d, s[i]) then None
    else CloseAt(d, s, i + 1)
  }

  /** `replace(/\(.*?\)/g, "")` and `re.sub(r'\(.*?\)', '', ...)`. */
  function RemoveParens(d: Dialect, s: string): string
    decreases |s|
  {
    if s == [] then []
    else if s[0] == '(' && CloseAt(d, s, 1).Some? then RemoveParens(d, s[CloseAt(d, s, 1).value + 1..])
    else [s[0]] + RemoveParens(d, s[1..])
  }

  // ---------------------------------------------------------------------------
  // Step 3: legal suffixes.

  /** The suffix list, identical in both sources, in the order it is tried. */
  const SUFFIXES: seq<string> := [
    " limited", " ltd", " plc", " llp", " inc", " corp", " corporation",
    " gmbh", " s.a.", " s.r.l.", " b.v.", " n.v.", " sa", " sarl"
  ]

  predicate EndsWith(s: string, suffix: string) {
    |suffix| <= |s| && s[|s| - |suffix|..] == suffix
  }

  /** One iteration of the suffix loop: cut `suffix` off if `s` ends with it. */
  function StripSuffix(s: string, suffix: string): string {
    if EndsWith(s, suffix) then s[..|s| - |suffix|] else s
  }

  /** The whole suffix loop: every suffix of the list, in order, against the current string. */
  function StripSuffixes(s: string, suffixes: seq<string>): string
    decreases |suffixes|
  {
    if suffixes == [] then s
    else StripSuffix(StripSuffixes(s, suffixes[..|suffixes| - 1]), suffixes[|suffixes| - 1])
  }

  // ---------------------------------------------------------------------------
  // Step 4: `[^a-z0-9\s]` is deleted.

  predicate IsRetained(d: Dialect, c: char) {
    IsKeyChar(c) || IsSpace(d, c)
  }

  function KeepRetained(d: Dialect, s: string): string
    decreases |s|
  {
    if s == [] then []
    else (if IsRetained(d, s[0]) then [s[0]] else []) + KeepRetained(d, s[1..])
  }

  // ---------------------------------------------------------------------------
  // Step 5: whitespace.

  /** The string without its leading whitespace. */
  function DropSpaces(d: Dialect, s: string): (r: string)
    ensures |r| <= |s|
    ensures r == [] || !IsSpace(d, r[0])
    decreases |s|
  {
    if s != [] && IsSpace(d, s[0]) then DropSpaces(d, s[1..]) else s
  }

  /** The string without its trailing whitespace. */
  function DropTrailingSpaces(d: Dialect, s: string): (r: string)
    ensures |r| <= |s| && r == s[..|r|]
    ensures r == [] || !IsSpace(d, r[|r| - 1])
    decreases |s|
  {
    if s != [] && IsSpace(d, s[|s| - 1]) then DropTrailingSpaces(d, s[..|s| - 1]) else s
  }

  /** JavaScript `trim()` and Python `strip()`. */
  function Trim(d: Dialect, s: string): string {
    DropTrailingSpaces(d, DropSpaces(d, s))
  }

  /** `replace(/\s+/g, " ")`: every maximal run of whitespace becomes one space. */
  function CollapseRuns(d: Dialect, s: string): string
    decreases |s|
  {
    if s == [] then []
    else if IsSpace(d, s[0]) then " " + CollapseRuns(d, DropSpaces(d, s))
    else [s[0]] + CollapseRuns(d, s[1..])
  }

  /** The longest prefix free of whitespace. */
  function TakeWord(d: Dialect, s: string): (w: string)
    ensures |w| <= |s| && w == s[..|w|]
    ensures forall k :: 0 <= k < |w| ==> !IsSpace(d, w[k])
    ensures |w| < |s| ==> IsSpace(d, s[|w|])
    decreases |s|
  {
    if s != [] && !IsSpace(d, s[0]) then [s[0]] + TakeWord(d, s[1..]) else []
  }

  /** Python's `str.split()` with no separator. */
  function Split(d: Dialect, s: string): seq<string>
    decreases |s|
  {
    var t := DropSpaces(d, s);
    if t == [] then []
    else
      var w := TakeWord(d, t);
      [w] + Split(d, t[|w|..])
  }

  /** Python's `" ".join(words)`. */
  function Join(words: seq<string>): string
    decreases |words|
  {
    if words == [] then []
    else if |words| == 1 then words[0]
    else words[0] + " " + Join(words[1..])
  }

  /** The last step in each language: collapse-then-trim, or split-then-join. */
  function Squeeze(d: Dialect, s: string): string {
    match d
    case Js => Trim(Js, CollapseRuns(Js, s))
    case Py => Join(Split(Py, s))
  }

  // ---------------------------------------------------------------------------
  // The canonicaliser.

  /** The canonical key of a (present, non-empty) company name. */
  function Canonicalize(d: Dialect, name: string): string {
    var lowered := Lower(name);
    var unbracketed := RemoveParens(d, lowered);
    var stripped := StripSuffixes(unbracketed, SUFFIXES);
    var kept := KeepRetained(d, stripped);
    Squeeze(d, kept)
  }

  /**
   * A canonical key: only `a-z`, `0-9` and spaces, no leading or trailing space,
   * and no two spaces in a row.
   */
  ghost predicate IsCanonical(k: string) {
    (forall i :: 0 <= i < |k| ==> IsKeyChar(k[i]) || k[i] == ' ') &&
    (|k| > 0 ==> IsKeyChar(k[0]) && IsKeyChar(k[|k| - 1])) &&
    (forall i :: 0 <= i < |k| - 1 ==> IsKeyChar(k[i]) || IsKeyChar(k[i + 1]))
  }

  // ---------------------------------------------------------------------------
  // Collapse-then-trim and split-then-join agree.

  lemma {:induction false} DropSpacesSuffix(d: Dialect, s: string)
    ensures DropSpaces(d, s) == s[|s| - |DropSpaces(d, s)|..]
    decreases |s|
  {
    if s != [] && IsSpace(d, s[0]) {
      DropSpacesSuffix(d, s[1..]);
    }
  }

  lemma DropSpacesIdempotent(d: Dialect, s: string)
    ensures DropSpaces(d, DropSpaces(d, s)) == DropSpaces(d, s)
  {
  }

  /** Collapsing commutes with dropping leading whitespace. */
  lemma CollapseDropSpaces(d: Dialect, s: string)
    ensures DropSpaces(d, CollapseRuns(d, s)) == CollapseRuns(d, DropSpaces(d, s))
  {
    if s != [] && IsSpace(d, s[0]) {
      var t := DropSpaces(d, s);
      var x := CollapseRuns(d, t);
      assert CollapseRuns(d, s) == " " + x;
      assert (" " + x)[1..] == x;
      assert DropSpaces(d, " " + x) == DropSpaces(d, x);
      assert t != [] ==> x[0] == t[0];
      assert DropSpaces(d, x) == x;
      DropSpacesIdempotent(d, s);
    }
  }

  /** A leading word passes through `CollapseRuns` untouched. */
  lemma CollapseWord(d: Dialect, s: string)
    ensures CollapseRuns(d, s) == TakeWord(d, s) + CollapseRuns(d, s[|TakeWord(d, s)|..])
  {
    var w := TakeWord(d, s);
    assert s == w + s[|w|..];
    CollapseAfterWord(d, w, s[|w|..]);
  }

  /** Collapsing passes a whitespace-free prefix through unchanged. */
  lemma {:induction false} CollapseAfterWord(d: Dialect, w: string, t: string)
    requires forall k :: 0 <= k < |w| ==> !IsSpace(d, w[k])
    ensures CollapseRuns(d, w + t) == w + CollapseRuns(d, t)
    decreases |w|
  {
    if w == [] {
      assert w + t == t;
    } else {
      var u := w + t;
      assert u[0] == w[0] && u[1..] == w[1..] + t;
      CollapseAfterWord(d, w[1..], t);
      assert w == [w[0]] + w[1..];
    }
  }

  /** Trailing whitespace of `x + y` lies in `y` when `y` has a non-space character. */
  lemma {:induction false} DropTrailingAppend(d: Dialect, x: string, y: string)
    requires DropTrailingSpaces(d, y) != []
    ensures DropTrailingSpaces(d, x + y) == x + DropTrailingSpaces(d, y)
    decreases |y|
  {
    if IsSpace(d, y[|y| - 1]) {
      assert (x + y)[..|x + y| - 1] == x + y[..|y| - 1];
      DropTrailingAppend(d, x, y[..|y| - 1]);
    }
  }

  /** A string that starts with a non-space keeps at least that character when right-trimmed. */
  lemma {:induction false} DropTrailingKeepsFirst(d: Dialect, y: string)
    requires y != [] && !IsSpace(d, y[0])
    ensures DropTrailingSpaces(d, y) != []
    decreases |y|
  {
    if IsSpace(d, y[|y| - 1]) {
      DropTrailingKeepsFirst(d, y[..|y| - 1]);
    }
  }

  /** `Split` on a string that starts with a word: that word, then the words after it. */
  lemma SplitStep(d: Dialect, t: string)
    requires t != [] && !IsSpace(d, t[0])
    ensures Split(d, t) == [TakeWord(d, t)] + Split(d, DropSpaces(d, t[|TakeWord(d, t)|..]))
  {
    var u := t[|TakeWord(d, t)|..];
    DropSpacesIdempotent(d, u);
  }

  /** `CollapseRuns` on a string that starts with a word: that word, then one space per run. */
  lemma CollapseStep(d: Dialect, t: string)
    requires t != [] && !IsSpace(d, t[0])
    ensures var u := t[|TakeWord(d, t)|..];
            CollapseRuns(d, t) == TakeWord(d, t) + (if u == [] then [] else " " + CollapseRuns(d, DropSpaces(d, u)))
  {
    CollapseWord(d, t);
  }

  lemma {:induction false} SqueezeFromWord(d: Dialect, t: string)
    requires t == [] || !IsSpace(d, t[0])
    ensures DropTrailingSpaces(d, CollapseRuns(d, t)) == Join(Split(d, t))
    decreases |t|
  {
    if t != [] {
      var w := TakeWord(d, t);
      var u := t[|w|..];
      var t' := DropSpaces(d, u);
      SplitStep(d, t);
      CollapseStep(d, t);
      SqueezeFromWord(d, t');
      if t' == [] {
        SqueezeLastWord(d, w, u);
      } else {
        SqueezeMiddleWord(d, w, CollapseRuns(d, t'), Split(d, t'));
      }
    }
  }

  lemma SqueezeLastWord(d: Dialect, w: string, u: string)
    requires w != [] && !IsSpace(d, w[|w| - 1])
    ensures DropTrailingSpaces(d, w + (if u == [] then [] else " " + CollapseRuns(d, []))) == Join([w] + Split(d, []))
  {
    assert Join([w] + Split(d, [])) == w by {
      assert Split(d, []) == [];
      assert [w] + Split(d, []) == [w];
    }
    assert CollapseRuns(d, []) == [];
    TrailingSpaceDropped(d, w);
  }

  /** A word followed by at most one space loses exactly that space. */
  lemma TrailingSpaceDropped(d: Dialect, w: string)
    requires w != [] && !IsSpace(d, w[|w| - 1])
    ensures DropTrailingSpaces(d, w) == w
    ensures DropTrailingSpaces(d, w + " ") == w && DropTrailingSpaces(d, w + (" " + [])) == w
  {
    var ws := w + " ";
    assert w + (" " + []) == ws;
    assert ws[..|ws| - 1] == w;
  }

  lemma SqueezeMiddleWord(d: Dialect, w: string, c: string, ws: seq<string>)
    requires c != [] && !IsSpace(d, c[0]) && ws != []
    requires DropTrailingSpaces(d, c) == Join(ws)
    ensures DropTrailingSpaces(d, w + (" " + c)) == Join([w] + ws)
  {
    DropTrailingKeepsFirst(d, c);
    DropTrailingAppend(d, w + " ", c);
    assert w + (" " + c) == (w + " ") + c;
    assert ([w] + ws)[1..] == ws;
  }

  /** JavaScript's `replace(/\s+/g, " ").trim()` is Python's `" ".join(s.split())`. */
  lemma CollapseTrimIsSplitJoin(d: Dialect, s: string)
    ensures Trim(d, CollapseRuns(d, s)) == Join(Split(d, s))
  {
    CollapseDropSpaces(d, s);
    SqueezeFromWord(d, DropSpaces(d, s));
    DropSpacesIdempotent(d, s);
  }

  // ---------------------------------------------------------------------------
  // The canonicaliser's output is a canonical key.

  /** Every word of `Split` is non-empty and made of non-space characters of the input. */
  lemma {:induction false} SplitWords(d: Dialect, s: string)
    ensures forall i :: 0 <= i < |Split(d, s)| ==> |Split(d, s)[i]| > 0
    ensures forall i, k :: 0 <= i < |Split(d, s)| && 0 <= k < |Split(d, s)[i]| ==>
              Split(d, s)[i][k] in s && !IsSpace(d, Split(d, s)[i][k])
    decreases |s|
  {
    var t := DropSpaces(d, s);
    DropSpacesSuffix(d, s);
    if t != [] {
      var w := TakeWord(d, t);
      var u := t[|w|..];
      SplitWords(d, u);
      var ws, ws' := Split(d, s), Split(d, u);
      assert ws == [w] + ws';
      var n := |s| - |t|;
      assert u == s[n + |w|..];
      SuffixChars(s, n);
      SuffixChars(s, n + |w|);
      assert forall k :: 0 <= k < |w| ==> w[k] in t;
      assert forall i :: 1 <= i < |ws| ==> ws[i] == ws'[i - 1];
    }
  }

  /** A character of a suffix of `s` is a character of `s`. */
  lemma SuffixChars(s: string, n: nat)
    requires n <= |s|
    ensures forall c :: c in s[n..] ==> c in s
  {
    forall c | c in s[n..] ensures c in s {
      var j :| 0 <= j < |s[n..]| && s[n..][j] == c;
      assert s[n + j] == c;
    }
  }

  /** Words of key characters joined by single spaces form a canonical key. */
  lemma {:induction false} JoinIsCanonical(words: seq<string>)
    requires forall i :: 0 <= i < |words| ==> |words[i]| > 0
    requires forall i, k :: 0 <= i < |words| && 0 <= k < |words[i]| ==> IsKeyChar(words[i][k])
    ensures IsCanonical(Join(words))
    ensures |words| > 0 ==> |Join(words)| > 0
    decreases |words|
  {
    if |words| > 1 {
      var w, rest := words[0], Join(words[1..]);
      JoinIsCanonical(words[1..]);
      assert Join(words) == w + " " + rest;
      var j := w + " " + rest;
      assert forall i :: 0 <= i < |w| ==> j[i] == w[i];
      assert j[|w|] == ' ';
      assert forall i :: |w| < i < |j| ==> j[i] == rest[i - |w| - 1];
    }
  }

  /** `KeepRetained` leaves only key characters and whitespace, taken from its input. */
  lemma {:induction false} KeepRetainedChars(d: Dialect, s: string)
    ensures forall c :: c in KeepRetained(d, s) ==> c in s && IsRetained(d, c)
    decreases |s|
  {
    if s != [] {
      KeepRetainedChars(d, s[1..]);
    }
  }

  /**
   * Whatever the name, the key has only `a-z`, `0-9` and single inner spaces, with
   * no space at either end.
   */
  lemma CanonicalizeIsCanonical(d: Dialect, name: string)
    ensures IsCanonical(Canonicalize(d, name))
  {
    var kept := KeepRetained(d, StripSuffixes(RemoveParens(d, Lower(name)), SUFFIXES));
    KeepRetainedChars(d, StripSuffixes(RemoveParens(d, Lower(name)), SUFFIXES));
    SplitWords(d, kept);
    JoinIsCanonical(Split(d, kept));
    if d == Js {
      CollapseTrimIsSplitJoin(Js, kept);
    }
  }

  // ---------------------------------------------------------------------------
  // Matching ignores case.

  lemma LowerIdempotent(s: string)
    ensures Lower(Lower(s)) == Lower(s)
  {
  }

  /** Upper- and lower-case spellings of a name have the same key. */
  lemma CanonicalizeIgnoresCase(d: Dialect, name: string)
    ensures Canonicalize(d, Lower(name)) == Canonicalize(d, name)
  {
    LowerIdempotent(name);
  }

  // ---------------------------------------------------------------------------
  // The JavaScript and Python canonicalisers agree, except on `\r` and the four
  // separators 0x1C-0x1F.

  /**
   * A character both runtimes classify alike: `\r` is a line terminator only for
   * JavaScript's `.`, and 0x1C-0x1F are whitespace only for Python.
   */
  predicate IsNeutral(c: char) {
    c != '\r' && !(0x1C <= c as int <= 0x1F)
  }

  ghost predicate AllNeutral(s: string) {
    forall c :: c in s ==> IsNeutral(c)
  }

  lemma {:induction false} CloseAtAgrees(s: string, i: nat)
    requires i <= |s| && AllNeutral(s)
    ensures CloseAt(Js, s, i) == CloseAt(Py, s, i)
    decreases |s| - i
  {
    if i < |s| {
      assert IsNeutral(s[i]) by { assert s[i] in s; }
      CloseAtAgrees(s, i + 1);
    }
  }

  lemma {:induction false} RemoveParensAgrees(s: string)
    requires AllNeutral(s)
    ensures RemoveParens(Js, s) == RemoveParens(Py, s)
    ensures AllNeutral(RemoveParens(Js, s))
    decreases |s|
  {
    if s != [] {
      CloseAtAgrees(s, 1);
      if s[0] == '(' && CloseAt(Js, s, 1).Some? {
        var rest := s[CloseAt(Js, s, 1).value + 1..];
        assert forall c :: c in rest ==> c in s;
        RemoveParensAgrees(rest);
      } else {
        assert forall c :: c in s[1..] ==> c in s;
        RemoveParensAgrees(s[1..]);
      }
    }
  }

  /** The suffix loop only ever shortens the string from the end. */
  lemma {:induction false} StripSuffixesIsPrefix(s: string, suffixes: seq<string>)
    ensures |StripSuffixes(s, suffixes)| <= |s|
    ensures StripSuffixes(s, suffixes) == s[..|StripSuffixes(s, suffixes)|]
    decreases |suffixes|
  {
    if suffixes != [] {
      StripSuffixesIsPrefix(s, suffixes[..|suffixes| - 1]);
    }
  }

  lemma {:induction false} KeepRetainedAgrees(s: string)
    requires AllNeutral(s)
    ensures KeepRetained(Js, s) == KeepRetained(Py, s)
    decreases |s|
  {
    if s != [] {
      assert IsNeutral(s[0]) by { assert s[0] in s; }
      assert forall c :: c in s[1..] ==> c in s;
      KeepRetainedAgrees(s[1..]);
    }
  }

  lemma {:induction false} DropSpacesAgrees(s: string)
    requires AllNeutral(s)
    ensures DropSpaces(Js, s) == DropSpaces(Py, s)
    decreases |s|
  {
    if s != [] {
      assert IsNeutral(s[0]) by { assert s[0] in s; }
      assert forall c :: c in s[1..] ==> c in s;
      DropSpacesAgrees(s[1..]);
    }
  }

  lemma {:induction false} TakeWordAgrees(s: string)
    requires AllNeutral(s)
    ensures TakeWord(Js, s) == TakeWord(Py, s)
    decreases |s|
  {
    if s != [] {
      assert IsNeutral(s[0]) by { assert s[0] in s; }
      assert forall c :: c in s[1..] ==> c in s;
      TakeWordAgrees(s[1..]);
    }
  }

  lemma {:induction false} SplitAgrees(s: string)
    requires AllNeutral(s)
    ensures Split(Js, s) == Split(Py, s)
    decreases |s|
  {
    DropSpacesAgrees(s);
    DropSpacesSuffix(Js, s);
    var t := DropSpaces(Js, s);
    if t != [] {
      assert forall c :: c in t ==> c in s;
      TakeWordAgrees(t);
      var u := t[|TakeWord(Js, t)|..];
      assert forall c :: c in u ==> c in t;
      SplitAgrees(u);
    }
  }

  /**
   * On names free of `\r` and of 0x1C-0x1F the browser's key and the builder's
   * key coincide, within the ASCII character classes modelled here, so a
   * dictionary key built from a name is found again for it.
   */
  lemma DialectsAgree(name: string)
    requires forall i :: 0 <= i < |name| ==> IsNeutral(name[i])
    ensures Canonicalize(Js, name) == Canonicalize(Py, name)
  {
    var lowered := Lower(name);
    assert AllNeutral(lowered);
    RemoveParensAgrees(lowered);
    var unbracketed := RemoveParens(Js, lowered);
    var stripped := StripSuffixes(unbracketed, SUFFIXES);
    StripSuffixesIsPrefix(unbracketed, SUFFIXES);
    assert forall c :: c in stripped ==> c in unbracketed;
    KeepRetainedAgrees(stripped);
    var kept := KeepRetained(Js, stripped);
    KeepRetainedChars(Js, stripped);
    SplitAgrees(kept);
    CollapseTrimIsSplitJoin(Js, kept);
  }

  // ---------------------------------------------------------------------------
  // The suffix loop, spelled out.

  lemma StripSuffixesStep(s: string, suffixes: seq<string>, k: nat)
    requires 0 < k <= |suffixes|
    ensures StripSuffixes(s, suffixes[..k]) == StripSuffix(StripSuffixes(s, suffixes[..k - 1]), suffixes[k - 1])
  {
    assert suffixes[..k][..k - 1] == suffixes[..k - 1];
  }

  /**
   * Every suffix is tried exactly once, in list order, against what the earlier
   * ones left: several can be cut, and a later one can expose an earlier one
   * without that earlier one being tried again.
   */
  lemma StripSuffixesInOrder(s: string)
    ensures StripSuffixes(s, SUFFIXES) ==
      StripSuffix(StripSuffix(StripSuffix(StripSuffix(StripSuffix(StripSuffix(StripSuffix(
      StripSuffix(StripSuffix(StripSuffix(StripSuffix(StripSuffix(StripSuffix(StripSuffix(s,
        " limited"), " ltd"), " plc"), " llp"), " inc"), " corp"), " corporation"),
        " gmbh"), " s.a."), " s.r.l."), " b.v."), " n.v."), " sa"), " sarl")
  {
    assert SUFFIXES[..14] == SUFFIXES;
    assert SUFFIXES[..0] == [];
    StripSuffixesStep(s, SUFFIXES, 14);
    StripSuffixesStep(s, SUFFIXES, 13);
    StripSuffixesStep(s, SUFFIXES, 12);
    StripSuffixesStep(s, SUFFIXES, 11);
    StripSuffixesStep(s, SUFFIXES, 10);
    StripSuffixesStep(s, SUFFIXES, 9);
    StripSuffixesStep(s, SUFFIXES, 8);
    StripSuffixesStep(s, SUFFIXES, 7);
    StripSuffixesStep(s, SUFFIXES, 6);
    StripSuffixesStep(s, SUFFIXES, 5);
    StripSuffixesStep(s, SUFFIXES, 4);
    StripSuffixesStep(s, SUFFIXES, 3);
    StripSuffixesStep(s, SUFFIXES, 2);
    StripSuffixesStep(s, SUFFIXES, 1);
  }

  /** Every listed suffix starts with a space, so a string without one keeps its end. */
  lemma {:induction false} StripSuffixesNoSpace(s: string, suffixes: seq<string>)
    requires ' ' !in s
    requires forall i :: 0 <= i < |suffixes| ==> |suffixes[i]| > 0 && suffixes[i][0] == ' '
    ensures StripSuffixes(s, suffixes) == s
    decreases |suffixes|
  {
    if suffixes != [] {
      var last := suffixes[|suffixes| - 1];
      StripSuffixesNoSpace(s, suffixes[..|suffixes| - 1]);
    }
  }

  lemma SuffixesStartWithSpace()
    ensures forall i :: 0 <= i < |SUFFIXES| ==> |SUFFIXES[i]| > 0 && SUFFIXES[i][0] == ' '
  {
  }

  /** A name with no space left keeps its end: every listed suffix starts with a space. */
  lemma NoSuffixWithoutSpace(s: string)
    requires ' ' !in s
    ensures StripSuffixes(s, SUFFIXES) == s
  {
    SuffixesStartWithSpace();
    StripSuffixesNoSpace(s, SUFFIXES);
  }

  /** No suffix is cut from a string whose last character ends none of them. */
  lemma {:induction false} StripSuffixesOtherEnd(s: string, suffixes: seq<string>)
    requires s != []
    requires forall i :: 0 <= i < |suffixes| ==> |suffixes[i]| > 0 && suffixes[i][|suffixes[i]| - 1] != s[|s| - 1]
    ensures StripSuffixes(s, suffixes) == s
    decreases |suffixes|
  {
    if suffixes != [] {
      StripSuffixesOtherEnd(s, suffixes[..|suffixes| - 1]);
    }
  }

  /** Every listed suffix ends in one of `d c p n h . a l`. */
  lemma SuffixesEndIn()
    ensures forall i :: 0 <= i < |SUFFIXES| ==> |SUFFIXES[i]| > 0 && SUFFIXES[i][|SUFFIXES[i]| - 1] in "dcpnh.al"
  {
  }

  /** A name ending in any other character keeps its end. */
  lemma NoSuffixAtOtherEnd(s: string)
    requires s != [] && s[|s| - 1] !in "dcpnh.al"
    ensures StripSuffixes(s, SUFFIXES) == s
  {
    SuffixesEndIn();
    StripSuffixesOtherEnd(s, SUFFIXES);
  }

  /** Two suffixes in list order are both cut. */
  lemma StripSuffixesTwoInOrder()
    ensures StripSuffixes("acme inc ltd", SUFFIXES) == "acme"
  {
    StripSuffixesInOrder("acme inc ltd");
    var s := "acme inc ltd";
    assert StripSuffix(s, " limited") == s;
    assert StripSuffix(s, " ltd") == "acme inc";
    var t := "acme inc";
    assert StripSuffix(t, " plc") == t;
    assert StripSuffix(t, " llp") == t;
    assert StripSuffix(t, " inc") == "acme";
    var u := "acme";
    assert StripSuffix(u, " corp") == u;
    assert StripSuffix(u, " corporation") == u;
    assert StripSuffix(u, " gmbh") == u;
    assert StripSuffix(u, " s.a.") == u;
    assert StripSuffix(u, " s.r.l.") == u;
    assert StripSuffix(u, " b.v.") == u;
    assert StripSuffix(u, " n.v.") == u;
    assert StripSuffix(u, " sa") == u;
    assert StripSuffix(u, " sarl") == u;
  }

  /** In the other order, the earlier suffix is not tried again once the later one is cut. */
  lemma StripSuffixesTwoOutOfOrder()
    ensures StripSuffixes("acme ltd inc", SUFFIXES) == "acme ltd"
  {
    StripSuffixesInOrder("acme ltd inc");
    var s := "acme ltd inc";
    assert StripSuffix(s, " limited") == s;
    assert StripSuffix(s, " ltd") == s;
    assert StripSuffix(s, " plc") == s;
    assert StripSuffix(s, " llp") == s;
    assert StripSuffix(s, " inc") == "acme ltd";
    var t := "acme ltd";
    assert StripSuffix(t, " corp") == t;
    assert StripSuffix(t, " corporation") == t;
    assert StripSuffix(t, " gmbh") == t;
    assert StripSuffix(t, " s.a.") == t;
    assert StripSuffix(t, " s.r.l.") == t;
    assert StripSuffix(t, " b.v.") == t;
    assert StripSuffix(t, " n.v.") == t;
    assert StripSuffix(t, " sa") == t;
    assert StripSuffix(t, " sarl") == t;
  }

  /** No listed suffix ends in a space, so a trailing space shields the name from the whole loop. */
  lemma TrailingSpaceBlocksSuffixes(s: string)
    ensures StripSuffixes(s + " ", SUFFIXES) == s + " "
  {
    NoSuffixAtOtherEnd(s + " ");
  }

  /** Punctuation is removed only after the suffix loop, so `" ltd."` stays. */
  lemma StripSuffixesBeforePunctuation()
    ensures StripSuffixes("acme ltd.", SUFFIXES) == "acme ltd."
  {
    StripSuffixesInOrder("acme ltd.");
  }

  // ---------------------------------------------------------------------------
  // Keys that are fixed points, and names that are not.

  lemma LowerKeepsLower(s: string)
    requires forall i :: 0 <= i < |s| ==> !('A' <= s[i] <= 'Z')
    ensures Lower(s) == s
  {
  }

  lemma {:induction false} RemoveParensNoOpen(d: Dialect, s: string)
    requires '(' !in s
    ensures RemoveParens(d, s) == s
    decreases |s|
  {
    if s != [] {
      RemoveParensNoOpen(d, s[1..]);
    }
  }

  /** Text before the first opening parenthesis is left alone. */
  lemma {:induction false} RemoveParensPrefix(d: Dialect, p: string, q: string)
    requires '(' !in p
    ensures RemoveParens(d, p + q) == p + RemoveParens(d, q)
    decreases |p|
  {
    if p == [] {
      assert p + q == q;
    } else {
      var s := p + q;
      assert s[0] == p[0] && s[1..] == p[1..] + q;
      RemoveParensPrefix(d, p[1..], q);
      assert p == [p[0]] + p[1..];
    }
  }

  lemma {:induction false} KeepRetainedAll(d: Dialect, s: string)
    requires forall i :: 0 <= i < |s| ==> IsRetained(d, s[i])
    ensures KeepRetained(d, s) == s
    decreases |s|
  {
    if s != [] {
      KeepRetainedAll(d, s[1..]);
    }
  }

  /** What follows a space of a canonical key is a canonical key. */
  lemma CanonicalTail(k: string, n: nat)
    requires IsCanonical(k) && n < |k| && k[n] == ' '
    ensures n + 1 < |k| && IsKeyChar(k[n + 1]) && IsCanonical(k[n + 1..])
  {
    var k' := k[n + 1..];
    assert forall i :: 0 <= i < |k'| ==> k'[i] == k[n + 1 + i];
  }

  /** `Split` of a canonical key with a space: its first word, then `Split` of the rest. */
  lemma SplitCanonicalStep(d: Dialect, k: string)
    requires IsCanonical(k) && k != []
    requires |TakeWord(d, k)| < |k|
    ensures var n := |TakeWord(d, k)|;
            k[n] == ' ' && n + 1 < |k| && IsCanonical(k[n + 1..]) &&
            Split(d, k) == [TakeWord(d, k)] + Split(d, k[n + 1..]) && k[n + 1..] != []
  {
    var w := TakeWord(d, k);
    var n := |w|;
    assert DropSpaces(d, k) == k;
    assert IsSpace(d, k[n]);
    assert k[n] == ' ';
    CanonicalTail(k, n);
    var k' := k[n + 1..];
    assert k[n..][1..] == k';
    assert DropSpaces(d, k[n..]) == DropSpaces(d, k') == k';
  }

  lemma {:induction false} KeepRetainedAppend(d: Dialect, s: string, t: string)
    ensures KeepRetained(d, s + t) == KeepRetained(d, s) + KeepRetained(d, t)
    decreases |s|
  {
    if s != [] {
      assert (s + t)[0] == s[0];
      assert (s + t)[1..] == s[1..] + t;
      KeepRetainedAppend(d, s[1..], t);
      var h := if IsRetained(d, s[0]) then [s[0]] else [];
      assert KeepRetained(d, s + t) == h + (KeepRetained(d, s[1..]) + KeepRetained(d, t));
    } else {
      assert s + t == t;
    }
  }

  /** Squeezing a canonical key gives it back. */
  lemma {:induction false} SplitJoinCanonical(d: Dialect, k: string)
    requires IsCanonical(k)
    ensures Join(Split(d, k)) == k
    decreases |k|
  {
    if k != [] {
      var n := |TakeWord(d, k)|;
      if n < |k| {
        SplitCanonicalStep(d, k);
        SplitJoinCanonical(d, k[n + 1..]);
        SplitJoinStep(d, k);
      } else {
        SplitJoinOneWord(d, k);
      }
    }
  }

  lemma SplitJoinOneWord(d: Dialect, k: string)
    requires k != [] && !IsSpace(d, k[0]) && |TakeWord(d, k)| == |k|
    ensures Join(Split(d, k)) == k
  {
    assert DropSpaces(d, k) == k;
    assert TakeWord(d, k) == k[..|k|] == k;
    assert k[|k|..] == [];
    assert Split(d, k) == [k] + Split(d, []);
  }

  lemma SplitJoinStep(d: Dialect, k: string)
    requires |TakeWord(d, k)| + 1 < |k| && k[|TakeWord(d, k)|] == ' '
    requires Split(d, k) == [TakeWord(d, k)] + Split(d, k[|TakeWord(d, k)| + 1..])
    requires Join(Split(d, k[|TakeWord(d, k)| + 1..])) == k[|TakeWord(d, k)| + 1..] != []
    ensures Join(Split(d, k)) == k
  {
    var w := TakeWord(d, k);
    var k' := k[|w| + 1..];
    var ws := Split(d, k');
    assert ws != [];
    JoinCons(w, ws);
    assert Join(Split(d, k)) == w + " " + k';
    SplitAround(k, |w|);
  }

  lemma SplitAround(s: string, n: nat)
    requires n < |s| && s[n] == ' '
    ensures s == s[..n] + " " + s[n + 1..]
  {
  }

  lemma JoinCons(w: string, ws: seq<string>)
    requires ws != []
    ensures Join([w] + ws) == w + " " + Join(ws)
  {
    assert ([w] + ws)[1..] == ws;
  }

  lemma {:induction false} KeepRetainedShorter(d: Dialect, s: string)
    ensures |KeepRetained(d, s)| <= |s|
    decreases |s|
  {
    if s != [] {
      KeepRetainedShorter(d, s[1..]);
    }
  }

  lemma {:induction false} CollapseRunsShorter(d: Dialect, s: string)
    ensures |CollapseRuns(d, s)| <= |s|
    decreases |s|
  {
    if s != [] {
      if IsSpace(d, s[0]) {
        var t := DropSpaces(d, s[1..]);
        assert DropSpaces(d, s) == t && |t| <= |s| - 1;
        CollapseRunsShorter(d, t);
      } else {
        CollapseRunsShorter(d, s[1..]);
      }
    }
  }

  /** Squeezing whitespace never lengthens a string, in either dialect. */
  lemma SqueezeShorter(d: Dialect, s: string)
    ensures |Squeeze(d, s)| <= |s|
  {
    CollapseRunsShorter(d, s);
    CollapseTrimIsSplitJoin(d, s);
  }

  /**
   * A canonical key that the suffix loop shortens is cut short by the
   * canonicaliser, so it is not its own key.
   */
  lemma CanonicalizeShortensSuffixedKeys(d: Dialect, k: string)
    requires IsCanonical(k) && StripSuffixes(k, SUFFIXES) != k
    ensures |Canonicalize(d, k)| < |k|
  {
    LowerKeepsLower(k);
    assert '(' !in k by {
      forall i | 0 <= i < |k| ensures k[i] != '(' {
        assert IsKeyChar(k[i]) || k[i] == ' ';
      }
    }
    RemoveParensNoOpen(d, k);
    var stripped := StripSuffixes(k, SUFFIXES);
    StripSuffixesIsPrefix(k, SUFFIXES);
    assert |stripped| < |k|;
    KeepRetainedShorter(d, stripped);
    SqueezeShorter(d, KeepRetained(d, stripped));
  }

  /** A string that ends in some listed (non-empty) suffix is changed by the suffix loop. */
  lemma {:induction false} EndingSuffixIsStripped(s: string, suffixes: seq<string>, i: nat)
    requires forall j :: 0 <= j < |suffixes| ==> |suffixes[j]| > 0
    requires i < |suffixes| && EndsWith(s, suffixes[i])
    ensures |StripSuffixes(s, suffixes)| < |s|
    decreases |suffixes|
  {
    var init := suffixes[..|suffixes| - 1];
    var last := suffixes[|suffixes| - 1];
    var t := StripSuffixes(s, init);
    StripSuffixesIsPrefix(s, init);
    if i == |suffixes| - 1 {
      if t == s {
        assert EndsWith(t, last);
      }
    } else {
      assert init[i] == suffixes[i];
      EndingSuffixIsStripped(s, init, i);
    }
  }

  /** A canonical key that ends in one of the listed suffixes comes back shorter. */
  lemma SuffixedKeyShortens(d: Dialect, k: string, i: nat)
    requires IsCanonical(k) && i < |SUFFIXES| && EndsWith(k, SUFFIXES[i])
    ensures |Canonicalize(d, k)| < |k|
  {
    SuffixesStartWithSpace();
    EndingSuffixIsStripped(k, SUFFIXES, i);
    CanonicalizeShortensSuffixedKeys(d, k);
  }

  /** A canonical key is its own key exactly when the suffix loop leaves it alone. */
  lemma CanonicalKeyFixedIff(d: Dialect, k: string)
    requires IsCanonical(k)
    ensures Canonicalize(d, k) == k <==> StripSuffixes(k, SUFFIXES) == k
  {
    if StripSuffixes(k, SUFFIXES) == k {
      CanonicalizeFixesKeys(d, k);
    } else {
      CanonicalizeShortensSuffixedKeys(d, k);
    }
  }

  /**
   * A canonical key that ends in none of the listed suffixes is its own key. The
   * proviso is needed: see `NotIdempotent`.
   */
  lemma CanonicalizeFixesKeys(d: Dialect, k: string)
    requires IsCanonical(k) && StripSuffixes(k, SUFFIXES) == k
    ensures Canonicalize(d, k) == k
  {
    LowerKeepsLower(k);
    RemoveParensNoOpen(d, k);
    KeepRetainedAll(d, k);
    SplitJoinCanonical(d, k);
    if d == Js {
      CollapseTrimIsSplitJoin(Js, k);
    }
  }
}
