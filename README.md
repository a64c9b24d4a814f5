# UK visa sponsor checker: the company-name matcher

This project models the company-name matcher of the UK visa sponsor checker.
The browser extension reads an employer's name off a page and looks it up in a
dictionary of the companies licensed to sponsor Skilled Worker visas. An offline
Python script builds that dictionary from the government's CSV register.

The model covers four pieces:

- **`levenshteinDistance`** (utils.js) is the dynamic-programming edit distance.
  - `Utils.LevenshteinDistance` fills an `array2<nat>` row by row, as the source fills `matrix`.
  - It is proved equal to the recursive insert/delete/substitute distance `EditDistance.EditDist`.
  - `EditDist` is defined on prefixes by `Dist(a, b, i, j)`.
- **`cleanCompanyName`** (utils.js) and **`clean_company_name`** (preprocess_sponsors.py) are the two canonicalisers. Each lower-cases the name, deletes `(...)` spans lazily, tries each legal suffix once in list order, deletes everything outside `[a-z0-9\s]`, and squeezes whitespace.
  - `CompanyName.Canonicalize` is their common definition, parameterised by a `Dialect`: `Js` or `Py`.
  - The dialect decides which characters are whitespace and which a regular-expression `.` refuses to match.
  - `Utils.CleanCompanyName` and `PreprocessSponsors.CleanCompanyName` reassign the string step by step, as the sources do, including the loop over the suffix list.
- **`fuzzyMatch`** (utils.js) looks the cleaned name up exactly first.
  - If that fails and the key has at least three characters, it scans the keys in dictionary order.
  - Keys whose length alone puts them out of reach are skipped.
  - The value of the first key within one edit is returned, or within two when the key is longer than five characters.
  - `Utils.FuzzyMatch` is proved equal to the function `Utils.Match`, whose behaviour the `Match*` lemmas characterise.
- **`preprocess_csv`** (preprocess_sponsors.py), without its I/O: the header loop that picks the organisation and route columns, and the row loop.
  - The row loop filters on the Skilled Worker route, cleans each name, and stores `{cleaned: original}`. A later row overwrites an earlier one with the same key.
  - It counts the stored rows and the rows skipped.
  - `PreprocessSponsors.PreprocessCsv` is proved equal to the function `Preprocess`.

The dictionary is a sequence of `(key, value)` pairs in iteration order (`Sponsors`).
- Assigning an existing key keeps its place, as a Python `dict` does.
- A parsed JSON object is visited by `for...in` in that same order.
- A CSV row is a `map` from column to value. A column missing from a short row is absent from the map.

The `Pipeline` lemmas join the two halves. A name stored by the builder, typed back into the browser, is matched to itself. Within the ASCII character classes modelled here, this holds when the name avoids `\r` and the four separators 0x1C-0x1F, which the cleaners treat differently. Non-ASCII characters on which the runtimes also differ are listed under "## Left out".

Behaviour of the code that a reader might not expect:

- **The suffix loop does not stop at the first match.** Every suffix is tried once, in list order, against what the earlier ones left.
  - `"acme inc ltd"` loses both suffixes.
  - `"acme ltd inc"` keeps `" ltd"`.
- **Suffixes are tried before punctuation and brackets are cleaned up.**
  - `"Acme Ltd."` gives `"acme ltd"`.
  - `"Acme Ltd (UK)"` gives `"acme ltd"`: the space left in front of the deleted bracket shields the suffix.
  - `"Foo Ltd (UK)"` and `"FOO LTD."` both give `"foo ltd"`, not `"foo"`.
- **Canonicalisation is therefore not idempotent.** The key `"acme ltd"` canonicalises to `"acme"`. A canonical key comes back unchanged exactly when the suffix loop leaves it alone (`CanonicalKeyFixedIff`); one that ends in a listed suffix comes back shorter (`SuffixedKeyShortens`).
- **The browser and the builder disagree on `\r` and on the four separators 0x1C-0x1F.**
  - JavaScript's `.` stops at `\r`, so a bracket holding a carriage return is kept by the browser and deleted by the builder.
  - Python counts 0x1C-0x1F as whitespace, so `"a\x1fb"` becomes `"a b"` for the builder and `"ab"` for the browser.
  - On every other ASCII name the two cleaners agree (`DialectsAgree`). Some non-ASCII characters also separate them; see "## Left out".
- **Keys of exactly three characters are fuzzy-matched.** The comment in `fuzzyMatch` says "provided length > 3", but the code rejects only lengths below 3.

## Model

| member | source | states |
|---|---|---|
| Utils.LevenshteinDistance | utils.js:7-41 | the value returned is the edit distance of `a` and `b`; with an empty string it is the other string's length |
| Utils.FillRow | utils.js:24-38 | after row `i` is filled, `matrix[r][c]` is the distance between `b[..r]` and `a[..c]` for every `r <= i` and every column `c`; the first cells of later rows are untouched |
| Utils.CellValue | utils.js:26-35 | the cell rule, including the copy of the diagonal when the characters agree, gives the edit distance of the two prefixes |
| EditDistance.Dist | utils.js:24-38 | the distance between `a[..i]` and `b[..j]`: `j` or `i` when the other prefix is empty, else the least of substituting the last characters (free when equal), deleting one, or inserting one |
| EditDistance.EditDist | utils.js:40 | the distance between the whole strings, the cell in the bottom-right corner of the table the source returns |
| EditDistance.MatchShortcut | utils.js:26-27 | when the last characters agree, the distance equals the distance without them, with no minimum taken |
| EditDistance.LengthLowerBound | utils.js:104 | the distance is at least the difference of the lengths, so the length check skips only keys that could not qualify |
| EditDistance.Symmetric | utils.js:7-41 | the distance does not depend on the order of the two strings |
| EditDistance.ZeroIffEqual | utils.js:7-41 | the distance is 0 exactly when the strings are equal |
| EditDistance.SelfZero | utils.js:7-41 | a string is at distance 0 from itself |
| EditDistance.DistUpperBound | utils.js:7-41 | the distance between prefixes of lengths `i` and `j` is at most `max(i, j)` |
| EditDistance.InsertOne | utils.js:109 | inserting one character anywhere costs at most one edit |
| EditDistance.DistPrefix | utils.js:7-41 | the distance between two prefixes depends on nothing beyond them |
| Utils.CleanCompanyName | utils.js:48-72 | the result is the canonical key of the name; absent or empty input gives `""`; the result has only `a-z`, `0-9` and single inner spaces |
| CompanyName.IsSpace | utils.js:69 | whitespace: space and `\t`-`\r` for JavaScript's `\s`; for Python's `split()`, `strip()` and `\s` also 0x1C-0x1F |
| CompanyName.IsLineTerminator | utils.js:53 | the ASCII characters a regex `.` does not match: `\n` in Python, `\n` and `\r` in JavaScript (JavaScript's U+2028 and U+2029 are left out) |
| CompanyName.IsKeyChar | utils.js:68 | the characters of `[a-z0-9]` |
| CompanyName.IsRetained | utils.js:68 | the characters outside `[^a-z0-9\s]`, which the deletion keeps |
| CompanyName.LowerChar | utils.js:50 | `A`-`Z` mapped to `a`-`z`, every other character unchanged |
| CompanyName.Lower | utils.js:50 | `LowerChar` applied to every character |
| CompanyName.RemoveParens | utils.js:53 | the global lazy `\(.*?\)` replacement: scanning left to right, each `(` with a closing `)` found by `CloseAt` is deleted through that `)`, and every other character is kept |
| CompanyName.EndsWith | utils.js:62 | `endsWith`: the suffix is no longer than the string and equals its tail |
| CompanyName.StripSuffix | utils.js:62-64 | one iteration: the suffix is cut off when the current string ends with it |
| CompanyName.StripSuffixes | utils.js:61-65 | the loop: `StripSuffix` applied for each suffix of the list in turn, to the string the previous ones left |
| CompanyName.KeepRetained | utils.js:68 | the string with every character outside `[a-z0-9\s]` deleted, the rest in order |
| CompanyName.DropSpaces | utils.js:69 | the string without its leading whitespace |
| CompanyName.DropTrailingSpaces | utils.js:69 | the string without its trailing whitespace |
| CompanyName.Trim | utils.js:69 | `trim()`/`strip()`: both ends' whitespace removed |
| CompanyName.CollapseRuns | utils.js:69 | `replace(/\s+/g, " ")`: each maximal whitespace run replaced by one space |
| CompanyName.TakeWord | preprocess_sponsors.py:29 | the longest whitespace-free prefix |
| CompanyName.Split | preprocess_sponsors.py:29 | `split()` with no separator: the maximal whitespace-free runs, in order |
| CompanyName.Join | preprocess_sponsors.py:29 | `" ".join(words)` |
| CompanyName.Squeeze | utils.js:69 | the last step in each language: collapse-then-trim for JavaScript, split-then-join for Python |
| CompanyName.Canonicalize | utils.js:50-69 | lower-case, delete brackets, run the suffix loop, delete other characters, squeeze whitespace, in that order |
| CompanyName.IsCanonical | utils.js:68-69 | only `a-z`, `0-9` and spaces, a key character at both ends, and no two spaces in a row |
| CompanyName.SqueezeShorter | utils.js:69 | squeezing whitespace never lengthens a string, in either dialect |
| CompanyName.CanonicalizeShortensSuffixedKeys | utils.js:48-72 | a canonical key that the suffix loop shortens comes back strictly shorter |
| CompanyName.EndingSuffixIsStripped | utils.js:61-65 | a string that ends in any one of the (non-empty) suffixes is shortened by the loop, whatever the earlier suffixes did |
| CompanyName.SuffixedKeyShortens | utils.js:48-72 | a canonical key that ends in one of the fourteen listed suffixes comes back strictly shorter |
| CompanyName.CanonicalKeyFixedIff | utils.js:48-72 | a canonical key is its own key exactly when the suffix loop leaves it unchanged |
| CompanyName.CloseAt | utils.js:53 | the lazy `.*?\)` ends at the first `)` with no line terminator before it; with no such `)`, every `)` has a line terminator before it |
| CompanyName.RemoveParensPrefix | utils.js:53 | text before the first `(` is left unchanged by bracket removal |
| CompanyName.CanonicalizeIsCanonical | utils.js:68-69 | every key, in both dialects, has only `a-z`, `0-9` and spaces, no space at either end, and no two spaces in a row |
| CompanyName.CollapseTrimIsSplitJoin | utils.js:69 | collapsing whitespace runs and trimming gives the same string as Python's split-and-join |
| CompanyName.CanonicalizeIgnoresCase | utils.js:50 | a name and its lower-cased form have the same key |
| CompanyName.LowerIdempotent | utils.js:50 | lower-casing twice is lower-casing once |
| CompanyName.StripSuffixesInOrder | utils.js:56-65 | the suffix loop is the fourteen single-suffix strips composed in list order, each tried once against the current string |
| CompanyName.StripSuffixesTwoInOrder | utils.js:61-65 | `"acme inc ltd"` loses both suffixes, since `" inc"` comes after `" ltd"` in the list |
| CompanyName.StripSuffixesTwoOutOfOrder | utils.js:61-65 | `"acme ltd inc"` loses only `" inc"`, since `" ltd"` is not tried again |
| CompanyName.StripSuffixesBeforePunctuation | utils.js:61-68 | `"acme ltd."` keeps its suffix: punctuation is removed only after the suffix loop |
| CompanyName.TrailingSpaceBlocksSuffixes | utils.js:61-65 | a string ending in a space loses no suffix |
| CompanyName.NoSuffixWithoutSpace | utils.js:56-65 | a string with no space loses no suffix |
| CompanyName.NoSuffixAtOtherEnd | utils.js:56-65 | a string whose last character ends none of the suffixes loses no suffix |
| CompanyName.CanonicalizeFixesKeys | utils.js:48-72 | a canonical key that ends in no listed suffix is its own key |
| CompanyName.SplitJoinCanonical | preprocess_sponsors.py:29 | splitting and joining a canonical key gives it back |
| CompanyName.SplitWords | preprocess_sponsors.py:29 | every word of `split()` is non-empty and made of non-whitespace characters of the input |
| CompanyName.JoinIsCanonical | preprocess_sponsors.py:29 | non-empty words of `a-z0-9` joined by single spaces form a canonical key |
| CompanyName.DialectsAgree | preprocess_sponsors.py:7-31 | on ASCII names without `\r` and 0x1C-0x1F (any name, in the modelled ASCII character classes), the Python cleaner and the JavaScript cleaner give the same key |
| CanonicalExamples.StripSuffixesOneSuffix | utils.js:61-65 | `"acme ltd"` is stripped to `"acme"` |
| CanonicalExamples.NotIdempotent | utils.js:48-72 | `"Acme Ltd."` cleans to `"acme ltd"`, which cleans to `"acme"`: cleaning twice differs from cleaning once |
| CanonicalExamples.BracketShieldsSuffix | utils.js:53-65 | `"Acme Ltd (UK)"` cleans to `"acme ltd"`: the space before the deleted bracket shields the suffix |
| CanonicalExamples.SqueezeKey | utils.js:69 | squeezing the whitespace of a canonical key gives it back |
| CanonicalExamples.BracketWithReturnDisagrees | utils.js:53 | `"(a\rb)"` cleans to `"a b"` in the browser and to `""` in the builder |
| CanonicalExamples.UnitSeparatorDisagrees | utils.js:68-69 | `"a\x1fb"` cleans to `"ab"` in the browser and to `"a b"` in the builder |
| Utils.MaxDistance | utils.js:93 | the tolerance is 1 or 2, and it is 2 exactly when the key is longer than five characters |
| Utils.CleanedKey | utils.js:48-49 | `""` for an absent or empty name, otherwise the JavaScript canonical key |
| Utils.Match | utils.js:80-115 | the exact lookup of the cleaned key; failing that, null below three characters; otherwise the value of the first key within `MaxDistance` edits, or null |
| Utils.FirstWithin | utils.js:102-112 | an index found is in range and its key is within tolerance |
| Utils.FirstWithinNone | utils.js:102-114 | the scan finds nothing exactly when every key is beyond tolerance |
| Utils.FirstWithinSome | utils.js:102-111 | the scan finds index `i` exactly when key `i` is within tolerance and no earlier key is |
| Utils.FirstWithinSpec | utils.js:102-114 | both of the above together: the first qualifying key in dictionary order, or nothing when no key qualifies |
| Utils.ScanNearKeys | utils.js:102-114 | the loop with its length check finds exactly the first key within tolerance |
| Utils.FuzzyMatch | utils.js:80-115 | the method returns what `Match` specifies |
| Utils.MatchExact | utils.js:84-86 | when the cleaned name is a key, its value is returned, whatever the key's length |
| Utils.MatchShortKey | utils.js:93-94 | a key shorter than three characters matches exactly when it is in the dictionary |
| Utils.MatchFuzzy | utils.js:93-114 | with no exact hit and a key of three characters or more, the result is null exactly when no key is within tolerance; otherwise it is the value of the first key within tolerance |
| Utils.MatchFromSponsors | utils.js:80-115 | every non-null result is a value stored in the dictionary, under a key at most two edits from the cleaned name |
| MatchExamples.WordIsKey | utils.js:48-72 | a single word of `a-z0-9` is its own key |
| MatchExamples.MisspeltDistance | utils.js:109 | `"micrsoft"` is at most one edit from `"microsoft"` |
| MatchExamples.MisspeltNameMatches | utils.js:93-111 | `"micrsoft"` finds the `"microsoft"` entry by distance |
| MatchExamples.ShortNameNeedsExactHit | utils.js:94 | `"ab"` finds nothing, although `"abc"` is one edit away |
| MatchExamples.LengthRulesOut | utils.js:104 | `"mic"` finds nothing against `"microsoft"`: the length gap exceeds the tolerance |
| Sponsors.DistinctKeys | utils.js:84-85 | no key occurs twice, as in any dictionary or JSON object |
| Sponsors.Lookup | utils.js:84-85 | `hasOwnProperty(key)` then `sponsors[key]`: the value of the first entry with the key, or none |
| Sponsors.Put | preprocess_sponsors.py:80 | `sponsors[cleaned] = original_name`: an existing key keeps its place and takes the new value, and a new key goes to the end |
| Sponsors.LookupSpec | utils.js:84-85 | a lookup fails exactly when no entry has the key, and a value found is the value of an entry with that key |
| Sponsors.LookupEntry | utils.js:84-85 | with distinct keys, looking up an entry's key gives that entry's value |
| Sponsors.LookupPut | preprocess_sponsors.py:80 | after an assignment, the key maps to the new value and every other key's lookup is unchanged |
| Sponsors.PutShape | preprocess_sponsors.py:80 | an assignment keeps keys distinct, adds an entry only for a new key, and leaves other entries in place |
| Sponsors.PutEntries | preprocess_sponsors.py:80 | after an assignment, each entry is the new pair or an old entry with another key |
| PreprocessSponsors.CleanCompanyName | preprocess_sponsors.py:7-31 | the result is the Python canonical key of the name: only `a-z`, `0-9` and single inner spaces |
| PreprocessSponsors.Contains | preprocess_sponsors.py:54-56 | Python's `part in s` |
| PreprocessSponsors.IsOrganisationHeader | preprocess_sponsors.py:53-54 | the lower-cased header contains `organisation name` |
| PreprocessSponsors.IsRouteHeader | preprocess_sponsors.py:56 | the `elif`: the lower-cased header contains `route` and is not an organisation header |
| PreprocessSponsors.OrganisationColumn | preprocess_sponsors.py:50-55 | the last organisation header, or none |
| PreprocessSponsors.RouteColumn | preprocess_sponsors.py:51-57 | the last route header, or none |
| PreprocessSponsors.Accepted | preprocess_sponsors.py:70-72 | the route filter: no route column, or a route value that is `skilled worker` once stripped and lower-cased |
| PreprocessSponsors.Rejected | preprocess_sponsors.py:70-74 | a row the route filter skips and counts |
| PreprocessSponsors.HasValues | preprocess_sponsors.py:71-76 | the row has the route value, and the name value when it passes the filter |
| PreprocessSponsors.Kept | preprocess_sponsors.py:76-81 | the row passes the filter and its name cleans to a non-empty key |
| PreprocessSponsors.Step | preprocess_sponsors.py:69-81 | one loop body: fail on a missing value, skip and count a rejected row, store and count a non-empty key, or change nothing |
| PreprocessSponsors.Build | preprocess_sponsors.py:66-81 | the loop: `Step` over the rows in order from an empty dictionary and zero counters, stopping at the first failure |
| PreprocessSponsors.Preprocess | preprocess_sponsors.py:44-81 | no header gives `MissingHeaders`, no organisation column gives `MissingOrganisationColumn`, otherwise `Build` over the rows |
| PreprocessSponsors.ContainsSpec | preprocess_sponsors.py:54-56 | `part in s` holds exactly when `part` occurs in `s` at some position |
| PreprocessSponsors.DetectColumns | preprocess_sponsors.py:50-57 | the header loop's `org_col` and `route_col` are the last qualifying headers |
| PreprocessSponsors.ColumnsSpec | preprocess_sponsors.py:52-57 | the organisation column is the last header containing `organisation name` in any case, or none; the route column is the last other header containing `route`, or none |
| PreprocessSponsors.PreprocessCsv | preprocess_sponsors.py:44-81 | the method returns what `Preprocess` specifies |
| PreprocessSponsors.PreprocessErrors | preprocess_sponsors.py:44-61 | nothing is produced exactly when there is no header, no organisation header, or a row that lacks a value the loop reads |
| PreprocessSponsors.BuildErrPersists | preprocess_sponsors.py:68-81 | once a row fails, the whole run fails the same way |
| PreprocessSponsors.BuildNext | preprocess_sponsors.py:68-81 | each further row is one more loop body applied to a run that has not failed |
| PreprocessSponsors.BuildErrors | preprocess_sponsors.py:68-81 | the row loop fails exactly when some row lacks the route value, or lacks the name value on a row that passes the filter |
| PreprocessSponsors.BuildLast | preprocess_sponsors.py:68-81 | the last row either stores its name and adds one to `count`, or adds one to `skipped_count`, or changes nothing |
| PreprocessSponsors.EntriesPut | preprocess_sponsors.py:76-80 | storing the name of a kept row keeps the dictionary's keys distinct and its entries well formed |
| PreprocessSponsors.BuildEntries | preprocess_sponsors.py:76-80 | keys are distinct, non-empty and canonical; each value cleans to its key and is the name of a row kept by the filter |
| PreprocessSponsors.BuildLastWins | preprocess_sponsors.py:80 | a kept row's name is stored under its key unless a later kept row cleans to the same key |
| PreprocessSponsors.BuildCounts | preprocess_sponsors.py:63-81 | `count` is the number of rows that stored a name; `skipped_count` is the number the route filter turned away, and 0 without a route column |
| PreprocessSponsors.BuildSizes | preprocess_sponsors.py:66-81 | there are no more keys than `count`, and `count` plus `skipped_count` is at most the number of rows |
| Pipeline.EmptyNameEmptyKey | utils.js:49 | the empty name has the empty key in both cleaners |
| Pipeline.BrowserKeyAgrees | utils.js:48-72 | on a name without `\r` and 0x1C-0x1F, in the modelled ASCII character classes, the browser's key equals the builder's key, the empty name included |
| Pipeline.StoredNameFindsItself | utils.js:80-86 | every stored value, when it avoids `\r` and 0x1C-0x1F, is matched exactly to itself |
| Pipeline.RowNameFindsItself | preprocess_sponsors.py:76-80 | a kept row's name, when no later kept row cleans to the same key, is what the matcher returns for that name |

## Left out

- Unicode:
  - `toLowerCase`/`lower` are modelled as ASCII case folding.
  - `\s` and `str.split()` are modelled on the ASCII whitespace classes of each runtime: `\t`-`\r` and space, plus 0x1C-0x1F for Python.
  - Non-ASCII letters, case mappings and Unicode spaces are not modelled.
  - So the model does not capture where the two runtimes differ on non-ASCII characters, and the agreement lemmas (`DialectsAgree`, `BrowserKeyAgrees`, `StoredNameFindsItself`, `RowNameFindsItself`) hold for the programs only on ASCII names:
    - U+0085 is whitespace for Python's `\s`, `split()` and `strip()` but not for JavaScript's `\s`, so `"a\u0085b"` gives `"ab"` in the browser and `"a b"` in the builder;
    - U+FEFF is in JavaScript's `\s` but is not whitespace for Python;
    - U+2028 and U+2029 stop JavaScript's `.` in the bracket regex but not Python's.
- A `name` that is not a string (a number or object passed to `cleanCompanyName`) is not modelled. An absent name is `None` and an empty one is `""`.
- CSV parsing, file handling, JSON and gzip output, argparse, the progress messages, and exception messages are not modelled.
  - Rows arrive as already-parsed maps from column name to value.
  - A column missing from a short row stands for the `None` that `DictReader` supplies. Cleaning or stripping that `None` raises, and the broad `except` then writes nothing, so it is modelled as `Err(MissingValue)`.
  - Blank lines that `DictReader` skips are not rows here.
- The exact `for...in` order of integer-like keys is not modelled. The dictionary's order is a given sequence, the insertion order the builder produced.
- content.js and people_company_check.js are not part of this model. They hold DOM traversal, badge styling, observers, timers, the fetch of the dictionary, and the regex that extracts a company from a job title.
- The triangle inequality of the edit distance is not proved. The matcher does not rely on it.
