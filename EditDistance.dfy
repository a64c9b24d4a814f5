/**
 * The Levenshtein edit distance, defined as the minimum number of single-character
 * insertions, deletions and substitutions turning one string into another.
 * `Dist(a, b, i, j)` is the distance between the prefixes `a[..i]` and `b[..j]`,
 * given by the textbook recurrence on their last characters; `EditDist` is the
 * distance between whole strings. The dynamic-programming method
 * `Utils.LevenshteinDistance` is proved against them; the lemmas below are the
 * facts the fuzzy matcher relies on.
 */
module EditDistance {

  function Min(x: nat, y: nat): nat {
    if x <= y then x else y
  }

  function Min3(x: nat, y: nat, z: nat): nat {
    Min(x, Min(y, z))
  }

  /**
   * The distance between `a[..i]` and `b[..j]`: substitute the last characters (free
   * when they agree), delete the last character of `a[..i]`, or insert the last
   * character of `b[..j]`.
   */
  function Dist(a: string, b: string, i: nat, j: nat): nat
    requires i <= |a| && j <= |b|
    decreases i + j
  {
    if i == 0 then j
    else if j == 0 then i
    else
      Min3(Dist(a, b, i - 1, j - 1) + (if a[i - 1] == b[j - 1] then 0 else 1),
           Dist(a, b, i - 1, j) + 1,
           Dist(a, b, i, j - 1) + 1)
  }

  /** The edit distance between two whole strings. */
  function EditDist(a: string, b: string): nat {
    Dist(a, b, |a|, |b|)
  }

  /** One more character in `b[..j]` costs at most one more edit. */
  lemma StepB(a: string, b: string, i: nat, j: nat)
    requires i <= |a| && 0 < j <= |b|
    ensures Dist(a, b, i, j) <= Dist(a, b, i, j - 1) + 1
  {
  }

  /** One more character in `a[..i]` costs at most one more edit. */
  lemma StepA(a: string, b: string, i: nat, j: nat)
    requires 0 < i <= |a| && j <= |b|
    ensures Dist(a, b, i, j) <= Dist(a, b, i - 1, j) + 1
  {
  }

  /** One character fewer in `a[..i]` saves at most one edit. */
  lemma {:induction false} DropA(a: string, b: string, i: nat, j: nat)
    requires 0 < i <= |a| && j <= |b|
    ensures Dist(a, b, i - 1, j) <= Dist(a, b, i, j) + 1
    decreases j
  {
    if j > 0 {
      DropA(a, b, i, j - 1);
      StepB(a, b, i - 1, j);
    }
  }

  /** One character fewer in `b[..j]` saves at most one edit. */
  lemma {:induction false} DropB(a: string, b: string, i: nat, j: nat)
    requires i <= |a| && 0 < j <= |b|
    ensures Dist(a, b, i, j - 1) <= Dist(a, b, i, j) + 1
    decreases i
  {
    if i > 0 {
      DropB(a, b, i - 1, j);
      StepA(a, b, i, j - 1);
    }
  }

  /**
   * When the last characters agree, the distance is that of the prefixes without
   * them: the shortcut the table takes.
   */
  lemma MatchShortcut(a: string, b: string, i: nat, j: nat)
    requires 0 < i <= |a| && 0 < j <= |b| && a[i - 1] == b[j - 1]
    ensures Dist(a, b, i, j) == Dist(a, b, i - 1, j - 1)
  {
    DropA(a, b, i, j - 1);
    DropB(a, b, i - 1, j);
  }

  /** The distance does not depend on which string is taken first. */
  lemma {:induction false} DistSymmetric(a: string, b: string, i: nat, j: nat)
    requires i <= |a| && j <= |b|
    ensures Dist(a, b, i, j) == Dist(b, a, j, i)
    decreases i + j
  {
    if i > 0 && j > 0 {
      DistSymmetric(a, b, i - 1, j - 1);
      DistSymmetric(a, b, i - 1, j);
      DistSymmetric(a, b, i, j - 1);
    }
  }

  lemma Symmetric(a: string, b: string)
    ensures EditDist(a, b) == EditDist(b, a)
  {
    DistSymmetric(a, b, |a|, |b|);
  }

  /** At least the difference of the lengths, since each edit changes the length by at most one. */
  lemma {:induction false} DistLengthBound(a: string, b: string, i: nat, j: nat)
    requires i <= |a| && j <= |b|
    ensures i - j <= Dist(a, b, i, j) && j - i <= Dist(a, b, i, j)
    decreases i + j
  {
    if i > 0 && j > 0 {
      DistLengthBound(a, b, i - 1, j - 1);
      DistLengthBound(a, b, i - 1, j);
      DistLengthBound(a, b, i, j - 1);
    }
  }

  lemma LengthLowerBound(a: string, b: string)
    ensures |a| - |b| <= EditDist(a, b) && |b| - |a| <= EditDist(a, b)
  {
    DistLengthBound(a, b, |a|, |b|);
  }

  /** At most the longer length: substitute along the shorter string, then insert or delete the rest. */
  lemma {:induction false} DistUpperBound(a: string, b: string, i: nat, j: nat)
    requires i <= |a| && j <= |b|
    ensures Dist(a, b, i, j) <= if i >= j then i else j
    decreases i + j
  {
    if i > 0 && j > 0 {
      DistUpperBound(a, b, i - 1, j - 1);
    }
  }

  /** Prefixes that agree character by character are zero apart. */
  lemma {:induction false} SameZero(a: string, b: string, i: nat)
    requires i <= |a| && i <= |b|
    requires forall k :: 0 <= k < i ==> a[k] == b[k]
    ensures Dist(a, b, i, i) == 0
    decreases i
  {
    if i > 0 {
      SameZero(a, b, i - 1);
    }
  }

  lemma SelfZero(x: string)
    ensures EditDist(x, x) == 0
  {
    SameZero(x, x, |x|);
  }

  /** Only equal prefixes are zero apart. */
  lemma {:induction false} ZeroOnlyIfEqual(a: string, b: string, i: nat, j: nat)
    requires i <= |a| && j <= |b| && Dist(a, b, i, j) == 0
    ensures i == j && a[..i] == b[..j]
    decreases i + j
  {
    if i > 0 && j > 0 {
      ZeroOnlyIfEqual(a, b, i - 1, j - 1);
      assert a[..i] == a[..i - 1] + [a[i - 1]];
      assert b[..j] == b[..j - 1] + [b[j - 1]];
    }
  }

  /** Distance zero means equal strings, and only then. */
  lemma ZeroIffEqual(a: string, b: string)
    ensures EditDist(a, b) == 0 <==> a == b
  {
    if a == b {
      SelfZero(a);
    }
    if EditDist(a, b) == 0 {
      ZeroOnlyIfEqual(a, b, |a|, |b|);
      assert a[..|a|] == a && b[..|b|] == b;
    }
  }

  /** Inserting one character anywhere costs at most one edit. */
  lemma InsertOne(p: string, s: string, c: char)
    ensures EditDist(p + s, p + [c] + s) <= 1
  {
    var x, y := p + s, p + [c] + s;
    InsertOneFrom(x, y, |p|, |s|);
  }

  /** The prefixes of `p + s` and `p + [c] + s` that stop `k` characters into `s`. */
  lemma {:induction false} InsertOneFrom(x: string, y: string, n: nat, k: nat)
    requires |x| == n + k && |y| == n + 1 + k
    requires forall m :: 0 <= m < n ==> x[m] == y[m]
    requires forall m :: n <= m < n + k ==> x[m] == y[m + 1]
    ensures Dist(x, y, n + k, n + 1 + k) <= 1
    decreases k
  {
    if k == 0 {
      StepB(x, y, n, n + 1);
      SameZero(x, y, n);
    } else {
      MatchShortcut(x, y, n + k, n + 1 + k);
      InsertOneFrom(x[..n + k - 1], y[..n + k], n, k - 1);
      DistPrefix(x, y, x[..n + k - 1], y[..n + k], n + k - 1, n + k);
    }
  }

  /** The distance between prefixes depends on nothing past them. */
  lemma {:induction false} DistPrefix(a: string, b: string, a': string, b': string, i: nat, j: nat)
    requires i <= |a| && i <= |a'| && j <= |b| && j <= |b'|
    requires forall k :: 0 <= k < i ==> a[k] == a'[k]
    requires forall k :: 0 <= k < j ==> b[k] == b'[k]
    ensures Dist(a, b, i, j) == Dist(a', b', i, j)
    decreases i + j
  {
    if i > 0 && j > 0 {
      DistPrefix(a, b, a', b', i - 1, j - 1);
      DistPrefix(a, b, a', b', i - 1, j);
      DistPrefix(a, b, a', b', i, j - 1);
      assert a[i - 1] == a'[i - 1] && b[j - 1] == b'[j - 1];
    }
  }
}
