/**
 * The three Python string primitives the banner tool and the project checker
 * are built from, written out with Python's exact edge-case behaviour:
 *   - `s.find(pat, start)`  (first index >= start, or -1 on a miss),
 *   - `s[a:b]`              (indices clamped, negative ones counted from the end),
 *   - `s.replace(pat, rep)` (leftmost, non-overlapping occurrences).
 */
module PyStr {

  /** `pat` occurs in `s` starting at index `k`. */
  predicate IsAt(s: string, pat: string, k: int)
  {
    0 <= k && k + |pat| <= |s| && s[k..k + |pat|] == pat
  }

  /** Python's `pat in s` for strings: a substring test. */
  predicate Contains(s: string, pat: string)
  {
    exists k :: 0 <= k <= |s| && IsAt(s, pat, k)
  }

  /** Python's `s.find(pat, from)` for a non-negative start. */
  function Find(s: string, pat: string, from: nat): (r: int)
    ensures -1 <= r
    ensures r >= 0 ==> from <= r && r + |pat| <= |s|
    decreases |s| - from
  {
    if from + |pat| > |s| then -1
    else if s[from..from + |pat|] == pat then from
    else Find(s, pat, from + 1)
  }

  /**
   * `find` gives -1 exactly when `pat` does not occur at or after `from`,
   * and otherwise the first index at or after `from` where it occurs.
   */
  lemma {:induction false} FindSpec(s: string, pat: string, from: nat)
    ensures var r := Find(s, pat, from);
            (r == -1 <==> forall k :: from <= k ==> !IsAt(s, pat, k)) &&
            (r >= 0 ==> IsAt(s, pat, r) && forall k :: from <= k < r ==> !IsAt(s, pat, k))
    decreases |s| - from
  {
    if from + |pat| > |s| {
    } else if s[from..from + |pat|] == pat {
      assert IsAt(s, pat, from);
    } else {
      FindSpec(s, pat, from + 1);
    }
  }

  /** How Python normalises one slice bound against a length `n`. */
  function ClampIndex(i: int, n: nat): (r: nat)
    ensures r <= n
  {
    if i < 0 then (if i + n < 0 then 0 else i + n)
    else if i > n then n
    else i
  }

  /** Python's `s[a:b]` (step 1). */
  function PySlice(s: string, a: int, b: int): (r: string)
    ensures var lo, hi := ClampIndex(a, |s|), ClampIndex(b, |s|);
            |r| == (if lo < hi then hi - lo else 0) &&
            forall k :: 0 <= k < |r| ==> r[k] == s[lo + k]
  {
    var lo, hi := ClampIndex(a, |s|), ClampIndex(b, |s|);
    if lo < hi then s[lo..hi] else []
  }

  /** `s[:i] + s[i:] == s` holds in Python for every integer `i`. */
  lemma SliceJoin(s: string, i: int)
    ensures PySlice(s, 0, i) + PySlice(s, i, |s|) == s
  {
    var m := ClampIndex(i, |s|);
    var left, right := PySlice(s, 0, i), PySlice(s, i, |s|);
    assert |left| == m && |right| == |s| - m;
    forall k | 0 <= k < |s| ensures (left + right)[k] == s[k] {
      if k < m {
        assert (left + right)[k] == left[k];
      } else {
        assert (left + right)[k] == right[k - m];
      }
    }
  }

  /**
   * Python's `s.replace(pat, rep)` for a non-empty `pat`: scanning from the
   * left, every occurrence that does not overlap an already replaced one is
   * replaced.
   */
  function ReplaceAll(s: string, pat: string, rep: string): (r: string)
    requires pat != []
    decreases |s|
  {
    if |s| < |pat| then s
    else if s[..|pat|] == pat then rep + ReplaceAll(s[|pat|..], pat, rep)
    else [s[0]] + ReplaceAll(s[1..], pat, rep)
  }

  /** The number of occurrences `ReplaceAll` replaces: leftmost, non-overlapping. */
  function Count(s: string, pat: string): (n: nat)
    requires pat != []
    decreases |s|
  {
    if |s| < |pat| then 0
    else if s[..|pat|] == pat then 1 + Count(s[|pat|..], pat)
    else Count(s[1..], pat)
  }

  /** An occurrence in a suffix is an occurrence in the whole string. */
  lemma ContainsSuffix(s: string, pat: string, k: nat)
    requires k <= |s|
    requires Contains(s[k..], pat)
    ensures Contains(s, pat)
  {
    var j :| 0 <= j <= |s[k..]| && IsAt(s[k..], pat, j);
    assert s[k..][j..j + |pat|] == s[k + j..k + j + |pat|];
    assert IsAt(s, pat, k + j);
  }

  /** An occurrence in a prefix is an occurrence in the whole string. */
  lemma ContainsPrefix(s: string, pat: string, k: nat)
    requires k <= |s|
    requires Contains(s[..k], pat)
    ensures Contains(s, pat)
  {
    var j :| 0 <= j <= |s[..k]| && IsAt(s[..k], pat, j);
    assert s[..k][j..j + |pat|] == s[j..j + |pat|];
    assert IsAt(s, pat, j);
  }

  /** An occurrence that ends inside the left operand of `x + y` is an occurrence in `x`. */
  lemma IsAtLeft(x: string, y: string, pat: string, j: nat)
    requires j + |pat| <= |x|
    ensures IsAt(x + y, pat, j) <==> IsAt(x, pat, j)
  {
    assert (x + y)[j..j + |pat|] == x[j..j + |pat|];
  }

  /** `c` length changes of `d` each, added up one at a time. */
  function Changes(c: nat, d: int): int
  {
    if c == 0 then 0 else d + Changes(c - 1, d)
  }

  /** Adding up `c` changes of `d` gives `c * d`. */
  lemma {:induction false} ChangesProduct(c: nat, d: int)
    ensures Changes(c, d) == c * d
  {
    if c > 0 {
      ChangesProduct(c - 1, d);
      assert c * d == d + (c - 1) * d;
    }
  }

  /** Each replacement `replace` makes changes the length by `|rep| - |pat|`. */
  lemma {:induction false} ReplaceAllGrowth(s: string, pat: string, rep: string)
    requires pat != []
    ensures |ReplaceAll(s, pat, rep)| == |s| + Changes(Count(s, pat), |rep| - |pat|)
    decreases |s|
  {
    if |s| < |pat| {
    } else if s[..|pat|] == pat {
      ReplaceAllGrowth(s[|pat|..], pat, rep);
    } else {
      ReplaceAllGrowth(s[1..], pat, rep);
    }
  }

  /** `replace` changes the length by `Count * (|rep| - |pat|)`. */
  lemma ReplaceAllLength(s: string, pat: string, rep: string)
    requires pat != []
    ensures |ReplaceAll(s, pat, rep)| == |s| + Count(s, pat) * (|rep| - |pat|)
  {
    ReplaceAllGrowth(s, pat, rep);
    ChangesProduct(Count(s, pat), |rep| - |pat|);
  }

  /** `replace` finds something to replace exactly when `pat` occurs. */
  lemma {:induction false} CountZeroIff(s: string, pat: string)
    requires pat != []
    ensures Count(s, pat) == 0 <==> !Contains(s, pat)
    decreases |s|
  {
    if |s| < |pat| {
      assert forall k :: !IsAt(s, pat, k);
    } else if s[..|pat|] == pat {
      assert IsAt(s, pat, 0);
    } else {
      CountZeroIff(s[1..], pat);
      ContainsTail(s, pat);
    }
  }

  /** Without an occurrence at index 0, `pat` occurs in `s` iff it occurs in `s[1..]`. */
  lemma ContainsTail(s: string, pat: string)
    requires |s| >= 1 && !IsAt(s, pat, 0)
    ensures Contains(s, pat) <==> Contains(s[1..], pat)
  {
    if Contains(s, pat) {
      var k :| 0 <= k <= |s| && IsAt(s, pat, k);
      assert s[1..][k - 1..k - 1 + |pat|] == s[k..k + |pat|];
      assert IsAt(s[1..], pat, k - 1);
    }
    if Contains(s[1..], pat) {
      ContainsSuffix(s, pat, 1);
    }
  }

  /** A string without an occurrence of `pat` is left as it is. */
  lemma {:induction false} ReplaceAllNoMatch(s: string, pat: string, rep: string)
    requires pat != []
    requires !Contains(s, pat)
    ensures ReplaceAll(s, pat, rep) == s
    decreases |s|
  {
    if |s| >= |pat| {
      assert !IsAt(s, pat, 0);
      ContainsTail(s, pat);
      ReplaceAllNoMatch(s[1..], pat, rep);
    }
  }

  /** Concatenation regrouped. */
  lemma ConcatAssoc<T>(a: seq<T>, b: seq<T>, c: seq<T>)
    ensures a + (b + c) == (a + b) + c
  {
  }

  /** Dropping the first character shifts every occurrence one place left. */
  lemma IsAtShift(s: string, pat: string, j: nat)
    requires |s| >= 1
    ensures IsAt(s[1..], pat, j) <==> IsAt(s, pat, j + 1)
  {
    if 0 <= j && j + |pat| <= |s| - 1 {
      assert s[1..][j..j + |pat|] == s[j + 1..j + 1 + |pat|];
    }
  }

  /** Without an occurrence at index 0, `replace` copies the first character. */
  lemma ReplaceAllStep(s: string, pat: string, rep: string)
    requires pat != [] && |s| >= 1 && !IsAt(s, pat, 0)
    ensures ReplaceAll(s, pat, rep) == [s[0]] + ReplaceAll(s[1..], pat, rep)
  {
  }

  /**
   * When no occurrence of `pat` starts before index `k`, the first `k`
   * characters are copied unchanged and the scan resumes at `k`.
   */
  lemma {:induction false} ReplaceAllSkip(s: string, pat: string, rep: string, k: nat)
    requires pat != []
    requires k <= |s|
    requires forall j :: 0 <= j < k ==> !IsAt(s, pat, j)
    ensures ReplaceAll(s, pat, rep) == s[..k] + ReplaceAll(s[k..], pat, rep)
    decreases k
  {
    if k > 0 {
      var t := s[1..];
      ReplaceAllStep(s, pat, rep);
      forall j | 0 <= j < k - 1 ensures !IsAt(t, pat, j) {
        IsAtShift(s, pat, j);
      }
      ReplaceAllSkip(t, pat, rep, k - 1);
      assert t[k - 1..] == s[k..];
      assert s[..k] == [s[0]] + t[..k - 1];
      ConcatAssoc([s[0]], t[..k - 1], ReplaceAll(s[k..], pat, rep));
    }
  }

  /**
   * Replacing in `x + pat + y` when no occurrence starts inside `x` and `y`
   * has none: the spliced-in `pat` is the only thing deleted.
   */
  lemma ReplaceSplice(x: string, pat: string, y: string)
    requires pat != []
    requires !Contains(y, pat)
    requires forall j :: 0 <= j < |x| ==> !IsAt(x + pat + y, pat, j)
    ensures ReplaceAll(x + pat + y, pat, []) == x + y
  {
    var s := x + pat + y;
    ReplaceAllSkip(s, pat, [], |x|);
    assert s[..|x|] == x;
    assert s[|x|..] == pat + y;
    assert ReplaceAll(s, pat, []) == x + ReplaceAll(pat + y, pat, []);
    assert (pat + y)[..|pat|] == pat;
    assert (pat + y)[|pat|..] == y;
    assert ReplaceAll(pat + y, pat, []) == ReplaceAll(y, pat, []);
    ReplaceAllNoMatch(y, pat, []);
  }

  /**
   * An occurrence of `pat` in `x + pat + y` that starts inside `x` and
   * reaches into the spliced `pat` ends `x` with a prefix of `pat` and
   * shows that `pat` overlaps itself at shift `|x| - j`.
   */
  lemma StraddleBorder(x: string, pat: string, y: string, j: nat)
    requires IsAt(x + pat + y, pat, j) && j < |x| < j + |pat|
    ensures x[j..] == pat[..|x| - j]
    ensures forall k :: 0 <= k < |pat| - (|x| - j) ==> pat[|x| - j + k] == pat[k]
  {
    var s, e := x + pat + y, |x| - j;
    assert s[j..j + |pat|] == pat;
    forall k | 0 <= k < e ensures x[j + k] == pat[k] {
      assert s[j + k] == x[j + k];
      assert s[j..j + |pat|][k] == s[j + k];
    }
    forall k | 0 <= k < |pat| - e ensures pat[e + k] == pat[k] {
      assert s[|x| + k] == pat[k];
      assert s[j..j + |pat|][e + k] == s[|x| + k];
    }
  }
}
