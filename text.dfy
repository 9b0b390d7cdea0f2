/** The Python string operations the two scripts use, on `seq<char>`:
    `str.endswith`, the substring test `t in s`, ASCII `str.lower` and
    `str.replace(pat, "")`. */
module Text {
  import opened Seqs

  /** `s.endswith(suffix)`. */
  predicate EndsWith(s: string, suffix: string)
  {
    |suffix| <= |s| && s[|s| - |suffix|..] == suffix
  }

  /** `s` ends with `suffix` iff it is spelled as some stem followed by
      `suffix`. */
  lemma EndsWithIffStem(s: string, suffix: string)
    ensures EndsWith(s, suffix) <==> exists stem: string :: stem + suffix == s
  {
    if EndsWith(s, suffix) {
      assert s[..|s| - |suffix|] + suffix == s;
    }
    if stem: string :| stem + suffix == s {
      assert s[|stem|..] == suffix;
    }
  }

  /** `t` occurs in `s` starting at index `i`. */
  predicate OccursAt(s: string, t: string, i: int)
  {
    0 <= i && i + |t| <= |s| && s[i..i + |t|] == t
  }

  /** Python's `t in s` for strings. */
  predicate Contains(s: string, t: string)
  {
    exists i | 0 <= i <= |s| :: OccursAt(s, t, i)
  }

  /** `t in s` iff `s` is `t` with something before and something after it. */
  lemma ContainsIffSplit(s: string, t: string)
    ensures Contains(s, t) <==> exists a: string, b: string :: a + t + b == s
  {
    if i :| 0 <= i <= |s| && OccursAt(s, t, i) {
      assert s[..i] + t + s[i + |t|..] == s;
    }
    if a: string, b: string :| a + t + b == s {
      assert OccursAt(s, t, |a|) by {
        assert s[|a|..|a| + |t|] == t;
      }
    }
  }

  /** Two suffixes of one string: the shorter is a suffix of the longer. */
  lemma SuffixOfSuffix(s: string, a: string, b: string)
    requires EndsWith(s, a) && EndsWith(s, b) && |a| <= |b|
    ensures EndsWith(b, a)
  {
    forall k | 0 <= k < |a| ensures b[|b| - |a| + k] == a[k] {
      assert s[|s| - |a|..][k] == a[k];
      assert s[|s| - |b|..][|b| - |a| + k] == b[|b| - |a| + k];
    }
  }

  /** A suffix of a suffix of `s` is a suffix of `s`. */
  lemma SuffixTransitive(s: string, a: string, b: string)
    requires EndsWith(s, b) && EndsWith(b, a)
    ensures EndsWith(s, a)
  {
    forall k | 0 <= k < |a| ensures s[|s| - |a| + k] == a[k] {
      assert b[|b| - |a|..][k] == a[k];
      assert s[|s| - |b|..][|b| - |a| + k] == b[|b| - |a| + k];
    }
    assert s[|s| - |a|..] == a;
  }

  predicate IsUpper(c: char)
  {
    'A' <= c <= 'Z'
  }

  function LowerChar(c: char): char
  {
    if IsUpper(c) then (c as int + ('a' as int - 'A' as int)) as char else c
  }

  /** `s.lower()`, restricted to the ASCII letters. */
  function Lower(s: string): (r: string)
    ensures |r| == |s|
    ensures forall i :: 0 <= i < |r| ==> !IsUpper(r[i])
    ensures forall i :: 0 <= i < |s| && !IsUpper(s[i]) ==> r[i] == s[i]
    ensures forall i :: 0 <= i < |s| && IsUpper(s[i]) ==> r[i] as int - s[i] as int == 32
  {
    seq(|s|, i requires 0 <= i < |s| => LowerChar(s[i]))
  }

  /** The first character of `pat` occurs nowhere else in it, so two
      occurrences of `pat` can never overlap. */
  predicate HeadIsUnique(pat: string)
  {
    pat != [] && forall i :: 0 < i < |pat| ==> pat[i] != pat[0]
  }

  /** `s.replace(pat, "")`: scanning left to right, every non-overlapping
      occurrence of `pat` is deleted. */
  function RemoveAll(s: string, pat: string): (r: string)
    requires pat != []
    ensures |r| <= |s|
    decreases |s|
  {
    if |s| < |pat| then s
    else if s[..|pat|] == pat then RemoveAll(s[|pat|..], pat)
    else [s[0]] + RemoveAll(s[1..], pat)
  }

  /** What is left after the deletions keeps the order of the text. */
  lemma {:induction false} RemoveAllIsSubsequence(s: string, pat: string)
    requires pat != []
    ensures IsSubsequence(RemoveAll(s, pat), s)
    decreases |s|
  {
    if |s| < |pat| {
      SubsequenceReflexive(s);
    } else if s[..|pat|] == pat {
      RemoveAllIsSubsequence(s[|pat|..], pat);
      SubsequenceOfSuffix(RemoveAll(s, pat), s, |pat|);
    } else {
      var r := RemoveAll(s, pat);
      RemoveAllIsSubsequence(s[1..], pat);
      assert r[1..] == RemoveAll(s[1..], pat);
    }
  }

  lemma NotContainsTail(s: string, t: string)
    requires s != [] && !Contains(s, t)
    ensures !Contains(s[1..], t)
  {
    forall i | OccursAt(s[1..], t, i) ensures OccursAt(s, t, i + 1) {
      assert s[1..][i..i + |t|] == s[i + 1..i + 1 + |t|];
    }
  }

  /** A string without an occurrence of `pat` is left unchanged. */
  lemma {:induction false} RemoveAllAbsent(s: string, pat: string)
    requires pat != [] && !Contains(s, pat)
    ensures RemoveAll(s, pat) == s
    decreases |s|
  {
    if |s| >= |pat| {
      assert !OccursAt(s, pat, 0);
      NotContainsTail(s, pat);
      RemoveAllAbsent(s[1..], pat);
      assert s == [s[0]] + s[1..];
    }
  }

  /** When `x` is non-empty and has no occurrence of `pat`, and `pat`
      cannot overlap itself, `x + pat + y` does not start with `pat`. */
  lemma NoMatchAtFront(x: string, pat: string, y: string)
    requires HeadIsUnique(pat) && !Contains(x, pat) && x != []
    ensures (x + pat + y)[..|pat|] != pat
  {
    var s := x + pat + y;
    if |x| >= |pat| {
      assert s[..|pat|] == x[..|pat|];
      assert !OccursAt(x, pat, 0);
    } else {
      assert s[|x|] == pat[0];
      assert pat[|x|] != pat[0];
    }
  }

  /** One step of `RemoveAll` where the text does not start with `pat`. */
  lemma RemoveAllKeepsHead(s: string, pat: string)
    requires pat != [] && |s| >= |pat| && s[..|pat|] != pat
    ensures RemoveAll(s, pat) == [s[0]] + RemoveAll(s[1..], pat)
  {
  }

  /** One step of `RemoveAll` at an occurrence of `pat`. */
  lemma RemoveAllAtMatch(pat: string, y: string)
    requires pat != []
    ensures RemoveAll(pat + y, pat) == RemoveAll(y, pat)
  {
    var s := pat + y;
    assert s[..|pat|] == pat;
    assert s[|pat|..] == y;
  }

  /** Deleting `pat` from `x + pat + y`, where `x` has no occurrence of `pat`
      and `pat` cannot overlap itself, keeps `x` whole and goes on with `y`. */
  lemma {:induction false} RemoveAllSplit(x: string, pat: string, y: string)
    requires HeadIsUnique(pat) && !Contains(x, pat)
    ensures RemoveAll(x + pat + y, pat) == x + RemoveAll(y, pat)
    decreases |x|
  {
    if x == [] {
      assert x + pat + y == pat + y;
      RemoveAllAtMatch(pat, y);
    } else {
      var s, rest := x + pat + y, x[1..];
      NoMatchAtFront(x, pat, y);
      NotContainsTail(x, pat);
      RemoveAllSplit(rest, pat, y);
      RemoveAllKeepsHead(s, pat);
      assert s[1..] == rest + pat + y;
      assert s[0] == x[0] && x == [x[0]] + rest;
    }
  }
}
