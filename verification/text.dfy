/** Strings as sequences of characters, with the two operations every patch
    script is built from: Python's substring test `t in s` and Python's
    `s.replace(pat, sub)` (leftmost, non-overlapping, left to right). */
module Text {

  /** p is a prefix of s. */
  predicate IsPrefix(p: string, s: string) {
    |p| <= |s| && s[..|p|] == p
  }

  /** t occurs in s starting at index i. */
  predicate OccursAt(s: string, t: string, i: int) {
    0 <= i && i + |t| <= |s| && s[i..i + |t|] == t
  }

  /** Python's `t in s`: t occurs at some index of s. The empty string is in
      every string, a longer string is in none, and a prefix is always in. */
  predicate Contains(s: string, t: string): (b: bool)
    ensures |t| == 0 ==> b
    ensures |t| > |s| ==> !b
    ensures IsPrefix(t, s) ==> b
  {
    assert |t| == 0 ==> OccursAt(s, t, 0);
    assert IsPrefix(t, s) ==> OccursAt(s, t, 0);
    exists i | 0 <= i <= |s| - |t| :: OccursAt(s, t, i)
  }

  /** Python's `s.replace(pat, sub)` for a non-empty pattern: scanning from the
      left, every occurrence of pat that does not overlap an earlier replaced
      one is replaced by sub; everything else is copied. */
  function ReplaceAll(s: string, pat: string, sub: string): (r: string)
    requires |pat| > 0
    ensures !Contains(s, pat) ==> r == s
    ensures Contains(s, pat) ==> Contains(r, sub)
    ensures |sub| >= |pat| ==> |r| >= |s|
    ensures Contains(s, pat) && |sub| > |pat| ==> |r| > |s|
    decreases |s|
  {
    if |s| == 0 then s
    else if IsPrefix(pat, s) then
      PrefixContains(pat, s);
      PrefixContains(sub, sub + ReplaceAll(s[|pat|..], pat, sub));
      sub + ReplaceAll(s[|pat|..], pat, sub)
    else
      ContainsTailIff(s, pat);
      var rest := ReplaceAll(s[1..], pat, sub);
      ContainsConsFromTail(s[0], rest, sub);
      ConsTail(s);
      [s[0]] + rest
  }

  /** Regrouping a concatenation of five strings. */
  lemma Assoc5(a: string, b: string, c: string, d: string, e: string)
    ensures a + b + c + d + e == a + b + (c + d + e)
  {
  }

  lemma ConsTail(s: string)
    requires |s| > 0
    ensures [s[0]] + s[1..] == s
  {
  }

  /** A non-empty prefix of c followed by y is c followed by a prefix of y. */
  lemma ConsPrefix(w: string, c: char, y: string)
    requires |w| > 0
    ensures IsPrefix(w, [c] + y) <==> w[0] == c && IsPrefix(w[1..], y)
  {
    if |w| <= |y| + 1 {
      assert ([c] + y)[..|w|] == [c] + y[..|w| - 1];
      assert w == [w[0]] + w[1..];
    }
  }

  /** A prefix is an occurrence at index 0. */
  lemma PrefixContains(t: string, s: string)
    requires IsPrefix(t, s)
    ensures OccursAt(s, t, 0) && Contains(s, t)
  {
    assert OccursAt(s, t, 0);
  }

  /** An occurrence is a prefix of the suffix it starts. */
  lemma OccursAtIsPrefix(s: string, t: string, i: int)
    requires 0 <= i <= |s|
    ensures OccursAt(s, t, i) <==> IsPrefix(t, s[i..])
  {
    if |t| <= |s| - i {
      assert s[i..][..|t|] == s[i..i + |t|];
    }
  }

  /** An occurrence in the tail of s is an occurrence in s, one place later. */
  lemma ContainsFromTail(s: string, t: string)
    requires |s| > 0 && Contains(s[1..], t)
    ensures Contains(s, t)
  {
    var i :| 0 <= i <= |s[1..]| - |t| && OccursAt(s[1..], t, i);
    assert s[1..][i..i + |t|] == s[i + 1..i + 1 + |t|];
    assert OccursAt(s, t, i + 1);
  }

  /** When t does not start s, t occurs in s exactly when it occurs in the
      tail of s. */
  lemma ContainsTailIff(s: string, t: string)
    requires |s| > 0 && !IsPrefix(t, s)
    ensures Contains(s, t) <==> Contains(s[1..], t)
  {
    if Contains(s[1..], t) {
      ContainsFromTail(s, t);
    }
    if Contains(s, t) {
      var i :| 0 <= i <= |s| - |t| && OccursAt(s, t, i);
      OccursAtIsPrefix(s, t, 0);
      assert s[0..] == s;
      assert i != 0;
      assert s[1..][i - 1..i - 1 + |t|] == s[i..i + |t|];
      assert OccursAt(s[1..], t, i - 1);
    }
  }

  lemma ContainsConsFromTail(c: char, r: string, t: string)
    ensures Contains(r, t) ==> Contains([c] + r, t)
  {
    assert ([c] + r)[1..] == r;
    if Contains(r, t) {
      ContainsFromTail([c] + r, t);
    }
  }

  /** Occurrences in either half of a concatenation are occurrences in the whole. */
  lemma ContainsAppend(a: string, b: string, t: string)
    ensures Contains(a, t) ==> Contains(a + b, t)
    ensures Contains(b, t) ==> Contains(a + b, t)
  {
    if Contains(a, t) {
      var i :| 0 <= i <= |a| - |t| && OccursAt(a, t, i);
      assert (a + b)[i..i + |t|] == a[i..i + |t|];
      assert OccursAt(a + b, t, i);
    }
    if Contains(b, t) {
      var i :| 0 <= i <= |b| - |t| && OccursAt(b, t, i);
      assert (a + b)[|a| + i..|a| + i + |t|] == b[i..i + |t|];
      assert OccursAt(a + b, t, |a| + i);
    }
  }

  /** Containment is transitive. */
  lemma ContainsTrans(s: string, u: string, t: string)
    requires Contains(s, u) && Contains(u, t)
    ensures Contains(s, t)
  {
    var i :| 0 <= i <= |s| - |u| && OccursAt(s, u, i);
    var j :| 0 <= j <= |u| - |t| && OccursAt(u, t, j);
    forall k | 0 <= k < |t| ensures s[i + j..i + j + |t|][k] == t[k] {
      assert t[k] == u[j..j + |t|][k] == u[j + k];
      assert u[j + k] == s[i..i + |u|][j + k] == s[i + j + k];
    }
    assert OccursAt(s, t, i + j);
  }

  /** Occurrences in a + b that start at or after |a| are the occurrences in b. */
  lemma OccursRight(a: string, b: string, t: string, i: int)
    requires i >= |a|
    ensures OccursAt(a + b, t, i) <==> OccursAt(b, t, i - |a|)
  {
    if i + |t| <= |a + b| {
      assert (a + b)[i..i + |t|] == b[i - |a|..i - |a| + |t|];
    }
  }

  /** Occurrences in a + b that end by |a| are the occurrences in a. */
  lemma OccursLeft(a: string, b: string, t: string, i: int)
    requires 0 <= i && i + |t| <= |a|
    ensures OccursAt(a + b, t, i) <==> OccursAt(a, t, i)
  {
    assert (a + b)[i..i + |t|] == a[i..i + |t|];
  }

  /** An occurrence in a + b that straddles |a|: its part in a is a suffix of a
      that starts t, and the rest of t starts b. */
  lemma OccursAcross(a: string, b: string, t: string, i: int)
    requires 0 <= i < |a| < i + |t|
    ensures OccursAt(a + b, t, i) ==> IsPrefix(a[i..], t) && IsPrefix(t[|a| - i..], b)
  {
    if OccursAt(a + b, t, i) {
      assert t[..|a| - i] == (a + b)[i..|a|] == a[i..];
      assert t[|a| - i..] == (a + b)[|a|..i + |t|] == b[..i + |t| - |a|];
    }
  }

  /** Every occurrence in a suffix of s is an occurrence in s. */
  lemma ContainsSuffix(s: string, k: nat, t: string)
    requires k <= |s|
    ensures Contains(s[k..], t) ==> Contains(s, t)
  {
    assert s == s[..k] + s[k..];
    ContainsAppend(s[..k], s[k..], t);
  }

  /** A string shorter than t does not contain t. */
  lemma ShortNotContains(s: string, t: string)
    requires |s| < |t|
    ensures !Contains(s, t)
  {
  }

  /** A character of t that never appears in s rules out every occurrence. */
  lemma CharWitness(s: string, t: string, x: char)
    requires x in t && x !in s
    ensures !Contains(s, t)
  {
    var a :| 0 <= a < |t| && t[a] == x;
    forall i | 0 <= i <= |s| - |t| ensures !OccursAt(s, t, i) {
      assert s[i..i + |t|][a] == s[i + a];
    }
  }

  /** An occurrence at i agrees with t character by character. */
  lemma OccursAtChar(s: string, t: string, i: int, k: int)
    requires 0 <= k < |t|
    ensures OccursAt(s, t, i) ==> s[i + k] == t[k]
  {
    if OccursAt(s, t, i) {
      assert s[i..i + |t|][k] == s[i + k];
    }
  }

  /** A match at the very start is replaced and the rest, free of the
      pattern, is copied. */
  lemma ReplaceLeading(pat: string, w: string, sub: string)
    requires |pat| > 0 && !Contains(w, pat)
    ensures ReplaceAll(pat + w, pat, sub) == sub + w
  {
    assert (pat + w)[..|pat|] == pat;
    assert (pat + w)[|pat|..] == w;
  }

  /** A replacement whose text contains its own pattern and is longer than
      it never reaches a fixed point on text that contains the pattern: each
      run leaves the pattern behind and makes the text longer. */
  lemma ReplaceAllGrows(s: string, pat: string, sub: string)
    requires |pat| > 0 && Contains(sub, pat) && |sub| > |pat|
    requires Contains(s, pat)
    ensures Contains(ReplaceAll(s, pat, sub), pat)
    ensures |ReplaceAll(ReplaceAll(s, pat, sub), pat, sub)| > |ReplaceAll(s, pat, sub)|
  {
    ContainsTrans(ReplaceAll(s, pat, sub), sub, pat);
  }
  /** Replace-all works piecewise across a cut that no occurrence of the
      pattern straddles: each side is rewritten on its own and nothing else
      changes. */
  lemma {:induction false} ReplaceAllSplit(a: string, b: string, pat: string, sub: string)
    requires |pat| > 0
    requires forall i | 0 <= i < |a| < i + |pat| :: !OccursAt(a + b, pat, i)
    ensures ReplaceAll(a + b, pat, sub) == ReplaceAll(a, pat, sub) + ReplaceAll(b, pat, sub)
    decreases |a|
  {
    if |a| == 0 {
      assert a + b == b;
    } else {
      HeadAgrees(a, b, pat);
      var n := if IsPrefix(pat, a) then |pat| else 1;
      DropFront(a, b, pat, n);
      ReplaceAllSplit(a[n..], b, pat, sub);
    }
  }

  /** Away from the cut, a match at the start of a + b is a match at the
      start of a. */
  lemma HeadAgrees(a: string, b: string, pat: string)
    requires |a| > 0 && |pat| > 0
    requires forall i | 0 <= i < |a| < i + |pat| :: !OccursAt(a + b, pat, i)
    ensures IsPrefix(pat, a + b) <==> IsPrefix(pat, a)
  {
    OccursAtIsPrefix(a + b, pat, 0);
    assert (a + b)[0..] == a + b;
    if |pat| <= |a| {
      assert (a + b)[..|pat|] == a[..|pat|];
    }
  }

  /** Dropping n characters of a keeps the cut clear of straddling matches. */
  lemma DropFront(a: string, b: string, pat: string, n: int)
    requires 0 < n <= |a|
    requires forall i | 0 <= i < |a| < i + |pat| :: !OccursAt(a + b, pat, i)
    ensures (a + b)[n..] == a[n..] + b
    ensures forall i | 0 <= i < |a[n..]| < i + |pat| :: !OccursAt(a[n..] + b, pat, i)
  {
    assert a + b == a[..n] + (a[n..] + b);
    forall i | 0 <= i < |a[n..]| < i + |pat| ensures !OccursAt(a[n..] + b, pat, i) {
      OccursRight(a[..n], a[n..] + b, pat, i + n);
    }
  }

  /** A lone occurrence is replaced and the text around it is copied: no
      occurrence starts before it and none follows it. */
  lemma ReplaceAllSingle(p: string, w: string, pat: string, sub: string)
    requires |pat| > 0
    requires forall i | 0 <= i < |p| :: !OccursAt(p + pat + w, pat, i)
    requires !Contains(w, pat)
    ensures ReplaceAll(p + pat + w, pat, sub) == p + sub + w
  {
    assert p + pat + w == p + (pat + w);
    ReplaceAllSplit(p, pat + w, pat, sub);
    forall i | 0 <= i <= |p| - |pat| ensures !OccursAt(p, pat, i) {
      OccursLeft(p, pat + w, pat, i);
    }
    ReplaceLeading(pat, w, sub);
    assert p + (sub + w) == p + sub + w;
  }
}
