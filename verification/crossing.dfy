/** When can a replacement create, or destroy, an occurrence of some text t?
    Only where t and the inserted (or removed) text line up against each
    other. This module names that alignment, proves what ReplaceAll does to
    occurrences of t when no alignment is possible, and gives character-level
    tests that rule alignments out for concrete strings. */
module Crossing {
  import opened Text

  /** One of a and b is a prefix of the other: text starting with a could
      also be starting with b. */
  predicate Compatible(a: string, b: string) {
    IsPrefix(a, b) || IsPrefix(b, a)
  }

  /** No suffix of r can be the start of an occurrence of t. */
  ghost predicate TailsClear(r: string, t: string) {
    forall k | 0 <= k < |r| :: !Compatible(r[k..], t)
  }

  /** No occurrence of t that starts before r can run into r. */
  ghost predicate HeadsClear(r: string, t: string) {
    forall j | 0 < j < |t| :: !Compatible(t[j..], r)
  }

  /** An occurrence of t can neither start inside r nor run into it. */
  ghost predicate NoCrossing(r: string, t: string) {
    TailsClear(r, t) && HeadsClear(r, t)
  }

  /** Compatible strings agree wherever both are defined. */
  lemma CompatibleAgree(a: string, b: string, i: int)
    requires 0 <= i < |a| && i < |b|
    ensures Compatible(a, b) ==> a[i] == b[i]
  {
    if IsPrefix(a, b) {
      assert b[..|a|][i] == b[i];
    }
    if IsPrefix(b, a) {
      assert a[..|b|][i] == a[i];
    }
  }

  /** Two prefixes of one string are compatible. */
  lemma PrefixesCompatible(a: string, b: string, s: string)
    requires IsPrefix(a, s) && IsPrefix(b, s)
    ensures Compatible(a, b)
  {
    if |a| <= |b| {
      assert b[..|a|] == s[..|b|][..|a|] == s[..|a|];
    } else {
      assert a[..|b|] == s[..|a|][..|b|] == s[..|b|];
    }
  }

  /** A common start does not change compatibility. */
  lemma CommonPrefixCompatible(p: string, a: string, b: string)
    ensures Compatible(p + a, p + b) <==> Compatible(a, b)
  {
    if IsPrefix(p + a, p + b) {
      assert (p + b)[..|p + a|][|p|..] == b[..|a|];
    }
    if IsPrefix(p + b, p + a) {
      assert (p + a)[..|p + b|][|p|..] == a[..|b|];
    }
    if IsPrefix(a, b) {
      assert (p + b)[..|p + a|] == p + b[..|a|];
    }
    if IsPrefix(b, a) {
      assert (p + a)[..|p + b|] == p + a[..|b|];
    }
  }

  /** An occurrence of t in a + b that starts inside a lines up a suffix of a
      with t. */
  lemma StartsInside(a: string, b: string, t: string, k: int)
    requires 0 <= k < |a|
    ensures OccursAt(a + b, t, k) ==> Compatible(a[k..], t)
  {
    if k + |t| <= |a| {
      OccursLeft(a, b, t, k);
      OccursAtIsPrefix(a, t, k);
    } else {
      OccursAcross(a, b, t, k);
    }
  }

  // ---------------------------------------------------------------------------
  // What ReplaceAll does to occurrences of t
  // ---------------------------------------------------------------------------

  /** An occurrence of t in p + (sub + r) that starts in p and ends past it
      lines up the rest of t with sub. */
  lemma RunsInto(p: string, sub: string, r: string, t: string, i: int)
    requires 0 <= i < |p| < i + |t|
    ensures OccursAt(p + (sub + r), t, i) ==> Compatible(t[|p| - i..], sub)
  {
    OccursAcross(p, sub + r, t, i);
    if OccursAt(p + (sub + r), t, i) {
      assert (sub + r)[..|sub|] == sub;
      PrefixesCompatible(t[|p| - i..], sub, sub + r);
    }
  }

  /** The occurrences of t in p + sub + r are those of p + s and of r, when
      none can cross into sub. */
  lemma SpliceNoOccurrence(p: string, s: string, sub: string, r: string, t: string)
    requires |t| > 0
    requires NoCrossing(sub, t)
    requires forall i | 0 <= i < |p| :: !OccursAt(p + s, t, i)
    requires !Contains(r, t)
    ensures !Contains(p + (sub + r), t)
  {
    var x := p + (sub + r);
    forall i | 0 <= i <= |x| - |t| ensures !OccursAt(x, t, i) {
      if i < |p| {
        if i + |t| <= |p| {
          OccursLeft(p, sub + r, t, i);
          OccursLeft(p, s, t, i);
        } else {
          RunsInto(p, sub, r, t, i);
        }
      } else {
        OccursRight(p, sub + r, t, i);
        var k := i - |p|;
        if k < |sub| {
          StartsInside(sub, r, t, k);
        } else {
          OccursRight(sub, r, t, k);
        }
      }
    }
  }

  /** ReplaceAll creates no occurrence of t when t cannot cross the
      replacement text, and it leaves no occurrence of its own pattern when the
      pattern cannot cross the replacement text. The prefix p stands for text
      already copied: no occurrence of t starts in it. */
  lemma {:induction false} NoFreshOccurrence(p: string, s: string, pat: string, sub: string, t: string)
    requires |pat| > 0 && |t| > 0
    requires NoCrossing(sub, t)
    requires t == pat || !Contains(p + s, t)
    requires forall i | 0 <= i < |p| :: !OccursAt(p + s, t, i)
    ensures !Contains(p + ReplaceAll(s, pat, sub), t)
    decreases |s|
  {
    if |s| == 0 {
      assert p + ReplaceAll(s, pat, sub) == p + s;
    } else if IsPrefix(pat, s) {
      var rest := s[|pat|..];
      MatchedHead(p, s, pat, t);
      NoFreshOccurrence([], rest, pat, sub, t);
      SpliceMatch(p, s, pat, sub, t);
    } else {
      var p' := p + [s[0]];
      CopiedHead(p, s, pat, t);
      NoFreshOccurrence(p', s[1..], pat, sub, t);
      CopyStep(p, s, pat, sub);
    }
  }

  /** The text after a match at the start of s keeps the precondition of
      NoFreshOccurrence, with nothing copied yet. */
  lemma MatchedHead(p: string, s: string, pat: string, t: string)
    requires IsPrefix(pat, s)
    requires t == pat || !Contains(p + s, t)
    ensures [] + s[|pat|..] == s[|pat|..]
    ensures t == pat || !Contains([] + s[|pat|..], t)
  {
    assert [] + s[|pat|..] == s[|pat|..];
    assert (p + s)[|p| + |pat|..] == s[|pat|..];
    ContainsSuffix(p + s, |p| + |pat|, t);
  }

  /** Replacing a match at the start of s by sub adds no occurrence of t to
      the copied text p. */
  lemma SpliceMatch(p: string, s: string, pat: string, sub: string, t: string)
    requires |pat| > 0 && |t| > 0
    requires IsPrefix(pat, s) && |s| > 0
    requires NoCrossing(sub, t)
    requires forall i | 0 <= i < |p| :: !OccursAt(p + s, t, i)
    requires !Contains([] + ReplaceAll(s[|pat|..], pat, sub), t)
    ensures !Contains(p + ReplaceAll(s, pat, sub), t)
  {
    var r := ReplaceAll(s[|pat|..], pat, sub);
    assert [] + r == r;
    SpliceNoOccurrence(p, s, sub, r, t);
    assert p + ReplaceAll(s, pat, sub) == p + (sub + r);
  }

  /** Copying the first character of s onto p keeps the invariant of
      NoFreshOccurrence when s does not start with a match. */
  lemma CopiedHead(p: string, s: string, pat: string, t: string)
    requires |s| > 0 && !IsPrefix(pat, s)
    requires t == pat || !Contains(p + s, t)
    requires forall i | 0 <= i < |p| :: !OccursAt(p + s, t, i)
    ensures (p + [s[0]]) + s[1..] == p + s
    ensures forall i | 0 <= i < |p| + 1 :: !OccursAt((p + [s[0]]) + s[1..], t, i)
  {
    assert (p + [s[0]]) + s[1..] == p + s;
    OccursAtIsPrefix(p + s, t, |p|);
    assert (p + s)[|p|..] == s;
  }

  /** Copying one character that does not start a match. */
  lemma CopyStep(p: string, s: string, pat: string, sub: string)
    requires |pat| > 0 && |s| > 0 && !IsPrefix(pat, s)
    ensures p + ReplaceAll(s, pat, sub) == (p + [s[0]]) + ReplaceAll(s[1..], pat, sub)
  {
  }

  /** After ReplaceAll the pattern is gone, when it cannot cross its own
      replacement text. */
  lemma PatternGone(s: string, pat: string, sub: string)
    requires |pat| > 0
    requires NoCrossing(sub, pat)
    ensures !Contains(ReplaceAll(s, pat, sub), pat)
  {
    assert [] + s == s;
    NoFreshOccurrence([], s, pat, sub, pat);
    assert [] + ReplaceAll(s, pat, sub) == ReplaceAll(s, pat, sub);
  }

  /** ReplaceAll does not create t when t cannot cross the replacement text. */
  lemma StaysAbsent(s: string, pat: string, sub: string, t: string)
    requires |pat| > 0 && |t| > 0
    requires NoCrossing(sub, t)
    requires !Contains(s, t)
    ensures !Contains(ReplaceAll(s, pat, sub), t)
  {
    assert [] + s == s;
    NoFreshOccurrence([], s, pat, sub, t);
    assert [] + ReplaceAll(s, pat, sub) == ReplaceAll(s, pat, sub);
  }

  /** A prefix w of s survives ReplaceAll when no match starts inside it. */
  lemma {:induction false} PrefixSurvives(s: string, w: string, pat: string, sub: string)
    requires |pat| > 0
    requires IsPrefix(w, s)
    requires forall i | 0 <= i < |w| :: !IsPrefix(pat, s[i..])
    ensures IsPrefix(w, ReplaceAll(s, pat, sub))
    decreases |s|
  {
    if |w| > 0 {
      assert s[0..] == s;
      forall i | 0 <= i < |w| - 1 ensures !IsPrefix(pat, s[1..][i..]) {
        assert s[1..][i..] == s[i + 1..];
      }
      assert s[1..][..|w| - 1] == w[1..];
      PrefixSurvives(s[1..], w[1..], pat, sub);
      var r := ReplaceAll(s[1..], pat, sub);
      assert ([s[0]] + r)[..|w|] == [s[0]] + r[..|w| - 1];
    }
  }

  /** A prefix of s that starts at index i starts s[i..]. */
  lemma PrefixShift(t: string, s: string, i: int)
    requires IsPrefix(t, s) && 0 <= i <= |t|
    ensures IsPrefix(t[i..], s[i..])
  {
    assert s[i..][..|t| - i] == s[..|t|][i..];
  }

  /** ReplaceAll keeps every occurrence of t that the pattern cannot overlap. */
  lemma {:induction false} OccurrenceSurvives(s: string, t: string, i: int, pat: string, sub: string)
    requires |pat| > 0 && |t| > 0
    requires NoCrossing(pat, t)
    requires OccursAt(s, t, i)
    ensures Contains(ReplaceAll(s, pat, sub), t)
    decreases |s|
  {
    OccursAtIsPrefix(s, t, i);
    if IsPrefix(pat, s) {
      if i < |pat| {
        PrefixShift(pat, s, i);
        PrefixesCompatible(pat[i..], t, s[i..]);
        assert false;
      }
      var rest := s[|pat|..];
      assert s[i..] == rest[i - |pat|..];
      OccursAtIsPrefix(rest, t, i - |pat|);
      OccurrenceSurvives(rest, t, i - |pat|, pat, sub);
      ContainsAppend(sub, ReplaceAll(rest, pat, sub), t);
    } else if i > 0 {
      assert s[i..] == s[1..][i - 1..];
      OccursAtIsPrefix(s[1..], t, i - 1);
      OccurrenceSurvives(s[1..], t, i - 1, pat, sub);
      ContainsConsFromTail(s[0], ReplaceAll(s[1..], pat, sub), t);
    } else {
      assert s[0..] == s;
      forall k | 0 <= k < |t| ensures !IsPrefix(pat, s[k..]) {
        if k > 0 {
          PrefixShift(t, s, k);
          if IsPrefix(pat, s[k..]) {
            PrefixesCompatible(t[k..], pat, s[k..]);
          }
        }
      }
      PrefixSurvives(s, t, pat, sub);
      PrefixContains(t, ReplaceAll(s, pat, sub));
    }
  }

  /** ReplaceAll keeps a leading t at the start when the pattern cannot
      overlap t. */
  lemma PrefixStays(s: string, t: string, pat: string, sub: string)
    requires |pat| > 0
    requires NoCrossing(pat, t)
    requires IsPrefix(t, s)
    ensures IsPrefix(t, ReplaceAll(s, pat, sub))
  {
    assert pat[0..] == pat;
    forall k | 0 <= k < |t| ensures !IsPrefix(pat, s[k..]) {
      PrefixShift(t, s, k);
      if IsPrefix(pat, s[k..]) {
        PrefixesCompatible(t[k..], pat, s[k..]);
      }
    }
    PrefixSurvives(s, t, pat, sub);
  }

  /** ReplaceAll keeps t present when the pattern cannot overlap t. */
  lemma StaysPresent(s: string, t: string, pat: string, sub: string)
    requires |pat| > 0 && |t| > 0
    requires NoCrossing(pat, t)
    requires Contains(s, t)
    ensures Contains(ReplaceAll(s, pat, sub), t)
  {
    var i :| 0 <= i <= |s| - |t| && OccursAt(s, t, i);
    OccurrenceSurvives(s, t, i, pat, sub);
  }

  // ---------------------------------------------------------------------------
  // Character-level tests that rule crossings out
  // ---------------------------------------------------------------------------

  /** Strings that differ in their first character are not compatible. */
  lemma FirstCharIncompatible(a: string, b: string)
    requires |a| > 0 && |b| > 0 && a[0] != b[0]
    ensures !Compatible(a, b)
  {
    CompatibleAgree(a, b, 0);
  }

  /** No suffix of r lines up with t when t's first character is not in r. */
  lemma TailsByFirstChar(r: string, t: string)
    requires |t| > 0 && t[0] !in r
    ensures TailsClear(r, t)
  {
    forall k | 0 <= k < |r| ensures !Compatible(r[k..], t) {
      FirstCharIncompatible(r[k..], t);
    }
  }

  /** No occurrence of t runs into r when r's first character is not in t. */
  lemma HeadsByFirstChar(r: string, t: string)
    requires |r| > 0 && r[0] !in t
    ensures HeadsClear(r, t)
  {
    forall j | 0 < j < |t| ensures !Compatible(t[j..], r) {
      FirstCharIncompatible(t[j..], r);
    }
  }

  /** A separator character x that t lacks splits the question: the suffixes
      of l + [x] + rest are clear when t does not occur in l and the suffixes
      of rest are clear. */
  lemma TailsBySeparator(l: string, x: char, rest: string, t: string)
    requires |t| > 0 && x !in t
    requires !Contains(l, t)
    requires TailsClear(rest, t)
    ensures TailsClear(l + [x] + rest, t)
  {
    var r := l + [x] + rest;
    forall k | 0 <= k < |r| ensures !Compatible(r[k..], t) {
      if k <= |l| {
        if |l| - k < |t| {
          CompatibleAgree(r[k..], t, |l| - k);
          assert r[k..][|l| - k] == x;
        } else {
          assert r[k..][..|t|] == l[k..k + |t|];
          assert !OccursAt(l, t, k);
        }
      } else {
        assert r[k..] == rest[k - |l| - 1..];
      }
    }
  }

  /** A separator character x that t lacks, placed after l, stops every
      occurrence of t that runs into l + [x] + rest, when t's last character
      is not in l. */
  lemma HeadsBySeparator(l: string, x: char, rest: string, t: string)
    requires |t| > 0 && x !in t
    requires t[|t| - 1] !in l
    ensures HeadsClear(l + [x] + rest, t)
  {
    var r := l + [x] + rest;
    forall j | 0 < j < |t| ensures !Compatible(t[j..], r) {
      if |t| - j > |l| {
        CompatibleAgree(t[j..], r, |l|);
        assert r[|l|] == x;
      } else {
        CompatibleAgree(t[j..], r, |t| - j - 1);
        assert r[|t| - j - 1] == l[|t| - j - 1];
      }
    }
  }

  /** Two lines that share the start a + [y] and then diverge: if y occurs
      nowhere else in the line r, no suffix of r lines up with t. */
  lemma TailsByAnchor(a: string, y: char, b: string, c: string)
    requires y !in a && y !in b
    requires |b| > 0 && b[|b| - 1] !in a
    requires !Compatible(b, c)
    ensures TailsClear(a + [y] + b, a + [y] + c)
  {
    var r := a + [y] + b;
    var t := a + [y] + c;
    forall k | 0 <= k < |r| ensures !Compatible(r[k..], t) {
      if k == 0 {
        assert r[0..] == r;
        CommonPrefixCompatible(a + [y], b, c);
      } else if |r| - k > |a| {
        CompatibleAgree(r[k..], t, |a|);
        assert r[k..][|a|] == b[k - 1];
      } else {
        CompatibleAgree(r[k..], t, |r| - k - 1);
        assert r[k..][|r| - k - 1] == b[|b| - 1];
        assert t[|r| - k - 1] == a[|r| - k - 1];
      }
    }
  }
}
