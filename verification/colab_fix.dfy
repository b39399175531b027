/** colab_fix.py: the import fix as a loop over import variants, and the
    Cython fix as a directive check followed by a list of type rewrites. */
module ColabFix {
  import opened Text
  import opened Literals
  import opened Patch
  import opened Rules
  import FixImport

  /** The variants, MobileNetV2 form first. */
  const ImportVariants: seq<Rule> :=
    [Rule(OldImportMobile, NewImportMobile), Rule(OldImportShort, NewImportShort)]

  /** False and no write for a missing file; True and no write when the fix
      is already applied; otherwise the first variant that occurs is
      rewritten and the loop stops, and when none occurs the result is False
      with no write. */
  function FixImportIssue(f: Option<string>): (st: Step)
    ensures f.None? ==> st == Step(None, false)
    ensures f.Some? && Contains(f.value, FixedImportMarker) ==> st == Step(None, true)
    ensures f.Some? && !Contains(f.value, FixedImportMarker) ==>
      (st.ok <==> Contains(f.value, OldImportMobile) || Contains(f.value, OldImportShort))
    ensures !st.ok ==> st.written.None?
  {
    if f.None? then Step(None, false)
    else if Contains(f.value, FixedImportMarker) then Step(None, true)
    else
      match ApplyFirst(f.value, ImportVariants)
      case None =>
        assert !Contains(f.value, ImportVariants[0].trigger) && !Contains(f.value, ImportVariants[1].trigger);
        Step(None, false)
      case Some(r) => Step(Some(r), true)
  }

  /** The loop with `break` does exactly what the if/elif chain of
      fix_import.py does. */
  lemma LoopMatchesElif(f: Option<string>)
    ensures FixImportIssue(f) == FixImport.FixImportIssue(f)
  {
    if f.Some? && !Contains(f.value, FixedImportMarker) {
      var s := f.value;
      assert ImportVariants[0] == Rule(OldImportMobile, NewImportMobile);
      assert ImportVariants[1..] == [Rule(OldImportShort, NewImportShort)];
      assert ImportVariants[1..][1..] == [];
    }
  }

  /** After a rewrite the marker is present, so a second call is a no-op
      returning True. */
  lemma FixImportIssueRerun(f: Option<string>)
    requires FixImportIssue(f).written.Some?
    ensures FixImportIssue(FixImportIssue(f).written) == Step(None, true)
  {
    LoopMatchesElif(f);
    FixImport.FixImportIssueRerun(f);
    LoopMatchesElif(FixImportIssue(f).written);
  }

  /** The replacement list as written: np.int_t, then dtype=np.int, then
      dtype=np.int64, each applied when its text occurs. */
  function TypeRules(s: string): (r: string)
    ensures !Contains(r, IntT)
    ensures Contains(s, Directive) ==> Contains(r, Directive)
    ensures IsPrefix(Directive, s) ==> IsPrefix(Directive, r)
    ensures !Contains(s, IntT) && !Contains(s, DtypeInt) ==> r == s
  {
    DtypeInt64HoldsDtypeInt(s);
    FixDtype64(FixDtype(FixIntT(s)))
  }

  /** False and no write for a missing file; otherwise the directive is
      ensured, the type rules run, the result is written and the result is
      True. */
  function FixCythonIssue(f: Option<string>): (st: Step)
    ensures st.ok <==> f.Some?
    ensures f.None? ==> st.written.None?
    ensures f.Some? ==> st.written.Some? && Contains(st.written.value, Directive) && !Contains(st.written.value, IntT)
    ensures f.Some? && (!Contains(f.value, Directive) || IsPrefix(Directive, f.value)) ==>
      IsPrefix(Directive, st.written.value)
    ensures f.Some? && Contains(f.value, Directive) && !Contains(f.value, IntT) && !Contains(f.value, DtypeInt) ==>
      st.written == f
  {
    if f.None? then Step(None, false)
    else Step(Some(TypeRules(PrependIfAbsent(f.value, Directive))), true)
  }

  /** `main`: nothing outside a checkout; otherwise both fixes run and success
      is reported when the config file holds the marker or one of the import
      variants and the Cython file exists. */
  function Main(t: Tree): (r: Report)
    ensures r.NotInRepo? <==> !t.hasRepo
    ensures r.Reported? ==> (r.allFixed <==>
      t.config.Some? && t.cython.Some? &&
      (Contains(t.config.value, FixedImportMarker) || Contains(t.config.value, OldImportMobile) || Contains(t.config.value, OldImportShort)))
    ensures r.Reported? ==> r.writes.yolact.None? && r.writes.augmentations.None? && r.writes.outputUtils.None?
  {
    if !t.hasRepo then NotInRepo
    else
      var imp := FixImportIssue(t.config);
      var cy := FixCythonIssue(t.cython);
      Reported(NoWrites.(config := imp.written, cython := cy.written), imp.ok && cy.ok)
  }

  // ---------------------------------------------------------------------------
  // The rule order
  // ---------------------------------------------------------------------------

  /** dtype=np.int also matches the start of dtype=np.int64, and it runs
      first: dtype=np.int64 ends up as dtype=np.int3264, and the third rule
      never sees its trigger. */
  lemma TypeRulesMangleInt64()
    ensures TypeRules(DtypeInt64) == DtypeInt + "3264"
  {
    CharWitness(DtypeInt64, IntT, '_');
    ShortNotContains("64", DtypeInt);
    ReplaceLeading(DtypeInt, "64", DtypeInt32);
    assert DtypeInt32 + "64" == DtypeInt + "3264";
    NoInt64InMangled();
  }

  lemma NoInt64InMangled()
    ensures !Contains(DtypeInt + "3264", DtypeInt64)
  {
    var s := DtypeInt + "3264";
    forall i | 0 <= i <= |s| - |DtypeInt64| ensures !OccursAt(s, DtypeInt64, i) {
      if i == 0 {
        OccursAtChar(s, DtypeInt64, 0, 12);
      } else {
        OccursAtChar(s, DtypeInt64, i, 0);
      }
    }
  }

  /** Text already converted is converted again: dtype=np.int32 becomes
      dtype=np.int3232. */
  lemma TypeRulesMangleInt32()
    ensures TypeRules(DtypeInt32) == DtypeInt + "3232"
  {
    CharWitness(DtypeInt32, IntT, '_');
    DtypeRerunCounterexample();
    NoInt64In3232();
  }

  lemma NoInt64In3232()
    ensures !Contains(DtypeInt + "3232", DtypeInt64)
  {
    assert '6' in DtypeInt64;
    assert '6' !in DtypeInt + "3232";
    CharWitness(DtypeInt + "3232", DtypeInt64, '6');
  }

  /** Can c continue a Python name (ASCII letter, digit or underscore)? */
  predicate IsNameChar(c: char) {
    'a' <= c <= 'z' || 'A' <= c <= 'Z' || '0' <= c <= '9' || c == '_'
  }

  /** pat occurs at i and is not followed by a name character: it is the
      whole name, not the start of a longer one such as np.int32 or
      np.intp. */
  predicate BareAt(s: string, pat: string, i: int) {
    OccursAt(s, pat, i) && (i + |pat| == |s| || !IsNameChar(s[i + |pat|]))
  }

  /** ReplaceAll restricted to bare occurrences: an occurrence of pat that is
      followed by a name character is part of a longer name and is copied
      unchanged. */
  function ReplaceBare(s: string, pat: string, sub: string): (r: string)
    requires |pat| > 0
    ensures !Contains(s, pat) ==> r == s
    decreases |s|
  {
    if |s| == 0 then s
    else if IsPrefix(pat, s) then
      PrefixContains(pat, s);
      if |s| > |pat| && IsNameChar(s[|pat|]) then pat + ReplaceBare(s[|pat|..], pat, sub)
      else sub + ReplaceBare(s[|pat|..], pat, sub)
    else
      ContainsTailIff(s, pat);
      ConsTail(s);
      [s[0]] + ReplaceBare(s[1..], pat, sub)
  }

  /** A longer name is kept, and scanning resumes at its next character. */
  lemma BareKeepsLonger(pat: string, c: char, w: string, sub: string)
    requires |pat| > 0 && IsNameChar(c)
    ensures ReplaceBare(pat + ([c] + w), pat, sub) == pat + ReplaceBare([c] + w, pat, sub)
  {
    var s := pat + ([c] + w);
    assert s[..|pat|] == pat;
    assert s[|pat|] == c;
    assert s[|pat|..] == [c] + w;
  }

  /** A bare occurrence at the very end is replaced. */
  lemma BareReplacesAtEnd(pat: string, sub: string)
    requires |pat| > 0
    ensures ReplaceBare(pat, pat, sub) == sub
  {
    assert pat[..|pat|] == pat;
    assert pat[|pat|..] == [];
  }

  /** The shape of pattern and replacement the bare-name argument needs:
      the replacement extends the pattern by a name character, and the first
      character of the pattern appears nowhere else in either. */
  predicate BareRule(pat: string, sub: string) {
    |pat| > 0 && IsPrefix(pat, sub) && |sub| > |pat| &&
    IsNameChar(pat[0]) && IsNameChar(sub[|pat|]) &&
    pat[0] !in pat[1..] && pat[0] !in sub[1..]
  }

  /** The output of ReplaceBare starts with the input's first character or
      with the pattern's. */
  lemma BareFirst(u: string, pat: string, sub: string)
    requires BareRule(pat, sub)
    ensures |u| > 0 ==>
      (|ReplaceBare(u, pat, sub)| > 0 &&
       (ReplaceBare(u, pat, sub)[0] == u[0] || ReplaceBare(u, pat, sub)[0] == pat[0]))
  {
  }

  /** Output whose first character is not the pattern's first character
      copied that character from the input. */
  lemma BareCopiedHead(u: string, pat: string, sub: string)
    requires BareRule(pat, sub) && |u| > 0
    requires |ReplaceBare(u, pat, sub)| > 0 && ReplaceBare(u, pat, sub)[0] != pat[0]
    ensures ReplaceBare(u, pat, sub) == [u[0]] + ReplaceBare(u[1..], pat, sub)
  {
    assert sub[0] == pat[0];
    assert !IsPrefix(pat, u);
  }

  /** Output that starts with text free of the pattern's first character was
      copied from input that starts with the same text. */
  lemma {:induction false} BareCopiedStart(u: string, w: string, pat: string, sub: string)
    requires BareRule(pat, sub) && pat[0] !in w
    ensures IsPrefix(w, ReplaceBare(u, pat, sub)) ==> IsPrefix(w, u)
    decreases |w|
  {
    if |w| > 0 && IsPrefix(w, ReplaceBare(u, pat, sub)) {
      assert |u| > 0;
      assert w[0] != pat[0];
      BareCopiedHead(u, pat, sub);
      ConsPrefix(w, u[0], ReplaceBare(u[1..], pat, sub));
      assert pat[0] !in w[1..];
      BareCopiedStart(u[1..], w[1..], pat, sub);
      ConsPrefix(w, u[0], u[1..]);
      assert u == [u[0]] + u[1..];
    }
  }

  /** A bare occurrence at or after |a| in a + b is a bare occurrence in b. */
  lemma BareRight(a: string, b: string, pat: string, i: int)
    requires i >= |a|
    ensures BareAt(a + b, pat, i) ==> BareAt(b, pat, i - |a|)
  {
    OccursRight(a, b, pat, i);
  }

  /** No character of x at index 1 or later is the pattern's first
      character, so no occurrence starts inside x. */
  lemma NoStartInside(x: string, r: string, pat: string, i: int)
    requires |pat| > 0 && 0 < i < |x| && pat[0] !in x[1..]
    ensures !OccursAt(x + r, pat, i)
  {
    OccursAtChar(x + r, pat, i, 0);
    assert (x + r)[i] == x[1..][i - 1];
  }

  /** ReplaceBare leaves no bare occurrence of its pattern: every occurrence
      left is followed by a name character. */
  lemma {:induction false} BareGone(s: string, pat: string, sub: string)
    requires BareRule(pat, sub)
    ensures forall i | 0 <= i <= |ReplaceBare(s, pat, sub)| :: !BareAt(ReplaceBare(s, pat, sub), pat, i)
    decreases |s|
  {
    var r := ReplaceBare(s, pat, sub);
    if |s| > 0 {
      if IsPrefix(pat, s) {
        var rest := s[|pat|..];
        BareGone(rest, pat, sub);
        var r' := ReplaceBare(rest, pat, sub);
        var x := if |s| > |pat| && IsNameChar(s[|pat|]) then pat else sub;
        assert r == x + r';
        assert pat[0] !in x[1..];
        BareFirst(rest, pat, sub);
        forall i | 0 <= i <= |r| ensures !BareAt(r, pat, i) {
          if i == 0 {
            assert |r| > |pat|;
            assert r[|pat|] == (if x == pat then r'[0] else sub[|pat|]);
          } else if i < |x| {
            NoStartInside(x, r', pat, i);
          } else {
            BareRight(x, r', pat, i);
          }
        }
      } else {
        BareGone(s[1..], pat, sub);
        var r' := ReplaceBare(s[1..], pat, sub);
        assert r == [s[0]] + r';
        BareCopiedStart(s[1..], pat[1..], pat, sub);
        forall i | 0 <= i <= |r| ensures !BareAt(r, pat, i) {
          if i == 0 {
            BareHead(s, r', pat);
          } else {
            BareRight([s[0]], r', pat, i);
          }
        }
      }
    }
  }

  /** An occurrence at the start of [s[0]] + r' puts the rest of the
      pattern at the start of r', and with it the whole pattern at the
      start of s. */
  lemma BareHead(s: string, r': string, pat: string)
    requires |s| > 0 && |pat| > 0
    requires IsPrefix(pat[1..], r') ==> IsPrefix(pat[1..], s[1..])
    ensures OccursAt([s[0]] + r', pat, 0) ==> IsPrefix(pat, s)
  {
    if OccursAt([s[0]] + r', pat, 0) {
      assert ([s[0]] + r')[..|pat|] == pat;
      assert r'[..|pat| - 1] == pat[1..];
      assert s[..|pat|] == [s[0]] + s[1..][..|pat| - 1];
    }
  }

  /** dtype=np.int and dtype=np.int32 have the shape BareGone needs. */
  lemma DtypeBareRule()
    ensures BareRule(DtypeInt, DtypeInt32)
  {
    assert DtypeInt32[..|DtypeInt|] == DtypeInt;
    assert DtypeInt32[1..] == DtypeInt[1..] + "32";
    assert DtypeInt32[|DtypeInt|] == '3';
  }

  /** The replacement list in the order its comment intends: np.int_t, then
      dtype=np.int64, then only the bare dtype=np.int. Every dtype=np.int
      left in the result is the start of a longer name such as
      dtype=np.int32 or dtype=np.intp. */
  function TypeRulesCorrected(s: string): (r: string)
    ensures forall i | 0 <= i <= |r| :: !BareAt(r, DtypeInt, i)
  {
    DtypeBareRule();
    BareGone(FixDtype64(FixIntT(s)), DtypeInt, DtypeInt32);
    ReplaceBare(FixDtype64(FixIntT(s)), DtypeInt, DtypeInt32)
  }

  /** Platform-sized names such as dtype=np.intp are left alone. */
  lemma CorrectedKeepsIntp()
    ensures TypeRulesCorrected(DtypeInt + "p") == DtypeInt + "p"
  {
    var s := DtypeInt + "p";
    assert '_' in IntT && '_' !in s;
    CharWitness(s, IntT, '_');
    assert '6' in DtypeInt64 && '6' !in s;
    CharWitness(s, DtypeInt64, '6');
    assert s == DtypeInt + (['p'] + "");
    BareKeepsLonger(DtypeInt, 'p', "", DtypeInt32);
    ShortNotContains("p", DtypeInt);
    assert ['p'] + "" == "p";
  }

  /** With the corrected order, dtype=np.int64 and dtype=np.int become
      dtype=np.int32, and dtype=np.int32 stays as it is. */
  lemma TypeRulesCorrectedConvert()
    ensures TypeRulesCorrected(DtypeInt64) == DtypeInt32
    ensures TypeRulesCorrected(DtypeInt32) == DtypeInt32
    ensures TypeRulesCorrected(DtypeInt) == DtypeInt32
  {
    CorrectedKeepsInt32();
    CorrectedConvertsInt64();
    CorrectedConvertsBare();
  }

  lemma CorrectedKeepsInt32()
    ensures ReplaceBare(DtypeInt32, DtypeInt, DtypeInt32) == DtypeInt32
    ensures TypeRulesCorrected(DtypeInt32) == DtypeInt32
  {
    assert DtypeInt32 == DtypeInt + (['3'] + "2");
    BareKeepsLonger(DtypeInt, '3', "2", DtypeInt32);
    ShortNotContains("32", DtypeInt);
    assert ['3'] + "2" == "32";
    CharWitness(DtypeInt32, IntT, '_');
    assert '6' in DtypeInt64 && '6' !in DtypeInt32;
    CharWitness(DtypeInt32, DtypeInt64, '6');
  }

  lemma CorrectedConvertsInt64()
    ensures TypeRulesCorrected(DtypeInt64) == DtypeInt32
  {
    CharWitness(DtypeInt64, IntT, '_');
    assert DtypeInt64 + "" == DtypeInt64;
    ReplaceLeading(DtypeInt64, "", DtypeInt32);
    assert DtypeInt32 + "" == DtypeInt32;
    PrefixContains(DtypeInt64, DtypeInt64);
    CorrectedKeepsInt32();
  }

  lemma CorrectedConvertsBare()
    ensures TypeRulesCorrected(DtypeInt) == DtypeInt32
  {
    CharWitness(DtypeInt, IntT, '_');
    ShortNotContains(DtypeInt, DtypeInt64);
    BareReplacesAtEnd(DtypeInt, DtypeInt32);
  }
}
