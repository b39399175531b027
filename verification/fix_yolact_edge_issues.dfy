/** fix_yolact_edge_issues.py: the import fix of fix_import.py, a Cython fix
    whose type rewrites are gated on np.int_t, and a `main` without a
    directory check. */
module FixYolactEdgeIssues {
  import opened Text
  import opened Literals
  import opened Patch
  import opened Rules
  import FixImport

  /** Both type rewrites run only when np.int_t occurs. */
  function GatedTypes(s: string): (r: string)
    ensures !Contains(s, IntT) ==> r == s
    ensures !Contains(r, IntT)
    ensures Contains(s, Directive) ==> Contains(r, Directive)
    ensures IsPrefix(Directive, s) ==> IsPrefix(Directive, r)
  {
    if Contains(s, IntT) then FixDtype(FixIntT(s)) else s
  }

  /** False and no write for a missing file; otherwise the directive is
      ensured, the gated rewrites run, the result is written and the result
      is True. */
  function FixCythonIssue(f: Option<string>): (st: Step)
    ensures st.ok <==> f.Some?
    ensures f.None? ==> st.written.None?
    ensures f.Some? ==> st.written.Some? && Contains(st.written.value, Directive) && !Contains(st.written.value, IntT)
    ensures f.Some? && Contains(f.value, Directive) && !Contains(f.value, IntT) ==> st.written == f
    ensures f.Some? && (!Contains(f.value, Directive) || IsPrefix(Directive, f.value)) ==>
      IsPrefix(Directive, st.written.value)
  {
    if f.None? then Step(None, false)
    else Step(Some(GatedTypes(PrependIfAbsent(f.value, Directive))), true)
  }

  /** The Cython fix applied to its own output writes the same text again:
      the directive is present and np.int_t is gone. */
  lemma FixCythonIssueIdempotent(f: Option<string>)
    ensures FixCythonIssue(FixCythonIssue(f).written) == FixCythonIssue(f)
  {
  }

  /** `main`: both fixes always run; success is reported when the config
      file holds the marker or one of the import forms and the Cython file
      exists. */
  function Main(t: Tree): (r: Report)
    ensures r.Reported?
    ensures r.allFixed <==>
      t.config.Some? && t.cython.Some? &&
      (Contains(t.config.value, FixedImportMarker) || Contains(t.config.value, OldImportMobile) || Contains(t.config.value, OldImportShort))
    ensures r.writes.yolact.None? && r.writes.augmentations.None? && r.writes.outputUtils.None?
  {
    var imp := FixImport.FixImportIssue(t.config);
    var cy := FixCythonIssue(t.cython);
    Reported(NoWrites.(config := imp.written, cython := cy.written), imp.ok && cy.ok)
  }
}
