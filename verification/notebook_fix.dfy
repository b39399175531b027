/** notebook_fix.py: unconditional rewrites. The config import replace runs
    whether or not the import occurs, which is the guarded rewrite under
    another name (ReplaceIfPresent equals ReplaceAll). */
module NotebookFix {
  import opened Text
  import opened Literals
  import opened Patch
  import opened Rules

  /** The whole cell. */
  function FixYolactEdgeIssues(t: Tree): (w: Writes)
    ensures w.config.Some? <==> t.config.Some?
    ensures w.cython.Some? <==> t.cython.Some?
    ensures w.yolact.None? && w.augmentations.None? && w.outputUtils.None?
    ensures w.config.Some? && !Contains(t.config.value, OldImportMobile) ==> w.config == t.config
    ensures w.config.Some? ==> !Contains(w.config.value, OldImportMobile)
    ensures w.cython.Some? ==> Contains(w.cython.value, Directive) && !Contains(w.cython.value, IntT)
    ensures t.cython.Some? && (!Contains(t.cython.value, Directive) || IsPrefix(Directive, t.cython.value)) ==>
      IsPrefix(Directive, w.cython.value)
    ensures (t.cython.Some? && Contains(t.cython.value, Directive) && !Contains(t.cython.value, IntT) &&
             !Contains(t.cython.value, DtypeInt)) ==> w.cython == t.cython
  {
    var cython := if t.cython.Some? then Some(UpdateCythonTypes(t.cython.value)) else None;
    NoWrites.(config := RewriteConfig(t.config), cython := cython)
  }

  /** A second run writes the same config contents; the Cython file changes
      again whenever the first run left dtype=np.int in it. */
  lemma FixYolactEdgeIssuesRerun(t: Tree)
    ensures FixYolactEdgeIssues(Apply(t, FixYolactEdgeIssues(t))).config == FixYolactEdgeIssues(t).config
    ensures t.cython.Some? && Contains(FixYolactEdgeIssues(t).cython.value, DtypeInt) ==>
      FixYolactEdgeIssues(Apply(t, FixYolactEdgeIssues(t))).cython != FixYolactEdgeIssues(t).cython
  {
    if t.cython.Some? && Contains(FixYolactEdgeIssues(t).cython.value, DtypeInt) {
      UpdateCythonTypesNotIdempotent(t.cython.value);
    }
  }
}
