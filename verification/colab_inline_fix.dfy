/** colab_inline_fix.py: the import variant loop without an already-fixed
    guard, and the Cython type update; both files are always written back
    when they exist. */
module ColabInlineFix {
  import opened Text
  import opened Literals
  import opened Patch
  import opened Rules
  import ColabFix

  /** The first import variant that occurs is rewritten; when none occurs the
      contents are written back unchanged. */
  function FixConfig(f: Option<string>): (w: Option<string>)
    ensures w.Some? <==> f.Some?
    ensures f.Some? && !Contains(f.value, OldImportMobile) && !Contains(f.value, OldImportShort) ==> w == f
    ensures f.Some? && Contains(f.value, OldImportMobile) ==>
      w.value == ReplaceAll(f.value, OldImportMobile, NewImportMobile)
    ensures f.Some? && !Contains(f.value, OldImportMobile) && Contains(f.value, OldImportShort) ==>
      w.value == ReplaceAll(f.value, OldImportShort, NewImportShort)
  {
    if f.None? then None
    else
      assert ColabFix.ImportVariants[0] == Rule(OldImportMobile, NewImportMobile);
      assert ColabFix.ImportVariants[1] == Rule(OldImportShort, NewImportShort);
      match ApplyFirst(f.value, ColabFix.ImportVariants)
      case None => f
      case Some(r) => Some(r)
  }

  /** The directive and the two type rewrites. */
  function FixCython(f: Option<string>): (w: Option<string>)
    ensures w.Some? <==> f.Some?
    ensures w.Some? ==> Contains(w.value, Directive) && !Contains(w.value, IntT)
    ensures f.Some? && (!Contains(f.value, Directive) || IsPrefix(Directive, f.value)) ==>
      IsPrefix(Directive, w.value)
    ensures f.Some? && Contains(f.value, Directive) && !Contains(f.value, IntT) && !Contains(f.value, DtypeInt) ==>
      w == f
  {
    if f.None? then None else Some(UpdateCythonTypes(f.value))
  }

  /** The whole cell. */
  function FixYolactEdgeColab(t: Tree): (w: Writes)
    ensures w.config.Some? <==> t.config.Some?
    ensures w.cython.Some? <==> t.cython.Some?
    ensures w.yolact.None? && w.augmentations.None? && w.outputUtils.None?
    ensures w.cython.Some? ==> Contains(w.cython.value, Directive) && !Contains(w.cython.value, IntT)
    ensures t.cython.Some? && !Contains(t.cython.value, Directive) ==> IsPrefix(Directive, w.cython.value)
    ensures (t.cython.Some? && Contains(t.cython.value, Directive) && !Contains(t.cython.value, IntT) &&
             !Contains(t.cython.value, DtypeInt)) ==> w.cython == t.cython
  {
    NoWrites.(config := FixConfig(t.config), cython := FixCython(t.cython))
  }

  /** Each fix reads only its own file. */
  lemma FixYolactEdgeColabIndependent(t1: Tree, t2: Tree)
    ensures t1.config == t2.config ==> FixYolactEdgeColab(t1).config == FixYolactEdgeColab(t2).config
    ensures t1.cython == t2.cython ==> FixYolactEdgeColab(t1).cython == FixYolactEdgeColab(t2).cython
  {
  }

  /** Running the cell again changes the Cython file once more whenever the
      first run left dtype=np.int in it: another "32" is appended. */
  lemma FixYolactEdgeColabRerun(t: Tree)
    requires t.cython.Some? && Contains(FixYolactEdgeColab(t).cython.value, DtypeInt)
    ensures FixYolactEdgeColab(Apply(t, FixYolactEdgeColab(t))).cython != FixYolactEdgeColab(t).cython
  {
    UpdateCythonTypesNotIdempotent(t.cython.value);
  }
}
