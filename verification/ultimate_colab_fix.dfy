/** ultimate_colab_fix.py: five independent fixes, each applied only when its
    file exists. The Cython install step is not modelled. */
module UltimateColabFix {
  import opened Text
  import opened Literals
  import opened Patch
  import opened Rules

  /** Fix 4: the min_size assignment in augmentations.py. */
  function RewriteAugmentations(f: Option<string>): (w: Option<string>)
    ensures w.Some? <==> f.Some?
    ensures f.Some? && !Contains(f.value, MinSizeLine) ==> w == f
    ensures f.Some? && Contains(f.value, MinSizeLine) ==> Contains(w.value, MinSizeFixed)
    ensures f.Some? ==> !Contains(w.value, MinSizeLine)
  {
    if f.Some? then Some(FixMinSize(f.value)) else None
  }

  /** Fix 5: output_utils.py checks its two identical lines one after the
      other; the first replacement already removes every occurrence, so the
      second check never fires and the file is rewritten exactly once. */
  function RewriteOutputUtils(f: Option<string>): (w: Option<string>)
    ensures w.Some? <==> f.Some?
    ensures f.Some? ==> w.value == FixScale(f.value)
    ensures f.Some? && !Contains(f.value, ScaleLine) ==> w == f
    ensures f.Some? ==> !Contains(w.value, ScaleLine)
  {
    if f.Some? then
      var once := FixScale(f.value);
      Some(FixScale(once))
    else None
  }

  /** The whole script. */
  function UltimateFix(t: Tree): (w: Writes)
    ensures w.cython.Some? <==> t.cython.Some?
    ensures w.config.Some? <==> t.config.Some?
    ensures w.yolact.Some? <==> t.yolact.Some?
    ensures w.augmentations.Some? <==> t.augmentations.Some?
    ensures w.outputUtils.Some? <==> t.outputUtils.Some?
    ensures w.cython.Some? ==> w.cython.value == CythonPayload && IsPrefix(Directive, w.cython.value)
    ensures w.config.Some? ==> !Contains(w.config.value, OldImportMobile)
    ensures w.yolact.Some? ==> (Contains(w.yolact.value, CudaCall) <==> Contains(t.yolact.value, CudaCall))
    ensures w.augmentations.Some? ==> !Contains(w.augmentations.value, MinSizeLine)
    ensures w.outputUtils.Some? ==> !Contains(w.outputUtils.value, ScaleLine)
  {
    Writes(OverwriteCython(t.cython), RewriteConfig(t.config), RewriteYolact(t.yolact),
           RewriteAugmentations(t.augmentations), RewriteOutputUtils(t.outputUtils))
  }

  /** Each fix reads only its own file: a missing or different file elsewhere
      does not change what is written to this one. */
  lemma UltimateFixIndependent(t1: Tree, t2: Tree)
    ensures t1.cython == t2.cython ==> UltimateFix(t1).cython == UltimateFix(t2).cython
    ensures t1.config == t2.config ==> UltimateFix(t1).config == UltimateFix(t2).config
    ensures t1.yolact == t2.yolact ==> UltimateFix(t1).yolact == UltimateFix(t2).yolact
    ensures t1.augmentations == t2.augmentations ==> UltimateFix(t1).augmentations == UltimateFix(t2).augmentations
    ensures t1.outputUtils == t2.outputUtils ==> UltimateFix(t1).outputUtils == UltimateFix(t2).outputUtils
  {
  }

  /** Running the script a second time writes the same Cython, config,
      augmentations and output_utils contents again; only yolact.py changes,
      and it changes whenever it held the CUDA call. */
  lemma UltimateFixRerun(t: Tree)
    ensures UltimateFix(Apply(t, UltimateFix(t))).cython == UltimateFix(t).cython
    ensures UltimateFix(Apply(t, UltimateFix(t))).config == UltimateFix(t).config
    ensures UltimateFix(Apply(t, UltimateFix(t))).augmentations == UltimateFix(t).augmentations
    ensures UltimateFix(Apply(t, UltimateFix(t))).outputUtils == UltimateFix(t).outputUtils
    ensures t.yolact.Some? && Contains(t.yolact.value, CudaCall) ==>
      UltimateFix(Apply(t, UltimateFix(t))).yolact != UltimateFix(t).yolact
  {
    if t.yolact.Some? && Contains(t.yolact.value, CudaCall) {
      CommentOutCudaNotIdempotent(t.yolact.value);
    }
  }
}
