/** final_colab_fix.py: the first three fixes of ultimate_colab_fix.py, with
    the same text; the Cython install step is not modelled. */
module FinalColabFix {
  import opened Text
  import opened Literals
  import opened Patch
  import opened Rules
  import UltimateColabFix

  /** The whole script: Cython overwrite, config import, CUDA comment-out. */
  function ComprehensiveFix(t: Tree): (w: Writes)
    ensures w.cython.Some? <==> t.cython.Some?
    ensures w.config.Some? <==> t.config.Some?
    ensures w.yolact.Some? <==> t.yolact.Some?
    ensures w.augmentations.None? && w.outputUtils.None?
    ensures w.cython.Some? ==> w.cython.value == CythonPayload
    ensures w.config.Some? && !Contains(t.config.value, OldImportMobile) ==> w.config == t.config
    ensures w.config.Some? ==> !Contains(w.config.value, OldImportMobile)
    ensures w.yolact.Some? && Contains(t.yolact.value, CudaCall) ==> Contains(w.yolact.value, CudaCommented)
  {
    Writes(OverwriteCython(t.cython), RewriteConfig(t.config), RewriteYolact(t.yolact), None, None)
  }

  /** The script does what the ultimate script does to the three files it
      shares with it, and writes nothing else. */
  lemma ComprehensiveIsUltimatePrefix(t: Tree)
    ensures ComprehensiveFix(t) == UltimateColabFix.UltimateFix(t).(augmentations := None, outputUtils := None)
  {
  }

  /** A second run writes the same Cython and config contents; yolact.py
      changes again whenever it held the CUDA call. */
  lemma ComprehensiveFixRerun(t: Tree)
    ensures ComprehensiveFix(Apply(t, ComprehensiveFix(t))).cython == ComprehensiveFix(t).cython
    ensures ComprehensiveFix(Apply(t, ComprehensiveFix(t))).config == ComprehensiveFix(t).config
    ensures t.yolact.Some? && Contains(t.yolact.value, CudaCall) ==>
      ComprehensiveFix(Apply(t, ComprehensiveFix(t))).yolact != ComprehensiveFix(t).yolact
  {
    if t.yolact.Some? && Contains(t.yolact.value, CudaCall) {
      CommentOutCudaNotIdempotent(t.yolact.value);
    }
  }
}
