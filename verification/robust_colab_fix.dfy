/** robust_colab_fix.py: overwrite the Cython file and rewrite the config
    import, each reporting whether it could do so. */
module RobustColabFix {
  import opened Text
  import opened Literals
  import opened Patch
  import opened Rules

  /** False and no write for a missing file; otherwise the fixed payload is
      written whatever the file held, and the result is True. */
  function FixCythonFileDirectly(f: Option<string>): (st: Step)
    ensures st.ok <==> f.Some?
    ensures f.None? ==> st.written.None?
    ensures f.Some? ==> st.written == Some(CythonPayload) && IsPrefix(Directive, st.written.value)
  {
    Step(OverwriteCython(f), f.Some?)
  }

  /** False and no write for a missing file; otherwise the contents are
      written back, with the MobileNetV2 import rewritten when it occurs, and
      the result is True even when the import was not found. */
  function FixConfigFileDirectly(f: Option<string>): (st: Step)
    ensures st.ok <==> f.Some?
    ensures f.None? ==> st.written.None?
    ensures f.Some? && !Contains(f.value, OldImportMobile) ==> st.written == f
    ensures f.Some? ==> st.written.Some? && !Contains(st.written.value, OldImportMobile)
  {
    Step(RewriteConfig(f), f.Some?)
  }

  /** `main`: nothing is attempted outside a checkout; otherwise both fixes
      run and success is reported exactly when both files exist. */
  function Main(t: Tree): (r: Report)
    ensures r.NotInRepo? <==> !t.hasRepo
    ensures r.Reported? ==> (r.allFixed <==> t.config.Some? && t.cython.Some?)
    ensures r.Reported? ==> r.writes.yolact.None? && r.writes.augmentations.None? && r.writes.outputUtils.None?
    ensures r.Reported? ==> (r.writes.config.Some? <==> t.config.Some?) && (r.writes.cython.Some? <==> t.cython.Some?)
  {
    if !t.hasRepo then NotInRepo
    else
      var config := FixConfigFileDirectly(t.config);
      var cython := FixCythonFileDirectly(t.cython);
      Reported(NoWrites.(config := config.written, cython := cython.written), config.ok && cython.ok)
  }
}
