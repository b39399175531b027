/** The individual rewrites the scripts apply, each with what it guarantees
    about the text it produces, and the per-file steps that several scripts
    share word for word. */
module Rules {
  import opened Text
  import opened Crossing
  import opened Literals
  import opened Patch

  // ---------------------------------------------------------------------------
  // Text rewrites
  // ---------------------------------------------------------------------------

  /** The MobileNetV2 backbone import rewrite. */
  function FixMobileImport(s: string): (r: string)
    ensures !Contains(s, OldImportMobile) ==> r == s
    ensures Contains(s, OldImportMobile) ==> Contains(r, NewImportMobile) && Contains(r, FixedImportMarker)
    ensures !Contains(r, OldImportMobile)
  {
    ImportMobileNoCrossing();
    PatternGone(s, OldImportMobile, NewImportMobile);
    FixedImportsHoldMarker();
    if Contains(s, OldImportMobile) then
      ContainsTrans(ReplaceAll(s, OldImportMobile, NewImportMobile), NewImportMobile, FixedImportMarker);
      ReplaceIfPresent(s, OldImportMobile, NewImportMobile)
    else
      ReplaceIfPresent(s, OldImportMobile, NewImportMobile)
  }

  /** A second import pass finds nothing to rewrite. */
  lemma FixMobileImportIdempotent(s: string)
    ensures FixMobileImport(FixMobileImport(s)) == FixMobileImport(s)
  {
  }

  /** The CUDA comment-out: every call becomes the commented form. */
  function CommentOutCuda(s: string): (r: string)
    ensures !Contains(s, CudaCall) ==> r == s
    ensures Contains(s, CudaCall) ==> Contains(r, CudaCommented) && |r| > |s|
    ensures Contains(r, CudaCall) <==> Contains(s, CudaCall)
  {
    CudaCommentedHoldsCall();
    if Contains(s, CudaCall) then
      ContainsTrans(ReplaceAll(s, CudaCall, CudaCommented), CudaCommented, CudaCall);
      ReplaceIfPresent(s, CudaCall, CudaCommented)
    else
      ReplaceIfPresent(s, CudaCall, CudaCommented)
  }

  /** The comment-out is not idempotent: the commented line still holds the
      call, so every later run comments it again and the text keeps growing;
      the "already fixed" branch is never taken after a first fix. */
  lemma CommentOutCudaNotIdempotent(s: string)
    requires Contains(s, CudaCall)
    ensures Contains(CommentOutCuda(s), CudaCall)
    ensures CommentOutCuda(CommentOutCuda(s)) != CommentOutCuda(s)
  {
    CudaCommentedHoldsCall();
    ReplaceAllGrows(s, CudaCall, CudaCommented);
  }

  /** The smallest instance: the bare call is commented once, and the
      commented line is commented again. */
  lemma CudaRerunCounterexample()
    ensures CommentOutCuda(CudaCall) == CudaCommented
    ensures CommentOutCuda(CommentOutCuda(CudaCall)) != CommentOutCuda(CudaCall)
  {
    assert CudaCall + "" == CudaCall;
    ReplaceLeading(CudaCall, "", CudaCommented);
    assert CudaCommented + "" == CudaCommented;
    PrefixContains(CudaCall, CudaCall);
    CommentOutCudaNotIdempotent(CudaCall);
  }

  /** The augmentations.py min_size rewrite. */
  function FixMinSize(s: string): (r: string)
    ensures !Contains(s, MinSizeLine) ==> r == s
    ensures Contains(s, MinSizeLine) ==> Contains(r, MinSizeFixed)
    ensures !Contains(r, MinSizeLine)
  {
    MinSizeNoCrossing();
    PatternGone(s, MinSizeLine, MinSizeFixed);
    ReplaceIfPresent(s, MinSizeLine, MinSizeFixed)
  }

  /** A second min_size pass leaves the text unchanged. */
  lemma FixMinSizeIdempotent(s: string)
    ensures FixMinSize(FixMinSize(s)) == FixMinSize(s)
  {
  }

  /** The output_utils.py scale-call rewrite. */
  function FixScale(s: string): (r: string)
    ensures !Contains(s, ScaleLine) ==> r == s
    ensures Contains(s, ScaleLine) ==> Contains(r, ScaleFixed)
    ensures !Contains(r, ScaleLine)
  {
    ScaleNoCrossing();
    PatternGone(s, ScaleLine, ScaleFixed);
    ReplaceIfPresent(s, ScaleLine, ScaleFixed)
  }

  /** The np.int_t rewrite: none is left, and the directive survives. */
  function FixIntT(s: string): (r: string)
    ensures !Contains(s, IntT) ==> r == s
    ensures Contains(s, IntT) ==> Contains(r, Int32T)
    ensures !Contains(r, IntT)
    ensures Contains(s, Directive) ==> Contains(r, Directive)
    ensures IsPrefix(Directive, s) ==> IsPrefix(Directive, r)
  {
    IntTNoCrossing();
    PatternGone(s, IntT, Int32T);
    DirectiveIntTNoCrossing();
    DirectiveKept(s, IntT, Int32T);
    ReplaceIfPresent(s, IntT, Int32T)
  }

  /** A replacement whose pattern cannot overlap the directive keeps it, and
      keeps it at the start when it leads the text. */
  lemma DirectiveKept(s: string, pat: string, sub: string)
    requires |pat| > 0 && NoCrossing(pat, Directive)
    ensures Contains(s, Directive) ==> Contains(ReplaceAll(s, pat, sub), Directive)
    ensures IsPrefix(Directive, s) ==> IsPrefix(Directive, ReplaceAll(s, pat, sub))
  {
    if Contains(s, Directive) {
      StaysPresent(s, Directive, pat, sub);
    }
    if IsPrefix(Directive, s) {
      PrefixStays(s, Directive, pat, sub);
    }
  }

  /** The dtype=np.int rewrite: it creates no np.int_t and the directive
      survives. */
  function FixDtype(s: string): (r: string)
    ensures !Contains(s, DtypeInt) ==> r == s
    ensures Contains(s, DtypeInt) ==> Contains(r, DtypeInt32)
    ensures !Contains(s, IntT) ==> !Contains(r, IntT)
    ensures Contains(s, Directive) ==> Contains(r, Directive)
    ensures IsPrefix(Directive, s) ==> IsPrefix(Directive, r)
  {
    DtypeInt32NoCrossing();
    DirectiveDtypeNoCrossing();
    DirectiveKept(s, DtypeInt, DtypeInt32);
    ReplaceDtypeKeepsIntTAbsent(s, DtypeInt);
    ReplaceIfPresent(s, DtypeInt, DtypeInt32)
  }

  /** The dtype=np.int64 rewrite: it creates no np.int_t and the directive
      survives. */
  function FixDtype64(s: string): (r: string)
    ensures !Contains(s, DtypeInt64) ==> r == s
    ensures Contains(s, DtypeInt64) ==> Contains(r, DtypeInt32)
    ensures !Contains(s, IntT) ==> !Contains(r, IntT)
    ensures Contains(s, Directive) ==> Contains(r, Directive)
    ensures IsPrefix(Directive, s) ==> IsPrefix(Directive, r)
  {
    DtypeInt32NoCrossing();
    DirectiveDtype64NoCrossing();
    DirectiveKept(s, DtypeInt64, DtypeInt32);
    ReplaceDtypeKeepsIntTAbsent(s, DtypeInt64);
    ReplaceIfPresent(s, DtypeInt64, DtypeInt32)
  }

  /** Writing dtype=np.int32 in place of any pattern creates no np.int_t. */
  lemma ReplaceDtypeKeepsIntTAbsent(s: string, pat: string)
    requires |pat| > 0
    ensures !Contains(s, IntT) ==> !Contains(ReplaceAll(s, pat, DtypeInt32), IntT)
  {
    DtypeInt32NoCrossing();
    if !Contains(s, IntT) {
      StaysAbsent(s, pat, DtypeInt32, IntT);
    }
  }

  /** The dtype=np.int rewrite is not idempotent: dtype=np.int32 still holds
      dtype=np.int, so each run appends another "32". */
  lemma FixDtypeNotIdempotent(s: string)
    requires Contains(s, DtypeInt)
    ensures FixDtype(FixDtype(s)) != FixDtype(s)
  {
    DtypeInt32HoldsDtypeInt();
    ReplaceAllGrows(s, DtypeInt, DtypeInt32);
  }

  /** The smallest instance: dtype=np.int32 becomes dtype=np.int3232. */
  lemma DtypeRerunCounterexample()
    ensures FixDtype(DtypeInt32) == DtypeInt + "3232"
  {
    ShortNotContains("32", DtypeInt);
    ReplaceLeading(DtypeInt, "32", DtypeInt32);
    assert DtypeInt32 + "32" == DtypeInt + "3232";
  }

  /** Directive first, then np.int_t, then dtype=np.int, each applied when
      its text occurs (colab_inline_fix.py and notebook_fix.py). */
  function UpdateCythonTypes(s: string): (r: string)
    ensures Contains(r, Directive)
    ensures !Contains(r, IntT)
    ensures !Contains(s, Directive) ==> |r| > |s|
    ensures !Contains(s, Directive) || IsPrefix(Directive, s) ==> IsPrefix(Directive, r)
    ensures Contains(s, Directive) && !Contains(s, IntT) && !Contains(s, DtypeInt) ==> r == s
  {
    var d := PrependIfAbsent(s, Directive);
    FixDtype(FixIntT(d))
  }

  /** The Cython update is not idempotent: a file it leaves holding
      dtype=np.int (every file in which it rewrote one) changes again on the
      next run. */
  lemma UpdateCythonTypesNotIdempotent(s: string)
    requires Contains(UpdateCythonTypes(s), DtypeInt)
    ensures UpdateCythonTypes(UpdateCythonTypes(s)) != UpdateCythonTypes(s)
  {
    var r := UpdateCythonTypes(s);
    assert PrependIfAbsent(r, Directive) == r;
    assert FixIntT(r) == r;
    DtypeInt32HoldsDtypeInt();
  }

  // ---------------------------------------------------------------------------
  // Nothing else changes
  // ---------------------------------------------------------------------------

  /** The import rewrite works line by line: across a cut that no broken
      import straddles, each side is rewritten on its own. */
  lemma FixMobileImportSplit(a: string, b: string)
    requires forall i | 0 <= i < |a| < i + |OldImportMobile| :: !OccursAt(a + b, OldImportMobile, i)
    ensures FixMobileImport(a + b) == FixMobileImport(a) + FixMobileImport(b)
  {
    ReplaceAllSplit(a, b, OldImportMobile, NewImportMobile);
  }

  /** A lone broken import becomes the fixed import and the text around it
      is written back as it was. */
  lemma FixMobileImportFrame(p: string, w: string)
    requires forall i | 0 <= i < |p| :: !OccursAt(p + OldImportMobile + w, OldImportMobile, i)
    requires !Contains(w, OldImportMobile)
    ensures FixMobileImport(p + OldImportMobile + w) == p + NewImportMobile + w
  {
    ReplaceAllSingle(p, w, OldImportMobile, NewImportMobile);
  }

  /** The CUDA comment-out works line by line: across a cut that no call
      straddles, each side is rewritten on its own. */
  lemma CommentOutCudaSplit(a: string, b: string)
    requires forall i | 0 <= i < |a| < i + |CudaCall| :: !OccursAt(a + b, CudaCall, i)
    ensures CommentOutCuda(a + b) == CommentOutCuda(a) + CommentOutCuda(b)
  {
    ReplaceAllSplit(a, b, CudaCall, CudaCommented);
  }

  /** A lone call becomes the commented line and the text around it is
      written back as it was. */
  lemma CommentOutCudaFrame(p: string, w: string)
    requires forall i | 0 <= i < |p| :: !OccursAt(p + CudaCall + w, CudaCall, i)
    requires !Contains(w, CudaCall)
    ensures CommentOutCuda(p + CudaCall + w) == p + CudaCommented + w
  {
    ReplaceAllSingle(p, w, CudaCall, CudaCommented);
  }

  /** A lone min_size line becomes the two getattr lines and the text around
      it is written back as it was. */
  lemma FixMinSizeFrame(p: string, w: string)
    requires forall i | 0 <= i < |p| :: !OccursAt(p + MinSizeLine + w, MinSizeLine, i)
    requires !Contains(w, MinSizeLine)
    ensures FixMinSize(p + MinSizeLine + w) == p + MinSizeFixed + w
  {
    ReplaceAllSingle(p, w, MinSizeLine, MinSizeFixed);
  }

  /** A lone scale call becomes the three new lines and the text around it
      is written back as it was. */
  lemma FixScaleFrame(p: string, w: string)
    requires forall i | 0 <= i < |p| :: !OccursAt(p + ScaleLine + w, ScaleLine, i)
    requires !Contains(w, ScaleLine)
    ensures FixScale(p + ScaleLine + w) == p + ScaleFixed + w
  {
    ReplaceAllSingle(p, w, ScaleLine, ScaleFixed);
  }

  // ---------------------------------------------------------------------------
  // Per-file steps shared by several scripts
  // ---------------------------------------------------------------------------

  /** Overwrite the Cython file with the fixed payload when it exists. */
  function OverwriteCython(f: Option<string>): (w: Option<string>)
    ensures w.Some? <==> f.Some?
    ensures w.Some? ==> w.value == CythonPayload && IsPrefix(Directive, w.value)
  {
    PayloadStartsWithDirective();
    if f.Some? then Some(CythonPayload) else None
  }

  /** Overwriting does not depend on the old contents, so a second run
      writes the same file. */
  lemma OverwriteCythonIdempotent(f: Option<string>)
    ensures OverwriteCython(OverwriteCython(f)) == OverwriteCython(f)
  {
  }

  /** Rewrite the MobileNetV2 import in config.py when the file exists; the
      contents are written back whether or not the import was found. */
  function RewriteConfig(f: Option<string>): (w: Option<string>)
    ensures w.Some? <==> f.Some?
    ensures f.Some? && !Contains(f.value, OldImportMobile) ==> w == f
    ensures f.Some? ==> !Contains(w.value, OldImportMobile)
  {
    if f.Some? then Some(FixMobileImport(f.value)) else None
  }

  /** Comment out the CUDA call in yolact.py when the file exists; the
      contents are written back whether or not the call was found. */
  function RewriteYolact(f: Option<string>): (w: Option<string>)
    ensures w.Some? <==> f.Some?
    ensures f.Some? && !Contains(f.value, CudaCall) ==> w == f
    ensures f.Some? && Contains(f.value, CudaCall) ==> Contains(w.value, CudaCommented)
  {
    if f.Some? then Some(CommentOutCuda(f.value)) else None
  }
}
