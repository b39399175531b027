/** The literal text the patch scripts search for and write: the Cython
    directive and replacement payload, the backbone import lines, the CUDA
    call, the min_size lines, and the NumPy integer type names. Long strings
    are assembled from short pieces. The lemmas at the end establish, for each
    rewrite rule, that the rule's trigger (or the text that must survive)
    cannot line up with the rule's replacement text. */
module Literals {
  import opened Text
  import opened Crossing

  // ---------------------------------------------------------------------------
  // yolact_edge/utils/cython_nms.pyx
  // ---------------------------------------------------------------------------

  /** The compiler directive the Cython fixes make sure of. */
  const Directive: string := "# cython: language_level=3"

  /** The upstream non-maximum-suppression kernel that follows the directive
      in the rewritten Cython file (the same text in every script that
      rewrites the file). It is carried, never inspected, so the model leaves
      its value unspecified. */
  const NmsKernel: string

  /** The whole file written by the "completely rewrite" fixes. */
  const CythonPayload: string := Directive + "\n" + NmsKernel

  const IntT: string := "np.int_t"
  const Int32T: string := "np.int32_t"
  const DtypeInt: string := "dtype=np.int"
  const DtypeInt32: string := DtypeInt + "32"
  const DtypeInt64: string := DtypeInt + "64"

  // ---------------------------------------------------------------------------
  // yolact_edge/data/config.py
  // ---------------------------------------------------------------------------

  const BackboneClasses: string := "ResNetBackbone, VGGBackbone, " + "ResNetBackboneGN, DarkNetBackbone"
  const MobileBackboneClasses: string := BackboneClasses + ", MobileNetV2Backbone"

  /** The broken import, without and with MobileNetV2Backbone. */
  const OldImportShort: string := "from backbone import " + BackboneClasses
  const OldImportMobile: string := "from backbone import " + MobileBackboneClasses

  /** The text whose presence means the import is already fixed; the 'y' of
      yolact_edge is kept apart because it is what tells the fixed import
      from the broken one. */
  const FixedImportMarker: string := "from " + "y" + "olact_edge.backbone import"

  /** The corrected imports. */
  const NewImportShort: string := FixedImportMarker + " " + BackboneClasses
  const NewImportMobile: string := FixedImportMarker + " " + MobileBackboneClasses

  // ---------------------------------------------------------------------------
  // yolact_edge/yolact.py
  // ---------------------------------------------------------------------------

  const CudaCall: string := "torch.cuda.current_device()"
  const CudaCommented: string := "# " + CudaCall + "  # Commented out for CPU-only environments"

  // ---------------------------------------------------------------------------
  // yolact_edge/utils/augmentations.py and yolact_edge/layers/output_utils.py
  // The lines are split at their first '=' so that the old and new forms
  // visibly share their left-hand side.
  // ---------------------------------------------------------------------------

  const Indent: string := "        "
  const CommentBody: string :=
    " Use max_size as min_size " + "if min_size is not defined " + "(for backward compatibility)"

  const MinSizeTarget: string := Indent + "self.min_size "
  const GetattrMinSize: string := " getattr(cfg, 'min_size', cfg.max_size)"
  const MinSizeLine: string := MinSizeTarget + "=" + " cfg.min_size"
  const MinSizeGetattr: string := MinSizeTarget + "=" + GetattrMinSize
  /** The comment line `# Use max_size as min_size ...`, then the getattr
      line; the '#' is kept apart because nothing else in either line has one. */
  const MinSizeAfterMark: string := CommentBody + "\n" + MinSizeGetattr
  const MinSizeFixed: string := Indent + "#" + MinSizeAfterMark

  const ScaleTarget: string := Indent + "r_w, r_h "
  const ScaleCall: string := " Resize.faster_rcnn_scale(w, h, "
  const ScaleLine: string := ScaleTarget + "=" + (ScaleCall + "cfg.min_size, cfg.max_size)")
  const MinSizeLocal: string := Indent + "min_size =" + GetattrMinSize
  const ScaleLocal: string := ScaleTarget + "=" + (ScaleCall + "min_size, cfg.max_size)")
  /** The same comment line, the local min_size line, the new scale line. */
  const ScaleAfterMark: string := CommentBody + "\n" + (MinSizeLocal + "\n" + ScaleLocal)
  const ScaleFixed: string := Indent + "#" + ScaleAfterMark

  // ---------------------------------------------------------------------------
  // Which rule texts can line up with which
  // ---------------------------------------------------------------------------

  // (a) The rewritten MobileNetV2 import and the broken one.

  const ImportTail: string := "olact_edge.backbone import" + " " + MobileBackboneClasses

  lemma NewImportMobileSplit()
    ensures NewImportMobile == "from " + ['y'] + ImportTail
  {
    Assoc5("from ", "y", "olact_edge.backbone import", " ", MobileBackboneClasses);
  }
  lemma OldImportMobileFirst() ensures OldImportMobile[0] == 'f' {}
  lemma OldImportMobileLast() ensures OldImportMobile[|OldImportMobile| - 1] == 'e' {}
  lemma MobileClassesNoF() ensures 'f' !in MobileBackboneClasses {}
  lemma ImportTailNoF() ensures 'f' !in ImportTail { MobileClassesNoF(); }
  lemma OldImportMobileNoY() ensures 'y' !in OldImportMobile {}
  lemma OldImportShortNoY() ensures 'y' !in OldImportShort {}

  /** The rewritten MobileNetV2 import cannot re-form the broken one: the 'y'
      of yolact_edge is in the way. */
  lemma ImportMobileNoCrossing()
    ensures NoCrossing(NewImportMobile, OldImportMobile)
  {
    NewImportMobileSplit();
    OldImportMobileFirst();
    OldImportMobileLast();
    ImportTailNoF();
    OldImportMobileNoY();
    ShortNotContains("from ", OldImportMobile);
    TailsByFirstChar(ImportTail, OldImportMobile);
    TailsBySeparator("from ", 'y', ImportTail, OldImportMobile);
    HeadsBySeparator("from ", 'y', ImportTail, OldImportMobile);
  }

  // (b) The augmentations.py min_size rewrite and its trigger.

  lemma MinSizeFixedSplit()
    ensures MinSizeFixed == Indent + ['#'] + MinSizeAfterMark
  {
  }
  lemma MinSizeLineLast() ensures MinSizeLine[|MinSizeLine| - 1] == 'e' {}
  lemma MinSizeLineNoHash() ensures '#' !in MinSizeLine {}
  lemma MinSizeLineNoNewline() ensures '\n' !in MinSizeLine {}
  lemma MinSizeLineDot() ensures '.' in MinSizeLine {}
  lemma CommentBodyNoDot() ensures '.' !in CommentBody {}
  lemma IndentPlain() ensures 'e' !in Indent && ')' !in Indent && '=' !in Indent {}
  lemma MinSizeTargetPlain() ensures '=' !in MinSizeTarget && ')' !in MinSizeTarget {}
  lemma GetattrMinSizeShape()
    ensures '=' !in GetattrMinSize && GetattrMinSize[|GetattrMinSize| - 1] == ')'
  {
  }
  lemma GetattrNotCfg() ensures !Compatible(GetattrMinSize, " cfg.min_size")
  {
    CompatibleAgree(GetattrMinSize, " cfg.min_size", 1);
  }

  /** The suffixes of the getattr line cannot start the old line: its only
      '=' comes after the same left-hand side, and then the lines differ. */
  lemma MinSizeGetattrTails()
    ensures TailsClear(MinSizeGetattr, MinSizeLine)
  {
    MinSizeTargetPlain();
    GetattrMinSizeShape();
    GetattrNotCfg();
    TailsByAnchor(MinSizeTarget, '=', GetattrMinSize, " cfg.min_size");
  }

  /** The rewritten min_size lines cannot re-form the old one. */
  lemma MinSizeNoCrossing()
    ensures NoCrossing(MinSizeFixed, MinSizeLine)
  {
    MinSizeFixedSplit();
    MinSizeLineLast();
    MinSizeLineNoHash();
    MinSizeLineNoNewline();
    MinSizeLineDot();
    CommentBodyNoDot();
    IndentPlain();
    MinSizeGetattrTails();
    ShortNotContains(Indent, MinSizeLine);
    CharWitness(CommentBody, MinSizeLine, '.');
    TailsBySeparator(CommentBody, '\n', MinSizeGetattr, MinSizeLine);
    TailsBySeparator(Indent, '#', MinSizeAfterMark, MinSizeLine);
    HeadsBySeparator(Indent, '#', MinSizeAfterMark, MinSizeLine);
  }

  // (c) The output_utils.py scale rewrite and its trigger.

  lemma ScaleFixedSplit()
    ensures ScaleFixed == Indent + ['#'] + ScaleAfterMark
  {
  }
  lemma ScaleLineLast() ensures ScaleLine[|ScaleLine| - 1] == ')' {}
  lemma ScaleLineNoHash() ensures '#' !in ScaleLine {}
  lemma ScaleLineNoNewline() ensures '\n' !in ScaleLine {}
  lemma ScaleLineLetters() ensures '.' in ScaleLine && 'R' in ScaleLine {}
  lemma MinSizeLocalNoR() ensures 'R' !in MinSizeLocal {}
  lemma ScaleTargetPlain() ensures '=' !in ScaleTarget && ')' !in ScaleTarget {}
  lemma ScaleArgsShape()
    ensures '=' !in ScaleCall + "min_size, cfg.max_size)"
    ensures (ScaleCall + "min_size, cfg.max_size)")[|ScaleCall + "min_size, cfg.max_size)"| - 1] == ')'
  {
  }
  lemma ScaleArgsDiffer()
    ensures !Compatible(ScaleCall + "min_size, cfg.max_size)", ScaleCall + "cfg.min_size, cfg.max_size)")
  {
    FirstCharIncompatible("min_size, cfg.max_size)", "cfg.min_size, cfg.max_size)");
    CommonPrefixCompatible(ScaleCall, "min_size, cfg.max_size)", "cfg.min_size, cfg.max_size)");
  }

  /** The suffixes of the new scale line cannot start the old one: its only
      '=' comes after the same left-hand side, and then the lines differ. */
  lemma ScaleLocalTails()
    ensures TailsClear(ScaleLocal, ScaleLine)
  {
    ScaleTargetPlain();
    ScaleArgsShape();
    ScaleArgsDiffer();
    TailsByAnchor(ScaleTarget, '=', ScaleCall + "min_size, cfg.max_size)", ScaleCall + "cfg.min_size, cfg.max_size)");
  }

  /** The three rewritten output_utils lines cannot re-form the old one. */
  lemma ScaleNoCrossing()
    ensures NoCrossing(ScaleFixed, ScaleLine)
  {
    ScaleFixedSplit();
    ScaleLineLast();
    ScaleLineNoHash();
    ScaleLineNoNewline();
    ScaleLineLetters();
    MinSizeLocalNoR();
    CommentBodyNoDot();
    IndentPlain();
    ScaleLocalTails();
    ShortNotContains(Indent, ScaleLine);
    CharWitness(CommentBody, ScaleLine, '.');
    CharWitness(MinSizeLocal, ScaleLine, 'R');
    TailsBySeparator(MinSizeLocal, '\n', ScaleLocal, ScaleLine);
    TailsBySeparator(CommentBody, '\n', MinSizeLocal + "\n" + ScaleLocal, ScaleLine);
    TailsBySeparator(Indent, '#', ScaleAfterMark, ScaleLine);
    HeadsBySeparator(Indent, '#', ScaleAfterMark, ScaleLine);
  }

  // (d) np.int_t and its replacement np.int32_t.

  lemma Int32TSplit() ensures Int32T == "np.int" + ['3'] + "2_t" {}

  /** np.int32_t cannot re-form np.int_t: the '3' is in the way. */
  lemma IntTNoCrossing()
    ensures NoCrossing(Int32T, IntT)
  {
    Int32TSplit();
    ShortNotContains("np.int", IntT);
    TailsByFirstChar("2_t", IntT);
    TailsBySeparator("np.int", '3', "2_t", IntT);
    forall j | 0 < j < |IntT| ensures !Compatible(IntT[j..], Int32T) {
      if j == 4 {
        CompatibleAgree(IntT[j..], Int32T, 1);
      } else {
        CompatibleAgree(IntT[j..], Int32T, 0);
      }
    }
  }

  // (e) dtype=np.int32, written by the dtype rules, and np.int_t.

  lemma DtypeInt32Split() ensures DtypeInt32 == DtypeInt + ['3'] + "2" {}

  /** dtype=np.int32 contains no np.int_t and cannot complete one. */
  lemma DtypeInt32NoCrossing()
    ensures NoCrossing(DtypeInt32, IntT)
  {
    DtypeInt32Split();
    CharWitness(DtypeInt, IntT, '_');
    TailsByFirstChar("2", IntT);
    TailsBySeparator(DtypeInt, '3', "2", IntT);
    HeadsByFirstChar(DtypeInt32, IntT);
  }

  // (f) The directive and the patterns that run after it is ensured.

  lemma DirectiveFirst() ensures Directive[0] == '#' {}
  lemma DirectiveLast() ensures Directive[|Directive| - 1] == '3' {}
  lemma DirectiveNoDot() ensures '.' !in Directive {}
  lemma IntTSplit() ensures IntT == "np" + ['.'] + "int_t" {}
  lemma DtypeIntSplit() ensures DtypeInt == "dtype=np" + ['.'] + "int" {}

  /** Replacing np.int_t cannot disturb the directive. */
  lemma DirectiveIntTNoCrossing()
    ensures NoCrossing(IntT, Directive)
  {
    DirectiveFirst();
    DirectiveLast();
    DirectiveNoDot();
    IntTSplit();
    TailsByFirstChar(IntT, Directive);
    HeadsBySeparator("np", '.', "int_t", Directive);
  }

  /** Replacing dtype=np.int cannot disturb the directive. */
  lemma DirectiveDtypeNoCrossing()
    ensures NoCrossing(DtypeInt, Directive)
  {
    DirectiveFirst();
    DirectiveLast();
    DirectiveNoDot();
    DtypeIntSplit();
    TailsByFirstChar(DtypeInt, Directive);
    HeadsBySeparator("dtype=np", '.', "int", Directive);
  }

  lemma DtypeInt64Split() ensures DtypeInt64 == "dtype=np" + ['.'] + "int64" {}

  /** Replacing dtype=np.int64 cannot disturb the directive. */
  lemma DirectiveDtype64NoCrossing()
    ensures NoCrossing(DtypeInt64, Directive)
  {
    DirectiveFirst();
    DirectiveLast();
    DirectiveNoDot();
    DtypeInt64Split();
    TailsByFirstChar(DtypeInt64, Directive);
    HeadsBySeparator("dtype=np", '.', "int64", Directive);
  }

  // Containments the scripts rely on.

  /** The commented CUDA line still holds the call, and is longer. */
  lemma CudaCommentedHoldsCall()
    ensures Contains(CudaCommented, CudaCall) && |CudaCommented| > |CudaCall|
  {
    assert CudaCommented[2..2 + |CudaCall|] == CudaCall;
    assert OccursAt(CudaCommented, CudaCall, 2);
  }

  /** dtype=np.int32 still holds dtype=np.int, and is longer. */
  lemma DtypeInt32HoldsDtypeInt()
    ensures Contains(DtypeInt32, DtypeInt) && |DtypeInt32| > |DtypeInt|
  {
    PrefixContains(DtypeInt, DtypeInt32);
  }

  /** Text holding dtype=np.int64 holds dtype=np.int. */
  lemma DtypeInt64HoldsDtypeInt(s: string)
    ensures Contains(s, DtypeInt64) ==> Contains(s, DtypeInt)
  {
    if Contains(s, DtypeInt64) {
      PrefixContains(DtypeInt, DtypeInt64);
      ContainsTrans(s, DtypeInt64, DtypeInt);
    }
  }

  /** Both fixed imports start with the already-fixed marker. */
  lemma FixedImportsHoldMarker()
    ensures IsPrefix(FixedImportMarker, NewImportMobile) && Contains(NewImportMobile, FixedImportMarker)
    ensures IsPrefix(FixedImportMarker, NewImportShort) && Contains(NewImportShort, FixedImportMarker)
  {
    PrefixContains(FixedImportMarker, NewImportMobile);
    PrefixContains(FixedImportMarker, NewImportShort);
  }

  /** The rewritten Cython file starts with the directive. */
  lemma PayloadStartsWithDirective()
    ensures IsPrefix(Directive, CythonPayload) && Contains(CythonPayload, Directive)
  {
    PrefixContains(Directive, CythonPayload);
  }
}
