# yolact_edge Colab patch scripts, modelled in Dafny

Nine of the repository's Python scripts repair a freshly cloned yolact_edge
checkout before training in Colab. Every script reads a few files of the
checkout, rewrites their text in memory and writes them back:

- it fixes the backbone import in `yolact_edge/data/config.py`;
- it adds the `# cython: language_level=3` directive to
  `yolact_edge/utils/cython_nms.pyx`, or overwrites that file, and replaces the
  deprecated `np.int_t` / `dtype=np.int` names;
- it comments out `torch.cuda.current_device()` in `yolact_edge/yolact.py`;
- it makes two `min_size` lines fall back to `max_size`.

The model describes those in-memory rewrites as pure functions on strings:

- `Text` defines Python's `t in s` (`Contains`) and `s.replace(pat, sub)`
  (`ReplaceAll`: leftmost, non-overlapping, left to right).
- `Crossing` proves, once for all strings, when a replacement cannot create
  and when it cannot destroy an occurrence of another text t. It creates none
  when t cannot line up with the inserted text, and destroys none when t
  cannot line up with the removed pattern (`NoCrossing` in each case). It
  also gives character-level tests for that condition.
- `Literals` holds every search and replacement string of the scripts. For each
  rule it proves the `NoCrossing` fact the rule needs.
- `Patch` holds the shapes the scripts share:
  - a file that may be missing (`Option`);
  - the outcome of one patch function: the text written, if any, and the
    returned boolean (`Step`);
  - the checkout (`Tree`), the writes to it (`Writes`) and a `main` outcome
    (`Report`);
  - directive prepending, and the ordered variant loop with `break`.
- `Rules` holds each rewrite once, with what it guarantees. Several scripts
  share these rewrites.
- One module per script composes the rules as that script does:
  `UltimateColabFix`, `FinalColabFix`, `RobustColabFix`, `ColabFix`,
  `FixImport`, `FixYolactEdgeIssues`, `ColabInlineFix`, `NotebookFix` and
  `FixCudaIssue`.

A missing file is `None`. A function that writes returns the new contents as
`Some`, and `None` means no write. Re-running a script is modelled by `Apply`,
which puts the writes back into the checkout.

## Model

| member | source | states |
|---|---|---|
| Text.Contains | colab_fix.py:88 | Python's `t in s`: t occurs at some index of s; the empty string is in every string, a string longer than s is not in it, and a prefix of s is |
| Text.ReplaceAll | colab_fix.py:87-89 | `str.replace`: the text is unchanged when the pattern does not occur; when it occurs the replacement text occurs in the result; a replacement at least as long never shortens the text, and a longer one lengthens it whenever it fires |
| Text.ReplaceAllGrows | fix_cuda_issue.py:23-28 | a replacement that contains its own pattern and is longer leaves the pattern behind and makes every later run grow the text, so it has no fixed point on text holding the pattern |
| Text.ReplaceLeading | notebook_fix.py:36 | a match at the very start, followed by pattern-free text, is replaced and the rest copied |
| Text.ReplaceAllSplit | colab_fix.py:87-89 | across a cut that no occurrence of the pattern straddles, replace-all rewrites each side on its own: text outside the occurrences is copied and nothing else changes |
| Text.ReplaceAllSingle | ultimate_colab_fix.py:119-120 | a lone occurrence is replaced by the new text and everything before and after it is copied unchanged |
| Crossing.NoFreshOccurrence | colab_fix.py:87-89 | replace-all creates no occurrence of t that cannot line up with the replacement text, and leaves none of its own pattern when the pattern cannot line up with its replacement |
| Crossing.PatternGone | ultimate_colab_fix.py:119-123 | after replace-all the pattern no longer occurs when it cannot line up with its replacement text, so the "not found or already fixed" branch is what a rerun takes |
| Crossing.StaysAbsent | fix_yolact_edge_issues.py:77-79 | a text absent before a replacement stays absent when it cannot line up with the replacement text |
| Crossing.OccurrenceSurvives | fix_yolact_edge_issues.py:69-79 | an occurrence of t that the pattern cannot overlap survives replace-all |
| Crossing.StaysPresent | fix_yolact_edge_issues.py:69-79 | text present before a replacement stays present when the pattern cannot overlap it (the directive survives the type rewrites) |
| Crossing.PrefixStays | colab_fix.py:73-84 | text that leads the file stays at the start after a replacement whose pattern cannot overlap it (the directive stays the first line) |
| Literals.ImportMobileNoCrossing | ultimate_colab_fix.py:116-117 | the fixed MobileNetV2 import cannot re-form or run into the broken one |
| Literals.MinSizeNoCrossing | ultimate_colab_fix.py:154-155 | the two new min_size lines cannot re-form `self.min_size = cfg.min_size` |
| Literals.ScaleNoCrossing | ultimate_colab_fix.py:173-174 | the three new output_utils lines cannot re-form the old scale call |
| Literals.IntTNoCrossing | colab_fix.py:82 | `np.int32_t` cannot re-form `np.int_t` |
| Literals.DtypeInt32NoCrossing | colab_fix.py:83-84 | `dtype=np.int32` cannot form `np.int_t` |
| Literals.DirectiveIntTNoCrossing | fix_yolact_edge_issues.py:69-78 | replacing `np.int_t` cannot touch the directive |
| Literals.DirectiveDtypeNoCrossing | fix_yolact_edge_issues.py:69-79 | replacing `dtype=np.int` cannot touch the directive |
| Literals.DirectiveDtype64NoCrossing | colab_fix.py:73-84 | replacing `dtype=np.int64` cannot touch the directive |
| Literals.CudaCommentedHoldsCall | fix_cuda_issue.py:23-24 | the commented CUDA line still contains the call and is longer |
| Literals.DtypeInt32HoldsDtypeInt | notebook_fix.py:36 | `dtype=np.int32` still contains `dtype=np.int` and is longer |
| Literals.FixedImportsHoldMarker | colab_fix.py:25-37 | both fixed imports start with the already-fixed marker `from yolact_edge.backbone import` |
| Literals.PayloadStartsWithDirective | ultimate_colab_fix.py:28 | the rewritten Cython file begins with the directive |
| Patch.ReplaceIfPresent | ultimate_colab_fix.py:119-120 | the `if old in content` guard makes no difference: the result is plain replace-all |
| Patch.PrependIfAbsent | colab_fix.py:73-77 | the directive is contained afterwards; the text is unchanged exactly when it already contained the directive; otherwise the directive and a newline are put in front of the old text; either way a text that lacked the directive or began with it begins with it afterwards |
| Patch.PrependIdempotent | colab_fix.py:73-77 | prepending twice equals prepending once |
| Patch.ApplyFirst | colab_fix.py:40-46 | no result exactly when no variant occurs; otherwise the result is the replace-all of some variant k that occurs, and no variant before k occurs |
| Rules.FixMobileImport | ultimate_colab_fix.py:116-123 | unchanged when the old import is absent; otherwise the fixed import and marker occur; the old import never remains |
| Rules.FixMobileImportIdempotent | ultimate_colab_fix.py:116-123 | a second import pass changes nothing |
| Rules.CommentOutCuda | ultimate_colab_fix.py:135-142 | unchanged when the call is absent; otherwise the commented form occurs and the text grows; the call occurs afterwards exactly when it occurred before |
| Rules.CommentOutCudaNotIdempotent | ultimate_colab_fix.py:135-142 | on any text with the call, a second run changes the text again and the call is still found, so the "already fixed" branch is never reached |
| Rules.CudaRerunCounterexample | ultimate_colab_fix.py:135-142 | the bare call becomes the commented line, and the commented line is changed again |
| Rules.FixMinSize | ultimate_colab_fix.py:154-161 | unchanged when the line is absent; otherwise the getattr lines occur; the old line never remains |
| Rules.FixMinSizeIdempotent | ultimate_colab_fix.py:154-161 | a second min_size pass leaves the text unchanged |
| Rules.FixScale | ultimate_colab_fix.py:173-181 | unchanged when the scale line is absent; otherwise the new lines occur; the old line never remains |
| Rules.FixIntT | colab_inline_fix.py:53-55 | no `np.int_t` remains; unchanged when it was absent; the directive survives, and stays first when it led the text |
| Rules.FixDtype | colab_inline_fix.py:57-59 | unchanged when `dtype=np.int` is absent; creates no `np.int_t`; the directive survives, and stays first when it led the text |
| Rules.FixDtype64 | colab_fix.py:84 | unchanged when `dtype=np.int64` is absent; creates no `np.int_t`; the directive survives, and stays first when it led the text |
| Rules.DirectiveKept | fix_yolact_edge_issues.py:69-79 | a replacement whose pattern cannot overlap the directive keeps it, and keeps it first when it led the text |
| Rules.ReplaceDtypeKeepsIntTAbsent | colab_fix.py:83-84 | writing `dtype=np.int32` in place of any pattern creates no `np.int_t` |
| Rules.FixDtypeNotIdempotent | colab_inline_fix.py:57-59 | on any text holding `dtype=np.int`, a second run changes the text again |
| Rules.DtypeRerunCounterexample | notebook_fix.py:36 | `dtype=np.int32` becomes `dtype=np.int3232` |
| Rules.UpdateCythonTypes | colab_inline_fix.py:48-59 | the directive is present and no `np.int_t` remains; a file without the directive grows and begins with the directive afterwards, and a file that began with it still does; a file that already has the directive and holds neither `np.int_t` nor `dtype=np.int` comes back unchanged |
| Rules.UpdateCythonTypesNotIdempotent | notebook_fix.py:31-36 | when the output still holds `dtype=np.int`, running the Cython update on it changes it again |
| Rules.FixMobileImportSplit | ultimate_colab_fix.py:116-120 | the import rewrite works piece by piece: across a cut no broken import straddles, each side is rewritten on its own, so every occurrence becomes the `yolact_edge.backbone` form and nothing else changes |
| Rules.FixMobileImportFrame | ultimate_colab_fix.py:116-120 | a lone broken import is replaced by the fixed import and the text around it is written back unchanged |
| Rules.CommentOutCudaSplit | ultimate_colab_fix.py:135-139 | the comment-out works piece by piece: across a cut no call straddles, each side is rewritten on its own |
| Rules.CommentOutCudaFrame | fix_cuda_issue.py:23-27 | a lone call is replaced by the commented line and the text around it is written back unchanged |
| Rules.FixMinSizeFrame | ultimate_colab_fix.py:154-158 | a lone min_size line becomes the comment and getattr lines, and the text around it is written back unchanged |
| Rules.FixScaleFrame | ultimate_colab_fix.py:173-180 | a lone scale call becomes the comment, getattr and scale lines, and the text around it is written back unchanged |
| Rules.OverwriteCython | ultimate_colab_fix.py:27-107 | a write happens exactly when the file exists, and it is the fixed payload starting with the directive, whatever the file held |
| Rules.OverwriteCythonIdempotent | ultimate_colab_fix.py:27-107 | overwriting the overwritten file writes the same payload |
| Rules.RewriteConfig | ultimate_colab_fix.py:111-126 | a write happens exactly when config.py exists; unchanged contents when the old import is absent; the old import never remains |
| Rules.RewriteYolact | ultimate_colab_fix.py:130-145 | a write happens exactly when yolact.py exists; unchanged when the call is absent; otherwise the commented form is present |
| UltimateColabFix.RewriteAugmentations | ultimate_colab_fix.py:149-164 | a write happens exactly when the file exists; unchanged when the line is absent; the old line never remains |
| UltimateColabFix.RewriteOutputUtils | ultimate_colab_fix.py:168-188 | the two checks of one identical line rewrite the file exactly once: the second check changes nothing |
| UltimateColabFix.UltimateFix | ultimate_colab_fix.py:17-190 | each file is written exactly when it exists; Cython gets the payload; the old import, min_size line and scale line are gone; the CUDA call is present afterwards exactly when it was before |
| UltimateColabFix.UltimateFixIndependent | ultimate_colab_fix.py:27-188 | what is written to a file depends only on that file, so a missing file does not stop the other fixes |
| UltimateColabFix.UltimateFixRerun | ultimate_colab_fix.py:27-188 | a second run writes the same Cython, config, augmentations and output_utils contents; yolact.py changes again whenever it held the call |
| FinalColabFix.ComprehensiveFix | final_colab_fix.py:17-147 | Cython, config and yolact.py are written exactly when they exist; nothing else is written; payload, import and CUDA outcomes as in the ultimate script |
| FinalColabFix.ComprehensiveIsUltimatePrefix | final_colab_fix.py:27-145 | the script's writes are the ultimate script's writes to the three files they share |
| FinalColabFix.ComprehensiveFixRerun | final_colab_fix.py:27-145 | a second run writes the same Cython and config contents; yolact.py changes again whenever it held the call |
| RobustColabFix.FixCythonFileDirectly | robust_colab_fix.py:10-102 | False and no write for a missing file; otherwise True and the payload written whatever the file held |
| RobustColabFix.FixConfigFileDirectly | robust_colab_fix.py:104-131 | False and no write for a missing file; otherwise True, even when the import is not found, with the contents then unchanged; the old import never remains |
| RobustColabFix.Main | robust_colab_fix.py:133-155 | no fix outside a checkout; otherwise success is reported exactly when both files exist; only config and Cython are written |
| FixImport.FixImportIssue | fix_import.py:10-51 | missing file: False, no write; marker present: True, no write; otherwise True exactly when one form occurs, the MobileNetV2 form taking precedence; no write on False; anything written holds the marker |
| FixImport.FixImportIssueRerun | fix_import.py:24-44 | after a rewrite a second call writes nothing and returns True |
| FixImport.MobileLineFirst | fix_import.py:24-37 | a file without the marker that starts with the broken MobileNetV2 line and holds no other is written with the fixed line in its place and the rest unchanged |
| FixImport.ShortLineLeftBehind | fix_import.py:36-41 | with the MobileNetV2 line followed by a separate short-form line, only the first is rewritten and the short line stays broken |
| ColabFix.FixImportIssue | colab_fix.py:11-57 | missing file: False, no write; marker present: True, no write; otherwise True exactly when a variant occurs; no write on False |
| ColabFix.LoopMatchesElif | colab_fix.py:40-50 | the variant loop with `break` behaves exactly as the if/elif chain of fix_import.py |
| ColabFix.FixImportIssueRerun | colab_fix.py:25-37 | after a rewrite a second call is a no-op returning True |
| ColabFix.TypeRules | colab_fix.py:81-90 | after the replacement list no `np.int_t` remains, and a directive present before survives, first when it led the text; text holding neither `np.int_t` nor `dtype=np.int` (and so no `dtype=np.int64`) is returned unchanged |
| ColabFix.FixCythonIssue | colab_fix.py:59-97 | True exactly when the file exists; the written file contains the directive and no `np.int_t`; a file that lacked the directive, or began with it, is written beginning with the directive; a file with the directive and neither `np.int_t` nor `dtype=np.int` is written back unchanged |
| ColabFix.Main | colab_fix.py:99-121 | no fix outside a checkout; otherwise success is reported exactly when the Cython file exists and config.py holds the marker or a variant |
| ColabFix.TypeRulesMangleInt64 | colab_fix.py:81-90 | as written, `dtype=np.int64` becomes `dtype=np.int3264` |
| ColabFix.TypeRulesMangleInt32 | colab_fix.py:81-90 | as written, `dtype=np.int32` becomes `dtype=np.int3232` |
| ColabFix.BareGone | colab_fix.py:83-84 | for every text, the bare-name replacement leaves no bare occurrence: every occurrence left is followed by a letter, digit or underscore |
| ColabFix.BareKeepsLonger | colab_fix.py:83-84 | an occurrence followed by a name character (as in `dtype=np.int32` or `dtype=np.intp`) is copied unchanged |
| ColabFix.BareReplacesAtEnd | colab_fix.py:83 | a text that is exactly the bare name is replaced |
| ColabFix.TypeRulesCorrected | colab_fix.py:81-90 | in the corrected order, for every text, every `dtype=np.int` left is the start of a longer name: no bare `dtype=np.int` survives |
| ColabFix.CorrectedKeepsIntp | colab_fix.py:81-90 | in the corrected order `dtype=np.intp` is left alone |
| ColabFix.TypeRulesCorrectedConvert | colab_fix.py:81-90 | in the corrected order `dtype=np.int64` and `dtype=np.int` become `dtype=np.int32`, and `dtype=np.int32` stays |
| FixYolactEdgeIssues.GatedTypes | fix_yolact_edge_issues.py:76-82 | both rewrites run only when `np.int_t` occurs; no `np.int_t` remains; the directive survives, first when it led the text |
| FixYolactEdgeIssues.FixCythonIssue | fix_yolact_edge_issues.py:55-89 | True exactly when the file exists; the written file has the directive and no `np.int_t`; a file with the directive and no `np.int_t` is written back unchanged; a file that lacked the directive, or began with it, is written beginning with the directive |
| FixYolactEdgeIssues.FixCythonIssueIdempotent | fix_yolact_edge_issues.py:55-89 | for every input, missing file included, the Cython fix applied to its own output gives the same write and result |
| FixYolactEdgeIssues.Main | fix_yolact_edge_issues.py:91-107 | both fixes always run (no directory check); success exactly when the Cython file exists and config.py holds the marker or an import form |
| ColabInlineFix.FixConfig | colab_inline_fix.py:12-39 | written exactly when the file exists; the MobileNetV2 form is rewritten first, else the short form; unchanged contents when neither occurs |
| ColabInlineFix.FixCython | colab_inline_fix.py:43-62 | written exactly when the file exists, with the directive and no `np.int_t`; a file that lacked the directive, or began with it, is written beginning with the directive; a file with the directive and neither `np.int_t` nor `dtype=np.int` is written back unchanged |
| ColabInlineFix.FixYolactEdgeColab | colab_inline_fix.py:5-64 | config and Cython are each written exactly when they exist, and nothing else is written; a Cython file without the directive is written beginning with it, and one with the directive and no trigger is written back unchanged |
| ColabInlineFix.FixYolactEdgeColabIndependent | colab_inline_fix.py:12-62 | the two fixes are gated independently: each write depends only on its own file |
| ColabInlineFix.FixYolactEdgeColabRerun | colab_inline_fix.py:57-59 | rerunning changes the Cython file again whenever the first run left `dtype=np.int` in it |
| NotebookFix.FixYolactEdgeIssues | notebook_fix.py:5-41 | the unconditional import replace leaves absent-import contents unchanged and no old import behind; the Cython file gets the directive, first when it lacked it or began with it, and loses `np.int_t`; a Cython file with the directive and neither `np.int_t` nor `dtype=np.int` is written back unchanged |
| NotebookFix.FixYolactEdgeIssuesRerun | notebook_fix.py:15-36 | a second config pass is a no-op; the Cython file changes again whenever `dtype=np.int` is left in it |
| FixCudaIssue.FixCudaIssue | fix_cuda_issue.py:9-36 | missing file: False, no write; otherwise True and a write; unchanged when the call is absent; otherwise the commented form is present and the call is still found |
| FixCudaIssue.FixCudaIssueNotIdempotent | fix_cuda_issue.py:23-30 | applied to its own output the fix changes the file again |
| FixCudaIssue.Main | fix_cuda_issue.py:38-55 | no fix outside a checkout; otherwise success exactly when yolact.py exists; only yolact.py is written |
| FixCudaIssue.FixCudaIssueGuarded | fix_cuda_issue.py:23-30 | with an already-commented guard: text holding the commented form is written back unchanged; otherwise the call is commented |
| FixCudaIssue.FixCudaIssueGuardedIdempotent | fix_cuda_issue.py:23-30 | the guarded fix applied to its own output is the identity |

## Left out

- File I/O: `os.path.exists`, `open`, `read` and `write` become the `Option`
  inputs and the returned writes. Printing is left out; outcomes are return
  values.
- `install_cython` (ultimate_colab_fix.py:7-15, final_colab_fix.py:7-15) is a
  `pip` subprocess call and is not part of this model. Its `check_call`
  raises when the install fails, and the scripts then stop at
  ultimate_colab_fix.py:23 and final_colab_fix.py:23 before any fix; the
  model always runs the fixes.
- The strings are the text Python's text mode gives: `open(f, 'r')` decodes
  with the locale encoding and turns `\r\n` and `\r` into `\n`, and
  `open(f, 'w')` writes `\n`. Every "written back unchanged" clause holds of
  that decoded text, not of the bytes on disk: a CRLF config.py is written
  back with LF line endings even when no import is found.
- A file that cannot be decoded makes `read` raise, which stops the script
  and every fix after it. The model has no decoding failure, so
  `UltimateColabFix.UltimateFixIndependent` and
  `ColabInlineFix.FixYolactEdgeColabIndependent` speak only of files that
  are missing or read successfully.
- The text of the NMS kernel in the rewritten Cython file is an unspecified
  constant `NmsKernel`. The three overwriting scripts embed the same text, and
  no property depends on it beyond the directive that precedes it.
- export_onnx.py is not part of this model: it is argument parsing, model
  construction and ONNX tracing.
- fix_checkpoint.py is not part of this model: every step is a torch call.
- The unused `import re` has no behaviour.
- `ReplaceAll` requires a non-empty pattern. Every call in the scripts uses a
  non-empty literal; Python's behaviour for an empty pattern is not modelled.
- `main`'s return value is `None` in the scripts; the model reports what `main`
  prints as a boolean `allFixed`, and `NotInRepo` for the early return.
- A few replaces run without first testing for their own pattern:
  fix_yolact_edge_issues.py:79 (`dtype=np.int`, inside the `np.int_t` test
  at :77) and notebook_fix.py:15-18 and :35-36. `Patch.ReplaceIfPresent`
  proves the guarded and unguarded forms equal, so the shared guarded rules
  are used for these too.
- fix_yolact_edge_issues.py:12-53 is the same function as fix_import.py:10-51
  and is modelled once, as `FixImport.FixImportIssue`.
- ColabFix.TypeRulesCorrected: states, for every text, that no bare
  `dtype=np.int` is left; that the corrected order also keeps the directive and
  leaves no `np.int_t` is not stated, and the exact conversions are proved
  for the canonical names in `ColabFix.TypeRulesCorrectedConvert`.
- A name character is an ASCII letter, digit or underscore; Python's
  non-ASCII identifier characters are not modelled.
- ColabFix.TypeRules: beyond leaving trigger-free text unchanged, the
  contract says nothing about what becomes of `dtype=` names, since the rule
  order mangles them (see Findings).

## Findings

| source | as written | input that shows it | evidently intended | confidence | as-written member | corrected member |
|---|---|---|---|---|---|---|
| colab_fix.py:81-90 | the bare `dtype=np.int` rule runs before the `dtype=np.int64` rule and also matches the start of `dtype=np.int64` and `dtype=np.int32` | `dtype=np.int64` becomes `dtype=np.int3264`; `dtype=np.int32` becomes `dtype=np.int3232` | the comment on line 84 intends `dtype=np.int64` to become `dtype=np.int32`, and already converted names to be left alone | high, not executed | ColabFix.TypeRulesMangleInt64 | ColabFix.TypeRulesCorrected |
| fix_cuda_issue.py:23-30 | the replacement contains the call it replaces, so the `in` check always fires again | a file holding `torch.cuda.current_device()` is commented again on every run and grows each time | a rerun takes the "already fixed" branch and leaves the file unchanged | high, not executed | FixCudaIssue.FixCudaIssueNotIdempotent | FixCudaIssue.FixCudaIssueGuardedIdempotent |
