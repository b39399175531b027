/** fix_cuda_issue.py: comment out the CUDA device call in yolact.py. */
module FixCudaIssue {
  import opened Text
  import opened Literals
  import opened Patch
  import opened Rules

  /** False and no write for a missing file; otherwise every call is
      commented out, the contents are written back even when there was none,
      and the result is True. */
  function FixCudaIssue(f: Option<string>): (st: Step)
    ensures f.None? ==> st == Step(None, false)
    ensures f.Some? ==> st.ok && st.written.Some?
    ensures f.Some? && !Contains(f.value, CudaCall) ==> st.written == f
    ensures f.Some? && Contains(f.value, CudaCall) ==>
      Contains(st.written.value, CudaCommented) && Contains(st.written.value, CudaCall)
  {
    if f.None? then Step(None, false) else Step(RewriteYolact(f), true)
  }

  /** Applied to its own output the fix changes the file again: the "already
      fixed" branch is never reached after a first fix. */
  lemma FixCudaIssueNotIdempotent(f: Option<string>)
    requires f.Some? && Contains(f.value, CudaCall)
    ensures FixCudaIssue(FixCudaIssue(f).written).written != FixCudaIssue(f).written
  {
    CommentOutCudaNotIdempotent(f.value);
  }

  /** `main`: nothing outside a checkout; otherwise the fix runs and success
      is reported exactly when yolact.py exists. */
  function Main(t: Tree): (r: Report)
    ensures r.NotInRepo? <==> !t.hasRepo
    ensures r.Reported? ==> (r.allFixed <==> t.yolact.Some?)
    ensures r.Reported? ==> (r.writes.cython.None? && r.writes.config.None? &&
                             r.writes.augmentations.None? && r.writes.outputUtils.None?)
    ensures r.Reported? ==> (r.writes.yolact.Some? <==> t.yolact.Some?)
  {
    if !t.hasRepo then NotInRepo
    else
      var st := FixCudaIssue(t.yolact);
      Reported(NoWrites.(yolact := st.written), st.ok)
  }

  /** The fix with the guard its message implies: when the commented form is
      already there the file is written back unchanged. */
  function FixCudaIssueGuarded(f: Option<string>): (st: Step)
    ensures f.None? ==> st == Step(None, false)
    ensures f.Some? ==> st.ok && st.written.Some?
    ensures f.Some? && Contains(f.value, CudaCommented) ==> st.written == f
    ensures f.Some? && !Contains(f.value, CudaCommented) && Contains(f.value, CudaCall) ==>
      Contains(st.written.value, CudaCommented)
  {
    if f.None? then Step(None, false)
    else if Contains(f.value, CudaCommented) then Step(f, true)
    else Step(RewriteYolact(f), true)
  }

  /** The guarded fix applied to its own output writes the same text again. */
  lemma FixCudaIssueGuardedIdempotent(f: Option<string>)
    ensures FixCudaIssueGuarded(FixCudaIssueGuarded(f).written) == FixCudaIssueGuarded(f)
  {
  }
}
