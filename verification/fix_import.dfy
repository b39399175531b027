/** fix_import.py: the config import fix with an already-fixed guard and the
    MobileNetV2 form tried before the short form. fix_yolact_edge_issues.py
    contains the same function, word for word. */
module FixImport {
  import opened Text
  import opened Literals
  import opened Patch

  /** False and no write for a missing file; True and no write when the fix
      is already applied; otherwise the MobileNetV2 form is rewritten if it
      occurs, else the short form, else the result is False with no write. */
  function FixImportIssue(f: Option<string>): (st: Step)
    ensures f.None? ==> st == Step(None, false)
    ensures f.Some? && Contains(f.value, FixedImportMarker) ==> st == Step(None, true)
    ensures f.Some? && !Contains(f.value, FixedImportMarker) ==>
      (st.ok <==> Contains(f.value, OldImportMobile) || Contains(f.value, OldImportShort))
    ensures f.Some? && !Contains(f.value, FixedImportMarker) && Contains(f.value, OldImportMobile) ==>
      st.written == Some(ReplaceAll(f.value, OldImportMobile, NewImportMobile))
    ensures f.Some? && !Contains(f.value, FixedImportMarker) && !Contains(f.value, OldImportMobile) && Contains(f.value, OldImportShort) ==>
      st.written == Some(ReplaceAll(f.value, OldImportShort, NewImportShort))
    ensures !st.ok ==> st.written.None?
    ensures st.written.Some? ==> st.ok && Contains(st.written.value, FixedImportMarker)
  {
    FixedImportsHoldMarker();
    if f.None? then Step(None, false)
    else
      var s := f.value;
      if Contains(s, FixedImportMarker) then Step(None, true)
      else if Contains(s, OldImportMobile) then
        var r := ReplaceAll(s, OldImportMobile, NewImportMobile);
        ContainsTrans(r, NewImportMobile, FixedImportMarker);
        Step(Some(r), true)
      else if Contains(s, OldImportShort) then
        var r := ReplaceAll(s, OldImportShort, NewImportShort);
        ContainsTrans(r, NewImportShort, FixedImportMarker);
        Step(Some(r), true)
      else Step(None, false)
  }

  /** After a rewrite the marker is present, so a second call writes nothing
      and returns True. */
  lemma FixImportIssueRerun(f: Option<string>)
    requires FixImportIssue(f).written.Some?
    ensures FixImportIssue(FixImportIssue(f).written) == Step(None, true)
  {
  }

  /** With the MobileNetV2 line present, only that line is rewritten: a
      separate short-form line after it stays broken. */
  lemma ShortLineLeftBehind()
    ensures FixImportIssue(Some(OldImportMobile + "\n" + OldImportShort)).written ==
      Some(NewImportMobile + "\n" + OldImportShort)
  {
    var w := "\n" + OldImportShort;
    ShortNotContains(w, OldImportMobile);
    MarkerNotInBrokenLines();
    MobileLineFirst(w);
    assert OldImportMobile + w == OldImportMobile + "\n" + OldImportShort;
    assert NewImportMobile + w == NewImportMobile + "\n" + OldImportShort;
  }

  /** A broken MobileNetV2 line at the start, followed by text without another
      one and without the marker, is the only thing rewritten. */
  lemma MobileLineFirst(w: string)
    requires !Contains(w, OldImportMobile)
    requires !Contains(OldImportMobile + w, FixedImportMarker)
    ensures FixImportIssue(Some(OldImportMobile + w)).written == Some(NewImportMobile + w)
  {
    PrefixContains(OldImportMobile, OldImportMobile + w);
    ReplaceLeading(OldImportMobile, w, NewImportMobile);
  }

  /** The broken lines do not carry the already-fixed marker: it has the 'y'
      of yolact_edge and they have none. */
  lemma MarkerNotInBrokenLines()
    ensures !Contains(OldImportMobile + ("\n" + OldImportShort), FixedImportMarker)
  {
    var w := "\n" + OldImportShort;
    OldImportMobileNoY();
    OldImportShortNoY();
    assert 'y' !in w;
    assert 'y' in FixedImportMarker;
    CharWitness(OldImportMobile + w, FixedImportMarker, 'y');
  }
}
