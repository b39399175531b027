/** The shapes every patch script shares: a file that may be missing, the
    outcome of one patch function, and the three ways the scripts edit text
    (ensure a leading directive, try rewrite variants in order, overwrite). */
module Patch {
  import opened Text

  datatype Option<T> = None | Some(value: T)

  /** What a patch function leaves behind: the text it writes back, if any,
      and the boolean it returns. */
  datatype Step = Step(written: Option<string>, ok: bool)

  /** The files of a cloned yolact_edge checkout the scripts look at, each
      None when it does not exist, and whether the yolact_edge directory
      itself exists. */
  datatype Tree = Tree(
    hasRepo: bool,
    cython: Option<string>,        // yolact_edge/utils/cython_nms.pyx
    config: Option<string>,        // yolact_edge/data/config.py
    yolact: Option<string>,        // yolact_edge/yolact.py
    augmentations: Option<string>, // yolact_edge/utils/augmentations.py
    outputUtils: Option<string>)   // yolact_edge/layers/output_utils.py

  /** What a script writes to each of those files; None means no write. */
  datatype Writes = Writes(
    cython: Option<string>,
    config: Option<string>,
    yolact: Option<string>,
    augmentations: Option<string>,
    outputUtils: Option<string>)

  const NoWrites: Writes := Writes(None, None, None, None, None)

  /** The checkout after the writes: a written file takes its new contents,
      every other file keeps its old ones. */
  function Updated(f: Option<string>, w: Option<string>): Option<string> {
    if w.Some? then w else f
  }

  function Apply(t: Tree, w: Writes): Tree {
    Tree(t.hasRepo, Updated(t.cython, w.cython), Updated(t.config, w.config),
         Updated(t.yolact, w.yolact), Updated(t.augmentations, w.augmentations),
         Updated(t.outputUtils, w.outputUtils))
  }

  /** What a script's `main` leaves behind: nothing when it stops because
      the yolact_edge directory is missing, otherwise its writes and whether
      it reports that every fix succeeded. */
  datatype Report = NotInRepo | Reported(writes: Writes, allFixed: bool)

  /** One rewrite: every occurrence of the trigger becomes the replacement. */
  datatype Rule = Rule(trigger: string, replacement: string)

  predicate ValidRules(rules: seq<Rule>) {
    forall k | 0 <= k < |rules| :: |rules[k].trigger| > 0
  }

  /** `if pat in content: content = content.replace(pat, sub)`; the guard
      makes no difference to the result. */
  function ReplaceIfPresent(s: string, pat: string, sub: string): (r: string)
    requires |pat| > 0
    ensures r == ReplaceAll(s, pat, sub)
  {
    if Contains(s, pat) then ReplaceAll(s, pat, sub) else s
  }

  /** Puts `line` and a newline in front of s unless s already contains
      `line` somewhere. */
  function PrependIfAbsent(s: string, line: string): (r: string)
    ensures Contains(r, line)
    ensures r == s <==> Contains(s, line)
    ensures !Contains(s, line) ==> IsPrefix(line, r) && r[|line|..] == "\n" + s
    ensures !Contains(s, line) || IsPrefix(line, s) ==> IsPrefix(line, r)
  {
    if Contains(s, line) then s
    else
      var r := line + "\n" + s;
      PrefixContains(line, r);
      r
  }

  /** Prepending twice is prepending once. */
  lemma PrependIdempotent(s: string, line: string)
    ensures PrependIfAbsent(PrependIfAbsent(s, line), line) == PrependIfAbsent(s, line)
  {
  }

  /** The variant loop with `break`: the first rule whose trigger occurs is
      applied to the whole text and the rest are not tried; None when no
      rule's trigger occurs. */
  function ApplyFirst(s: string, rules: seq<Rule>): (r: Option<string>)
    requires ValidRules(rules)
    ensures r.None? <==> forall k | 0 <= k < |rules| :: !Contains(s, rules[k].trigger)
    ensures r.Some? ==> exists k | 0 <= k < |rules| ::
      (forall j | 0 <= j < k :: !Contains(s, rules[j].trigger)) &&
      Contains(s, rules[k].trigger) && r.value == ReplaceAll(s, rules[k].trigger, rules[k].replacement)
    decreases |rules|
  {
    if |rules| == 0 then None
    else if Contains(s, rules[0].trigger) then Some(ReplaceAll(s, rules[0].trigger, rules[0].replacement))
    else
      var r := ApplyFirst(s, rules[1..]);
      assert forall k | 1 <= k < |rules| :: rules[1..][k - 1] == rules[k];
      r
  }
}
