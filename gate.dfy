/** The preview/commit gate of `RegexFileRenamerGUI`: `preview_changes`
    fills `current_changes` and `current_collisions` and decides whether the
    "Rename Files" button is enabled; `rename_files` performs the plan and
    appends to `rename_log`; `invalidate_preview` throws the preview away. */
module Gate {
  import opened Text
  import opened Rules
  import opened Planner
  import opened Presets
  import opened Collisions
  import opened Substitution
  import opened Filename

  /** One `rename_log` entry; its timestamp is not part of the model. */
  datatype LogEntry = LogEntry(oldName: string, newName: string)

  /** The entries `rename_files` appends for a plan, one per rename that
      succeeds, in plan order. */
  function SuccessLog(cs: seq<Change>, renameOk: Change -> bool): (entries: seq<LogEntry>)
    ensures |entries| <= |cs|
  {
    if cs == [] then []
    else
      var c := cs[|cs| - 1];
      SuccessLog(cs[..|cs| - 1], renameOk) + (if renameOk(c) then [LogEntry(c.oldName, c.newName)] else [])
  }

  lemma SuccessLogStep(cs: seq<Change>, i: nat, renameOk: Change -> bool)
    requires i < |cs|
    ensures SuccessLog(cs[..i + 1], renameOk) == SuccessLog(cs[..i], renameOk)
      + (if renameOk(cs[i]) then [LogEntry(cs[i].oldName, cs[i].newName)] else [])
  {
    assert cs[..i + 1][..i] == cs[..i];
  }

  /** One log entry per planned change exactly when every rename
      succeeds. */
  lemma {:induction false} SuccessLogCount(cs: seq<Change>, renameOk: Change -> bool)
    ensures |SuccessLog(cs, renameOk)| == |cs| <==> forall k :: 0 <= k < |cs| ==> renameOk(cs[k])
  {
    if cs != [] {
      var init := cs[..|cs| - 1];
      SuccessLogCount(init, renameOk);
      if forall k :: 0 <= k < |cs| ==> renameOk(cs[k]) {
        assert forall k :: 0 <= k < |init| ==> renameOk(init[k]) by {
          forall k | 0 <= k < |init| ensures renameOk(init[k]) {
            assert init[k] == cs[k];
          }
        }
      }
      if !renameOk(cs[|cs| - 1]) {
        assert |SuccessLog(cs, renameOk)| < |cs|;
      } else if exists k :: 0 <= k < |init| && !renameOk(init[k]) {
        var k :| 0 <= k < |init| && !renameOk(init[k]);
        assert !renameOk(cs[k]);
      }
    }
  }

  /** The log entries of a plan name exactly the renames that succeed. */
  lemma {:induction false} SuccessLogEntries(cs: seq<Change>, renameOk: Change -> bool, e: LogEntry)
    ensures e in SuccessLog(cs, renameOk) <==>
      exists k :: 0 <= k < |cs| && renameOk(cs[k]) && e == LogEntry(cs[k].oldName, cs[k].newName)
  {
    if cs != [] {
      var init := cs[..|cs| - 1];
      SuccessLogEntries(init, renameOk, e);
      if exists k :: 0 <= k < |init| && renameOk(init[k]) && e == LogEntry(init[k].oldName, init[k].newName) {
        var k :| 0 <= k < |init| && renameOk(init[k]) && e == LogEntry(init[k].oldName, init[k].newName);
        assert cs[k] == init[k];
      }
      if exists k :: 0 <= k < |cs| && renameOk(cs[k]) && e == LogEntry(cs[k].oldName, cs[k].newName) {
        var k :| 0 <= k < |cs| && renameOk(cs[k]) && e == LogEntry(cs[k].oldName, cs[k].newName);
        if k < |init| {
          assert cs[k] == init[k];
        }
      }
    }
  }

  /** `any(" " in os.path.basename(f) for f in files)`: a literal space,
      not any whitespace. */
  predicate HasLiteralSpace(files: seq<FilePath>)
    ensures HasLiteralSpace(files) ==> exists k :: 0 <= k < |files| && HasClass(files[k].name, Whitespace)
  {
    if exists k :: 0 <= k < |files| && ' ' in files[k].name then
      var k :| 0 <= k < |files| && ' ' in files[k].name;
      var i :| 0 <= i < |files[k].name| && files[k].name[i] == ' ';
      assert InClass(Whitespace, files[k].name[i]);
      true
    else false
  }

  /** The early exit looks for a literal space only: a name whose only
      whitespace is a tab is skipped by it, although "Replace Spaces with
      Underscores" would rename it. */
  lemma TabIsNotALiteralSpace(d: string)
    ensures var files := [FilePath(d, "a\tb")];
      !HasLiteralSpace(files) && PresetPlan(files, ReplaceSpacesWithUnderscores, [], []) != []
  {
    var files := [FilePath(d, "a\tb")];
    var sub := ReplaceRuns(Whitespace, "_");
    assert !HasLiteralSpace(files) by {
      assert forall k :: 0 <= k < |files| ==> files[k].name == "a\tb";
      assert ' ' !in "a\tb";
    }
    PresetIsPlanRegex(files, ReplaceSpacesWithUnderscores, [], [], sub);
    TabRunBecomesUnderscore();
    PlanRegexComplete(files, sub, files[0]);
  }

  lemma TabRunBecomesUnderscore()
    ensures Matches(ReplaceRuns(Whitespace, "_"), "a\tb")
    ensures Substitute(ReplaceRuns(Whitespace, "_"), "a\tb") == "a_b"
    ensures IsValidFilename("a_b")
  {
    var name := "a\tb";
    assert InClass(Whitespace, name[1]);
    assert SkipRun(name[1..], Whitespace) == "b" by {
      assert name[1..][1..] == "b";
    }
    assert CollapseRuns(name[1..], Whitespace, "_") == "_b" by {
      assert CollapseRuns("b", Whitespace, "_") == "b" by {
        assert "b"[1..] == [];
      }
    }
    assert CollapseRuns(name, Whitespace, "_") == "a_b";
  }

  /** The two planning branches of `preview_changes` for the stripped text
      fields: the case-conversion loop or `apply_regex`. */
  method PlanChanges(files: seq<FilePath>, preset: Preset, find: string, with: string) returns (changes: seq<Change>)
    ensures changes == PresetPlan(files, preset, find, with)
  {
    var rule := BuildRule(preset, find, with);
    if rule.CaseConversion? {
      changes := ConvertCase(files, rule.mode);
    } else {
      changes := ApplyRegex(files, rule.sub);
    }
  }

  class Renamer {
    /** `current_changes`. */
    var changes: seq<Change>
    /** `current_collisions`. */
    var collisions: map<FilePath, seq<string>>
    /** The state of `rename_button`: "normal" or "disabled". */
    var renameEnabled: bool
    /** `rename_log`, which is never cleared. */
    var log: seq<LogEntry>

    /** The button is enabled only for a non-empty plan without collisions,
        whose targets are then pairwise distinct. */
    predicate Valid()
      reads this
    {
      renameEnabled ==> changes != [] && collisions == map[] && TargetsDistinct(changes)
    }

    /** The state after `__init__`: nothing planned, the button disabled. */
    constructor ()
      ensures Valid()
      ensures changes == [] && collisions == map[] && !renameEnabled && log == []
    {
      changes := [];
      collisions := map[];
      renameEnabled := false;
      log := [];
    }

    /** `preview_changes` for the directory's sorted `files`, the selected
        preset and the two text fields as typed.  `dirValid` is the outcome
        of the directory check. */
    method Preview(dirValid: bool, files: seq<FilePath>, preset: Preset, text: string, replaceWith: string)
      requires Valid()
      modifies this
      ensures Valid() && log == old(log)
      ensures !dirValid ==>
        changes == old(changes) && collisions == old(collisions) && renameEnabled == old(renameEnabled)
      ensures dirValid && files == [] ==>
        changes == old(changes) && collisions == old(collisions) && !renameEnabled
      ensures dirValid && files != [] ==>
        changes == PresetPlan(files, preset, Strip(text), Strip(replaceWith))
      ensures dirValid && files != [] && preset.IsSpacePreset() && !HasLiteralSpace(files) ==>
        collisions == old(collisions) && !renameEnabled
      ensures dirValid && files != [] && !(preset.IsSpacePreset() && !HasLiteralSpace(files)) ==>
        (changes == [] ==> collisions == old(collisions) && !renameEnabled)
        && (changes != [] ==> collisions == CollisionsOf(changes) && (renameEnabled <==> collisions == map[]))
    {
      if !dirValid {
        return;
      }
      var find, with := Strip(text), Strip(replaceWith);
      if files == [] {
        renameEnabled := false;
        return;
      }
      changes := PlanChanges(files, preset, find, with);
      // the space presets build a substitution, so this is the regex branch
      if preset.IsSpacePreset() && !HasLiteralSpace(files) {
        renameEnabled := false;
        return;
      }
      ReviewPlan();
    }

    /** The end of `preview_changes` once `current_changes` holds the plan:
        an empty plan disables the button; otherwise the collisions are
        detected and the button is enabled exactly when there are none. */
    method ReviewPlan()
      modifies this
      ensures Valid()
      ensures changes == old(changes) && log == old(log)
      ensures changes == [] ==> collisions == old(collisions) && !renameEnabled
      ensures changes != [] ==> collisions == CollisionsOf(changes) && (renameEnabled <==> collisions == map[])
    {
      if changes == [] {
        renameEnabled := false;
        return;
      }
      collisions := DetectCollisions(changes);
      if collisions != map[] {
        renameEnabled := false;
        return;
      }
      CollisionsEmptyIff(changes);
      renameEnabled := true;
    }

    /** `rename_files`, where `confirmed` is the answer to the confirmation
        dialog and `renameOk` tells which calls of `os.rename` succeed.  It
        refuses without a plan or with collisions; otherwise, once
        confirmed, every planned rename is attempted in order, each success
        is logged, and the preview is reset. */
    method RenameFiles(confirmed: bool, renameOk: Change -> bool) returns (performed: bool, successCount: nat, failCount: nat)
      requires Valid()
      modifies this
      ensures Valid()
      ensures performed <==> old(changes) != [] && old(collisions) == map[] && confirmed
      ensures !performed ==>
        changes == old(changes) && collisions == old(collisions) && renameEnabled == old(renameEnabled)
        && log == old(log) && successCount == 0 && failCount == 0
      ensures performed ==>
        successCount + failCount == |old(changes)|
        && log == old(log) + SuccessLog(old(changes), renameOk)
        && successCount == |SuccessLog(old(changes), renameOk)|
        && changes == [] && collisions == map[] && !renameEnabled
      ensures old(renameEnabled) && confirmed ==> performed && TargetsDistinct(old(changes))
    {
      performed, successCount, failCount := false, 0, 0;
      if changes == [] {
        return;
      }
      if collisions != map[] {
        return;
      }
      if !confirmed {
        return;
      }
      performed := true;
      var i := 0;
      while i < |changes|
        invariant 0 <= i <= |changes|
        invariant changes == old(changes) && collisions == old(collisions)
        invariant successCount + failCount == i
        invariant log == old(log) + SuccessLog(changes[..i], renameOk)
        invariant successCount == |SuccessLog(changes[..i], renameOk)|
      {
        var c := changes[i];
        SuccessLogStep(changes, i, renameOk);
        if renameOk(c) {
          log := log + [LogEntry(c.oldName, c.newName)];
          successCount := successCount + 1;
        } else {
          failCount := failCount + 1;
        }
        i := i + 1;
      }
      assert changes[..|changes|] == changes;
      changes := [];
      collisions := map[];
      renameEnabled := false;
    }

    /** `invalidate_preview`, run whenever the directory, the preset or a
        text field changes: the button is disabled and the preview is
        forgotten. */
    method InvalidatePreview()
      modifies this
      ensures Valid()
      ensures changes == [] && collisions == map[] && !renameEnabled && log == old(log)
    {
      renameEnabled := false;
      changes := [];
      collisions := map[];
    }
  }
}
