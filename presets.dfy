/** What the plan of `preview_changes` is for each preset: the preset's rule
    (`Rules.BuildRule`) fed through `apply_regex` or the case-conversion
    loop (`Planner.Plan`). */
module Presets {
  import opened Text
  import opened Filename
  import opened Substitution
  import opened Rules
  import opened Planner

  /** The plan for a preset and the two text fields. */
  function PresetPlan(files: seq<FilePath>, preset: Preset, text: string, replaceWith: string): seq<Change> {
    Plan(files, BuildRule(preset, text, replaceWith))
  }

  /** A preset whose rule is a substitution plans what `apply_regex` does
      with that substitution. */
  lemma PresetIsPlanRegex(files: seq<FilePath>, preset: Preset, text: string, replaceWith: string, sub: Subst)
    requires BuildRule(preset, text, replaceWith) == Regex(sub)
    ensures PresetPlan(files, preset, text, replaceWith) == PlanRegex(files, sub)
  {
  }

  // ---------------------------------------------------------------------------
  // "Remove Text" and "Replace Text"
  // ---------------------------------------------------------------------------

  lemma SelfLiteralPlansNothing(files: seq<FilePath>, t: string)
    ensures PlanRegex(files, Literal(t, t)) == []
  {
    var sub := Literal(t, t);
    forall k | 0 <= k < |files| ensures Substitute(sub, files[k].name) == files[k].name {
      SubstituteBySelf(t, files[k].name);
    }
    PlanRegexEmpty(files, sub);
  }

  /** "Remove Text" with nothing (or only whitespace) typed plans nothing:
      the empty pattern matches everywhere but removes nothing. */
  lemma RemoveNothingPlansNothing(files: seq<FilePath>, text: string, replaceWith: string)
    requires text == []
    ensures PresetPlan(files, RemoveText, text, replaceWith) == []
  {
    assert BuildRule(RemoveText, text, replaceWith) == Regex(Literal([], []));
    PresetIsPlanRegex(files, RemoveText, text, replaceWith, Literal([], []));
    SelfLiteralPlansNothing(files, []);
  }

  /** "Replace Text" whose find and replace texts agree once stripped plans
      nothing. */
  lemma ReplaceBySelfPlansNothing(files: seq<FilePath>, text: string, replaceWith: string)
    requires text == replaceWith
    ensures PresetPlan(files, ReplaceText, text, replaceWith) == []
  {
    var t := text;
    assert BuildRule(ReplaceText, text, replaceWith) == Regex(Literal(t, t));
    PresetIsPlanRegex(files, ReplaceText, text, replaceWith, Literal(t, t));
    SelfLiteralPlansNothing(files, t);
  }

  lemma EmptyFindPlan(files: seq<FilePath>, rep: string, f: FilePath)
    requires rep != [] && f in files && IsValidFilename(Interleave(f.name, rep))
    ensures Change(f, f.name, Interleave(f.name, rep)) in PlanRegex(files, Literal([], rep))
  {
    var sub := Literal([], rep);
    assert Matches(sub, f.name);
    assert Substitute(sub, f.name) == Interleave(f.name, rep);
    assert |Interleave(f.name, rep)| > |f.name|;
    PlanRegexComplete(files, sub, f);
  }

  /** "Replace Text" with an empty find text and a non-empty replacement
      inserts the replacement before every character and at the end of
      every name, and plans that for each file whose result is legal. */
  lemma EmptyFindInsertsEverywhere(files: seq<FilePath>, text: string, replaceWith: string, f: FilePath)
    requires text == [] && replaceWith != []
    requires f in files && IsValidFilename(Interleave(f.name, replaceWith))
    ensures Change(f, f.name, Interleave(f.name, replaceWith))
      in PresetPlan(files, ReplaceText, text, replaceWith)
  {
    var sub := Literal([], replaceWith);
    assert BuildRule(ReplaceText, text, replaceWith) == Regex(sub);
    PresetIsPlanRegex(files, ReplaceText, text, replaceWith, sub);
    EmptyFindPlan(files, replaceWith, f);
  }

  lemma RemovePlan(files: seq<FilePath>, t: string, c: Change)
    requires c in PlanRegex(files, Literal(t, []))
    ensures t != [] && Contains(c.oldName, t)
    ensures c.newName == ReplaceAll(c.oldName, t, []) && |c.newName| < |c.oldName|
  {
    var sub := Literal(t, []);
    PlanRegexSound(files, sub, c);
    if t == [] {
      InterleaveEmpty(c.oldName);
    }
    SubstituteOnMatch(sub, c.oldName);
  }

  /** "Remove Text" with a text: each planned name is the old one with every
      occurrence removed, so strictly shorter. */
  lemma RemoveTextPlan(files: seq<FilePath>, text: string, replaceWith: string, c: Change)
    requires c in PresetPlan(files, RemoveText, text, replaceWith)
    ensures text != [] && Contains(c.oldName, text)
    ensures c.newName == ReplaceAll(c.oldName, text, []) && |c.newName| < |c.oldName|
  {
    assert PresetPlan(files, RemoveText, text, replaceWith) == PlanRegex(files, Literal(text, []));
    RemovePlan(files, text, c);
  }

  // ---------------------------------------------------------------------------
  // "Add Prefix" and "Add Suffix Before Extension"
  // ---------------------------------------------------------------------------

  lemma PrefixPlan(files: seq<FilePath>, t: string, c: Change)
    requires c in PlanRegex(files, Prefix(t))
    ensures t != [] && c.newName == t + c.oldName
  {
    PlanRegexSound(files, Prefix(t), c);
    SubstituteOnMatch(Prefix(t), c.oldName);
  }

  /** "Add Prefix": each planned name is the typed text followed by the old
      name. */
  lemma AddPrefixPlan(files: seq<FilePath>, text: string, replaceWith: string, c: Change)
    requires c in PresetPlan(files, AddPrefix, text, replaceWith)
    ensures text != [] && c.newName == text + c.oldName
  {
    var sub := Prefix(text);
    assert BuildRule(AddPrefix, text, replaceWith) == Regex(sub);
    PresetIsPlanRegex(files, AddPrefix, text, replaceWith, sub);
    PrefixPlan(files, text, c);
  }

  lemma PrefixComplete(files: seq<FilePath>, t: string, f: FilePath)
    requires f in files && t != []
    requires forall k :: 0 <= k < LineEnd(f.name) ==> f.name[k] != '\n'
    requires IsValidFilename(t + f.name)
    ensures Change(f, f.name, t + f.name) in PlanRegex(files, Prefix(t))
  {
    assert |t + f.name| > |f.name|;
    PlanRegexComplete(files, Prefix(t), f);
  }

  /** "Add Prefix" plans every file whose name has no line break before its
      end and whose prefixed name is legal. */
  lemma AddPrefixComplete(files: seq<FilePath>, text: string, replaceWith: string, f: FilePath)
    requires f in files && text != []
    requires forall k :: 0 <= k < LineEnd(f.name) ==> f.name[k] != '\n'
    requires IsValidFilename(text + f.name)
    ensures Change(f, f.name, text + f.name) in PresetPlan(files, AddPrefix, text, replaceWith)
  {
    var sub := Prefix(text);
    assert BuildRule(AddPrefix, text, replaceWith) == Regex(sub);
    PresetIsPlanRegex(files, AddPrefix, text, replaceWith, sub);
    PrefixComplete(files, text, f);
  }

  lemma SuffixPlan(files: seq<FilePath>, t: string, c: Change)
    requires c in PlanRegex(files, Suffix(t))
    ensures SuffixSplit(c.oldName).Some?
    ensures var m := SuffixSplit(c.oldName).value;
      c.newName == m.stem + t + m.ext + m.tail
    ensures (forall k :: 0 <= k < |t| ==> t[k] != '\n') ==>
      var m := SuffixSplit(c.oldName).value;
      SuffixSplit(c.newName) == Some(ExtMatch(m.stem + t, m.ext, m.tail))
  {
    PlanRegexSound(files, Suffix(t), c);
    SubstituteOnMatch(Suffix(t), c.oldName);
    if forall k :: 0 <= k < |t| ==> t[k] != '\n' {
      SuffixSplitAfterInsert(c.oldName, t);
    }
  }

  /** "Add Suffix Before Extension": only names with an extension of word
      characters are planned; the text goes between stem and extension,
      and the renamed file has the same extension as before. */
  lemma AddSuffixPlan(files: seq<FilePath>, text: string, replaceWith: string, c: Change)
    requires c in PresetPlan(files, AddSuffixBeforeExtension, text, replaceWith)
    ensures SuffixSplit(c.oldName).Some?
    ensures var m := SuffixSplit(c.oldName).value;
      c.newName == m.stem + text + m.ext + m.tail
    ensures (forall k :: 0 <= k < |text| ==> text[k] != '\n') ==>
      var m := SuffixSplit(c.oldName).value;
      SuffixSplit(c.newName) == Some(ExtMatch(m.stem + text, m.ext, m.tail))
  {
    var sub := Suffix(text);
    assert BuildRule(AddSuffixBeforeExtension, text, replaceWith) == Regex(sub);
    PresetIsPlanRegex(files, AddSuffixBeforeExtension, text, replaceWith, sub);
    SuffixPlan(files, text, c);
  }

  // ---------------------------------------------------------------------------
  // The space presets
  // ---------------------------------------------------------------------------

  /** The fill the two space presets put in place of a whitespace run. */
  function SpaceFill(preset: Preset): string
    requires preset.IsSpacePreset()
  {
    if preset.ReplaceSpacesWithUnderscores? then "_" else "-"
  }

  lemma RunsPlan(files: seq<FilePath>, fill: string, c: Change)
    requires fill == "_" || fill == "-"
    requires c in PlanRegex(files, ReplaceRuns(Whitespace, fill))
    ensures HasClass(c.oldName, Whitespace) && !HasClass(c.newName, Whitespace)
    ensures c.newName == CollapseRuns(c.oldName, Whitespace, fill)
    ensures c.oldName == [] || (!IsSpace(c.oldName[0]) && !IsSpace(c.oldName[|c.oldName| - 1])) ==>
      c.newName == Join(Split(c.oldName), fill)
  {
    var sub := ReplaceRuns(Whitespace, fill);
    PlanRegexSound(files, sub, c);
    assert !IsSpace(fill[0]);
    SubstituteOnMatch(sub, c.oldName);
    if c.oldName == [] || (!IsSpace(c.oldName[0]) && !IsSpace(c.oldName[|c.oldName| - 1])) {
      CollapseIsJoinOfWords(c.oldName, fill);
    }
  }

  /** "Replace Spaces with Underscores / Hyphens": each planned name had
      whitespace and has none left; the name's words are joined by the fill,
      and a whitespace run at either end becomes one more fill. */
  lemma SpacePresetPlan(files: seq<FilePath>, preset: Preset, text: string, replaceWith: string, c: Change)
    requires preset.IsSpacePreset()
    requires c in PresetPlan(files, preset, text, replaceWith)
    ensures HasClass(c.oldName, Whitespace) && !HasClass(c.newName, Whitespace)
    ensures c.newName == CollapseRuns(c.oldName, Whitespace, SpaceFill(preset))
    ensures c.oldName == [] || (!IsSpace(c.oldName[0]) && !IsSpace(c.oldName[|c.oldName| - 1])) ==>
      c.newName == Join(Split(c.oldName), SpaceFill(preset))
    ensures c.newName ==
      (if IsSpace(c.oldName[0]) then SpaceFill(preset) else [])
      + Join(Split(Strip(c.oldName)), SpaceFill(preset))
      + (if Strip(c.oldName) != [] && IsSpace(c.oldName[|c.oldName| - 1]) then SpaceFill(preset) else [])
  {
    var sub := ReplaceRuns(Whitespace, SpaceFill(preset));
    assert BuildRule(preset, text, replaceWith) == Regex(sub);
    PresetIsPlanRegex(files, preset, text, replaceWith, sub);
    RunsPlan(files, SpaceFill(preset), c);
    CollapseWhitespace(c.oldName, SpaceFill(preset));
  }

  lemma RunsComplete(files: seq<FilePath>, fill: string, f: FilePath)
    requires fill == "_" || fill == "-"
    requires f in files && HasClass(f.name, Whitespace)
    requires IsValidFilename(CollapseRuns(f.name, Whitespace, fill))
    ensures Change(f, f.name, CollapseRuns(f.name, Whitespace, fill))
      in PlanRegex(files, ReplaceRuns(Whitespace, fill))
  {
    var sub := ReplaceRuns(Whitespace, fill);
    assert !IsSpace(fill[0]);
    SubstituteOnMatch(sub, f.name);
    PlanRegexComplete(files, sub, f);
  }

  /** The space presets plan every file whose name has whitespace, when the
      result is legal. */
  lemma SpacePresetComplete(files: seq<FilePath>, preset: Preset, text: string, replaceWith: string, f: FilePath)
    requires preset.IsSpacePreset()
    requires f in files && HasClass(f.name, Whitespace)
    requires IsValidFilename(CollapseRuns(f.name, Whitespace, SpaceFill(preset)))
    ensures Change(f, f.name, CollapseRuns(f.name, Whitespace, SpaceFill(preset)))
      in PresetPlan(files, preset, text, replaceWith)
  {
    var sub := ReplaceRuns(Whitespace, SpaceFill(preset));
    assert BuildRule(preset, text, replaceWith) == Regex(sub);
    PresetIsPlanRegex(files, preset, text, replaceWith, sub);
    RunsComplete(files, SpaceFill(preset), f);
  }

  // ---------------------------------------------------------------------------
  // The deleting presets
  // ---------------------------------------------------------------------------

  /** The class whose characters the four deleting presets remove. */
  function DeletedClass(preset: Preset): CharClass
    requires preset.RemoveNumbers? || preset.RemoveExtraSpaces?
      || preset.RemoveSpecialCharacters? || preset.ExtractNumbersOnly?
  {
    match preset
    case RemoveNumbers => Digits
    case RemoveExtraSpaces => Whitespace
    case RemoveSpecialCharacters => Special
    case ExtractNumbersOnly => NonDigits
  }

  lemma DeletePlan(files: seq<FilePath>, sub: Subst, cls: CharClass, c: Change)
    requires sub == ReplaceRuns(cls, []) || sub == DeleteEach(cls)
    requires c in PlanRegex(files, sub)
    ensures c.newName == DeleteClass(c.oldName, cls)
    ensures |c.newName| < |c.oldName| && !HasClass(c.newName, cls)
  {
    PlanRegexSound(files, sub, c);
    if sub.ReplaceRuns? {
      CollapseEmptyIsDelete(c.oldName, cls);
    }
    DeleteStrictlyShortens(c.oldName, cls);
  }

  /** "Remove Numbers", "Remove Extra Spaces", "Remove Special Characters"
      and "Extract Numbers Only": each planned name is the old one with
      every character of the class deleted, so strictly shorter. */
  lemma DeletingPresetPlan(files: seq<FilePath>, preset: Preset, text: string, replaceWith: string, c: Change)
    requires preset.RemoveNumbers? || preset.RemoveExtraSpaces?
      || preset.RemoveSpecialCharacters? || preset.ExtractNumbersOnly?
    requires c in PresetPlan(files, preset, text, replaceWith)
    ensures c.newName == DeleteClass(c.oldName, DeletedClass(preset))
    ensures |c.newName| < |c.oldName| && !HasClass(c.newName, DeletedClass(preset))
  {
    match preset
    case RemoveNumbers =>
      DeletingRule(files, preset, text, replaceWith, ReplaceRuns(Digits, []), Digits, c);
    case RemoveExtraSpaces =>
      DeletingRule(files, preset, text, replaceWith, ReplaceRuns(Whitespace, []), Whitespace, c);
    case RemoveSpecialCharacters =>
      DeletingRule(files, preset, text, replaceWith, DeleteEach(Special), Special, c);
    case ExtractNumbersOnly =>
      DeletingRule(files, preset, text, replaceWith, DeleteEach(NonDigits), NonDigits, c);
  }

  lemma DeletingRule(files: seq<FilePath>, preset: Preset, text: string, replaceWith: string,
                     sub: Subst, cls: CharClass, c: Change)
    requires BuildRule(preset, text, replaceWith) == Regex(sub)
    requires sub == ReplaceRuns(cls, []) || sub == DeleteEach(cls)
    requires c in PresetPlan(files, preset, text, replaceWith)
    ensures c.newName == DeleteClass(c.oldName, cls)
    ensures |c.newName| < |c.oldName| && !HasClass(c.newName, cls)
  {
    PresetIsPlanRegex(files, preset, text, replaceWith, sub);
    DeletePlan(files, sub, cls, c);
  }

  /** "Extract Numbers Only" plans a rename to the empty name for every
      non-empty name without a digit. */
  lemma ExtractNumbersEmptiesDigitless(files: seq<FilePath>, text: string, replaceWith: string, f: FilePath)
    requires f in files && f.name != [] && !HasClass(f.name, Digits)
    ensures Change(f, f.name, []) in PresetPlan(files, ExtractNumbersOnly, text, replaceWith)
  {
    var sub := DeleteEach(NonDigits);
    assert BuildRule(ExtractNumbersOnly, text, replaceWith) == Regex(sub);
    PresetIsPlanRegex(files, ExtractNumbersOnly, text, replaceWith, sub);
    assert InClass(NonDigits, f.name[0]);
    DigitlessDeletesAll(f.name);
    PlanRegexComplete(files, sub, f);
  }

  /** Deleting every non-digit of a name without digits leaves nothing. */
  lemma {:induction false} DigitlessDeletesAll(s: string)
    requires !HasClass(s, Digits)
    ensures DeleteClass(s, NonDigits) == []
  {
    if s != [] {
      assert !IsDigit(s[0]);
      assert forall i :: 0 <= i < |s[1..]| ==> s[1..][i] == s[i + 1];
      DigitlessDeletesAll(s[1..]);
    }
  }

  // ---------------------------------------------------------------------------
  // The case presets
  // ---------------------------------------------------------------------------

  /** The conversion each case preset selects. */
  function CaseModeOf(preset: Preset): CaseMode
    requires preset.IsCaseConversion()
  {
    match preset
    case ConvertToUppercase => Upper
    case ConvertToLowercase => Lower
    case CamelCase => Camel
  }

  lemma CasePlanKeepsExtension(files: seq<FilePath>, mode: CaseMode, c: Change)
    requires c in PlanCase(files, mode)
    ensures var ext := SplitExt(c.oldName).1;
      |ext| <= |c.newName| && c.newName[|c.newName| - |ext|..] == ext
      && c.newName[..|c.newName| - |ext|] == TransformStem(mode, SplitExt(c.oldName).0)
    ensures c.newName != c.oldName
  {
    PlanCaseSound(files, mode, c);
  }

  /** The three case presets keep each planned file's extension and convert
      only its stem. */
  lemma CasePresetPlan(files: seq<FilePath>, preset: Preset, text: string, replaceWith: string, c: Change)
    requires preset.IsCaseConversion()
    requires c in PresetPlan(files, preset, text, replaceWith)
    ensures var ext := SplitExt(c.oldName).1;
      |ext| <= |c.newName| && c.newName[|c.newName| - |ext|..] == ext
      && c.newName[..|c.newName| - |ext|] == TransformStem(CaseModeOf(preset), SplitExt(c.oldName).0)
    ensures c.newName != c.oldName
  {
    match preset
    case ConvertToUppercase => CaseRule(files, preset, text, replaceWith, Upper, c);
    case ConvertToLowercase => CaseRule(files, preset, text, replaceWith, Lower, c);
    case CamelCase => CaseRule(files, preset, text, replaceWith, Camel, c);
  }

  lemma CaseRule(files: seq<FilePath>, preset: Preset, text: string, replaceWith: string, mode: CaseMode, c: Change)
    requires BuildRule(preset, text, replaceWith) == CaseConversion(mode)
    requires c in PresetPlan(files, preset, text, replaceWith)
    ensures var ext := SplitExt(c.oldName).1;
      |ext| <= |c.newName| && c.newName[|c.newName| - |ext|..] == ext
      && c.newName[..|c.newName| - |ext|] == TransformStem(mode, SplitExt(c.oldName).0)
    ensures c.newName != c.oldName
  {
    assert PresetPlan(files, preset, text, replaceWith) == PlanCase(files, mode);
    CasePlanKeepsExtension(files, mode, c);
  }
}
