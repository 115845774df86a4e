/** The rule builder of `preview_changes`: the selected preset and the text
    the user typed become either a substitution or a case conversion; and
    the case conversions themselves, which touch only the `splitext` stem. */
module Rules {
  import opened Text
  import opened Filename
  import opened Substitution

  /** The thirteen presets offered by the radio buttons. */
  datatype Preset =
    | ReplaceSpacesWithUnderscores
    | ReplaceSpacesWithHyphens
    | RemoveNumbers
    | RemoveSpecialCharacters
    | ExtractNumbersOnly
    | AddPrefix
    | AddSuffixBeforeExtension
    | RemoveExtraSpaces
    | ConvertToLowercase
    | ConvertToUppercase
    | CamelCase
    | RemoveText
    | ReplaceText
  {
    predicate IsCaseConversion() {
      ConvertToLowercase? || ConvertToUppercase? || CamelCase?
    }

    /** The presets whose rule depends on what the user typed. */
    predicate UsesText() {
      RemoveText? || ReplaceText? || AddPrefix? || AddSuffixBeforeExtension?
    }

    /** The presets with the "no literal space in any name" early exit. */
    predicate IsSpacePreset() {
      ReplaceSpacesWithUnderscores? || ReplaceSpacesWithHyphens?
    }
  }

  datatype CaseMode = Upper | Lower | Camel

  datatype Rule =
    | Regex(sub: Subst)
    | CaseConversion(mode: CaseMode)

  /** The `BUILD PATTERN + REPLACEMENT` chain: `text` is the first entry
      field ("Text to Remove", "Text to Find", "Prefix to Add", "Suffix to
      Add") and `replaceWith` the second ("Replace with"), both already
      stripped of surrounding whitespace (`Text.Strip`) as each branch does
      before use.  The three presets without a branch of their own take
      their pattern from the preset table with an empty replacement. */
  function BuildRule(preset: Preset, text: string, replaceWith: string): (r: Rule)
    ensures r.CaseConversion? <==> preset.IsCaseConversion()
    ensures r.Regex? && r.sub.Literal? ==> r.sub.find == text
    ensures r.Regex? && r.sub.Literal? && preset.RemoveText? ==> r.sub.repl == []
  {
    match preset
    case RemoveText => Regex(Literal(text, []))
    case ReplaceText => Regex(Literal(text, replaceWith))
    case AddPrefix => Regex(Prefix(text))
    case AddSuffixBeforeExtension => Regex(Suffix(text))
    case ReplaceSpacesWithUnderscores => Regex(ReplaceRuns(Whitespace, "_"))
    case ReplaceSpacesWithHyphens => Regex(ReplaceRuns(Whitespace, "-"))
    case RemoveNumbers => Regex(ReplaceRuns(Digits, []))
    case ConvertToUppercase => CaseConversion(Upper)
    case ConvertToLowercase => CaseConversion(Lower)
    case CamelCase => CaseConversion(Camel)
    case RemoveSpecialCharacters => Regex(DeleteEach(Special))
    case ExtractNumbersOnly => Regex(DeleteEach(NonDigits))
    case RemoveExtraSpaces => Regex(ReplaceRuns(Whitespace, []))
  }

  /** The fixed presets ignore the text fields altogether. */
  lemma BuildRuleIgnoresText(preset: Preset, text: string, replaceWith: string)
    requires !preset.UsesText()
    ensures BuildRule(preset, text, replaceWith) == BuildRule(preset, [], [])
  {
    match preset
    case RemoveText =>
    case ReplaceText =>
    case AddPrefix =>
    case AddSuffixBeforeExtension =>
    case _ =>
  }

  /** "Camel Case": the stem's words, each `capitalize`d, joined by single
      spaces. */
  function CamelStem(stem: string): (r: string)
    ensures SingleSpaced(r)
    ensures Split(r) == MapCapitalize(Split(stem))
  {
    var words := MapCapitalize(Split(stem));
    forall k | 0 <= k < |words| ensures words[k] != [] && NoSpace(words[k]) {
      CapitalizeWord(Split(stem)[k]);
    }
    JoinSingleSpaced(words);
    SplitJoin(words);
    Join(words, " ")
  }

  /** The new stem computed by the case-conversion branch. */
  function TransformStem(mode: CaseMode, stem: string): (r: string)
    ensures mode != Camel ==> |r| == |stem|
    ensures mode == Upper ==> forall i :: 0 <= i < |r| ==> !IsLower(r[i])
    ensures mode == Lower ==> forall i :: 0 <= i < |r| ==> !IsUpper(r[i])
  {
    match mode
    case Upper => Text.Upper(stem)
    case Lower => Text.Lower(stem)
    case Camel => CamelStem(stem)
  }

  /** `new_stem + ext` with `name, ext = os.path.splitext(old_name)`: the
      extension is kept exactly and only the stem is converted. */
  function CaseRename(mode: CaseMode, name: string): (r: string)
    ensures var ext := SplitExt(name).1;
      |ext| <= |r| && r[|r| - |ext|..] == ext
      && r[..|r| - |ext|] == TransformStem(mode, SplitExt(name).0)
  {
    var (stem, ext) := SplitExt(name);
    TransformStem(mode, stem) + ext
  }

  /** Converting twice is converting once, for each mode. */
  lemma TransformStemIdempotent(mode: CaseMode, stem: string)
    ensures TransformStem(mode, TransformStem(mode, stem)) == TransformStem(mode, stem)
  {
    match mode
    case Upper => CaseIdempotent(stem);
    case Lower => CaseIdempotent(stem);
    case Camel =>
      var words := Split(stem);
      var caps := MapCapitalize(words);
      assert Split(CamelStem(stem)) == caps;
      forall k | 0 <= k < |words| ensures Capitalize(caps[k]) == caps[k] {
        CapitalizeWord(words[k]);
      }
      assert MapCapitalize(caps) == caps;
  }
}
