# Rename planner of the regex file renamer, in Dafny

`file_renamer.py` is a Tkinter tool (`RegexFileRenamerGUI`) that renames all
regular files of one directory according to a preset chosen by the user. This
project models its rename-planning engine:

- **the file-name validator** (`is_valid_filename`);
- **the rule builder**: the preset plus the two text fields become a
  (pattern, replacement) pair or a case-conversion mode;
- **the plan generator**: `apply_regex`, and the case-conversion loop of
  `preview_changes`;
- **the collision detector** (`detect_collisions`);
- **the preview/commit gate**: the fields `current_changes`,
  `current_collisions`, `rename_log` and the state of the "Rename Files"
  button, as `preview_changes`, `rename_files` and `invalidate_preview` update
  them.

Python's regular-expression engine is not modelled. Each preset uses one
fixed pattern, and the effect of that pattern on a file name is written as
a string function:

- `\s+` or `\d+` with a fill: every maximal run is replaced by the fill
  (`Substitution.CollapseRuns`);
- a one-character class with an empty replacement: every character of the
  class is deleted (`Substitution.DeleteClass`);
- `re.escape(find)`: every occurrence of the text is replaced, left to right
  (`Substitution.ReplaceAll`). The empty text matches at every position
  (`Substitution.Interleave`);
- `^(.*)$`: the prefix goes in front;
- `^(.*?)(\.[\w]+)$`: the text goes before the final `.word` extension
  (`Filename.SuffixSplit`).

Character classes are Python's, restricted to ASCII. `\s` covers the space,
`\t` to `\r`, and `\x1c` to `\x1f`.

Modules, in dependency order:

- `Text`: `strip`, `split`, `join`, `upper`, `lower`, `capitalize`.
- `Filename`: validity, `os.path.splitext`, the suffix extension.
- `Substitution`: the five pattern shapes.
- `SuffixTemplate`: the replacement template of "Add Suffix" as written.
- `Rules`: the presets, the rule builder and the case conversions.
- `Planner`: `apply_regex` and the case loop, as methods proved against the
  functions `PlanRegex` and `PlanCase`.
- `Presets`: what each preset plans.
- `Collisions`: `detect_collisions`, as a method proved against
  `CollisionsOf`.
- `Gate`: the class `Renamer`, holding the state the GUI keeps between
  "Preview" and "Rename".

A file is a `(dir, name)` pair. In the program every listed file comes from
the one chosen directory; the model does not require the `dir` fields to be
equal, and nothing in it depends on that, since collisions are keyed on
`dir` together with the new name. The listing is an input that is already
sorted. The outcome of each `os.rename`
is an oracle `renameOk`.

One might expect an empty find text to plan nothing, as it does for
"Remove Text". For "Replace Text" with a non-empty replacement the code does
otherwise, and the model follows the code: `re.escape("")` is the empty pattern, so the replacement is
inserted before every character and at the end of every name
(`Presets.EmptyFindInsertsEverywhere`). Only "Remove Text", or a replacement
that is also empty, plans nothing for an empty find text.

## Model

| member | source | states |
|---|---|---|
| Filename.IsValidFilename | file_renamer.py:448-450 | A name is valid exactly when none of its characters is one of the nine characters of `ILLEGAL_CHARS_WIN` (line 13): `<`, `>`, `:`, `"`, `/`, backslash, vertical bar, `?`, `*`. |
| Filename.SplitExt | file_renamer.py:587 | `os.path.splitext` on a base name. Stem plus extension is the name. A non-empty extension starts with the only `.` it contains, and some character before it is not a dot. With no extension, every `.` in the name follows only dots. |
| Filename.SuffixSplit | file_renamer.py:535-537 | `^(.*?)(\.[\w]+)$` matches exactly when some position starts a `.`+word-characters extension up to `$`. The groups then concatenate back to the name. The tail is the final newline, if any. |
| Filename.SuffixSplitAfterInsert | file_renamer.py:535-537 | Inserting text without a newline before a matched extension leaves the same extension and tail to be matched again. The renamed file keeps its extension. |
| Text.StripIdempotent | file_renamer.py:524 | Stripping the typed text a second time changes nothing. |
| Text.StripEnds | file_renamer.py:524 | What `strip` keeps neither starts nor ends with whitespace. |
| Text.SplitJoin | file_renamer.py:594 | `split()` undoes `" ".join` of non-empty words without whitespace. |
| Text.CaseIdempotent | file_renamer.py:590-592 | `upper` and `lower` are idempotent, and `lower` forgets an earlier `upper`. |
| Text.CapitalizeWord | file_renamer.py:594 | `capitalize` keeps a word a non-empty word without whitespace, and is idempotent. |
| Substitution.Matches | file_renamer.py:467-468 | `re.search` of the rule's pattern. For an escaped literal, a match is an occurrence of the text at some position, so the empty text matches every name. |
| Substitution.CollapseRuns | file_renamer.py:539-549 | `re.sub` of a `\s+` or `\d+` run pattern. With a fill of at most one character the name never gets longer. |
| Substitution.Substitute | file_renamer.py:468-469 | `re.sub` for each pattern shape. A name the pattern does not match comes back unchanged. |
| Substitution.SubstituteOnMatch | file_renamer.py:468-469 | On a matching name: a whitespace or digit run pattern with a fill outside the class changes the name and leaves no class character. Deleting a class or a found text makes the name strictly shorter. The empty find text inserts the replacement everywhere. The prefix goes in front. The suffix goes between stem and extension. |
| Substitution.CollapseRunsLaws | file_renamer.py:539-545 | With a fill outside the class, no class character is left. A name without class characters is unchanged. |
| Substitution.CollapseIsJoinOfWords | file_renamer.py:539-545 | For a name with no whitespace at either end, the space presets give `fill.join(name.split())`. |
| Substitution.CollapseRunsConcat | file_renamer.py:539-549 | `re.sub(C + "+", fill, ·)` distributes over a concatenation whose seam is not inside a run. |
| Substitution.CollapseRunsAllClass | file_renamer.py:539-549 | A non-empty name made only of class characters becomes a single fill. |
| Substitution.CollapseWhitespace | file_renamer.py:539-545 | On every name, the space presets give one fill for a leading whitespace run, then `fill.join(name.split())`, then one fill for a trailing run. A name made only of whitespace becomes one fill. |
| Text.StripPieces | file_renamer.py:524 | A string is its leading whitespace, then what `strip()` keeps, then its trailing whitespace. When something survives, each run is non-empty exactly when the string starts or ends with whitespace. |
| Substitution.CollapseEmptyIsDelete | file_renamer.py:547-549 | `\d+` (or `\s+`) replaced by "" deletes every digit (or whitespace character), as deleting the single-character class does. |
| Substitution.DeleteClass | file_renamer.py:563-565 | Deleting a class leaves no character of it and never lengthens the name. The name is unchanged exactly when it has none. |
| Substitution.DeleteClassConcat | file_renamer.py:563-565 | Deletion works character by character: it distributes over concatenation, and one character is dropped exactly when it is in the class. So the characters outside the class are kept, in order ("Keep only numbers", line 68). |
| Substitution.DeleteStrictlyShortens | file_renamer.py:563-565 | A name holding a class character gets strictly shorter. |
| Substitution.ReplaceAll | file_renamer.py:527-529 | Replacing a text that does not occur changes nothing. Replacing by "" never lengthens the name. |
| Substitution.ContainsIff | file_renamer.py:524-528 | The search for the escaped text succeeds exactly when the text occurs at some position of the name. |
| Substitution.ReplaceAllLeftmost | file_renamer.py:527-529 | The leftmost occurrence becomes the replacement, what precedes it is kept, and replacing goes on after it without overlap. With the law for a name without the text, this fixes the result on every name. |
| Substitution.RemoveShortens | file_renamer.py:523-525 | Removing a text that occurs makes the name strictly shorter. |
| Substitution.SubstituteBySelf | file_renamer.py:527-529 | Replacing a text by itself is the identity, the empty text included. |
| Substitution.Interleave | file_renamer.py:527-529 | `re.sub` of the empty pattern. A non-empty replacement makes every name longer. |
| Substitution.InterleaveLength | file_renamer.py:527-529 | The result has the length of the name plus one copy of the replacement per character and one more. |
| Substitution.InterleavePlacement | file_renamer.py:527-529 | Each character of the name is preceded by a copy of the replacement, at the position that the copies before it fix. |
| Substitution.InterleaveEnd | file_renamer.py:527-529 | The result ends with a copy of the replacement. |
| Substitution.InterleaveEmpty | file_renamer.py:523-525 | Inserting the empty replacement everywhere leaves the name unchanged. |
| Rules.BuildRule | file_renamer.py:523-565 | The rule is a case conversion exactly for the three case presets. The ten others build a substitution. A literal pattern is the typed text itself, and "Remove Text" replaces it by "". |
| Rules.BuildRuleIgnoresText | file_renamer.py:539-565 | The presets without a text field build the same rule whatever is typed. |
| Rules.CamelStem | file_renamer.py:594 | "Camel Case" gives single-spaced words. Splitting the result gives exactly the stem's words, each capitalised. |
| Rules.TransformStem | file_renamer.py:589-594 | Upper and lower keep the length. Upper leaves no lower-case letter, and lower leaves no upper-case letter. |
| Rules.CaseRename | file_renamer.py:587-596 | The new name ends with the `splitext` extension exactly, and what precedes it is the converted stem. |
| Rules.TransformStemIdempotent | file_renamer.py:589-594 | Converting twice is converting once, for each mode. |
| Planner.RegexChange | file_renamer.py:464-480 | One step of `apply_regex`: a name the pattern does not match is skipped. A planned triple is the file, its base name and a different, valid new name. |
| Planner.CaseChange | file_renamer.py:585-599 | One step of the case loop: a triple is planned for the file and its base name when the converted name differs, and only then. |
| Planner.PlanRegex | file_renamer.py:462-482 | The list `apply_regex` returns has at most one triple per file. |
| Planner.PlanCase | file_renamer.py:583-599 | The case plan has at most one triple per file. |
| Planner.ApplyRegex | file_renamer.py:460-482 | The loop returns exactly `PlanRegex(files, sub)`. |
| Planner.ConvertCase | file_renamer.py:582-599 | The loop builds exactly `PlanCase(files, mode)`. |
| Planner.PlanRegexInOrder | file_renamer.py:464-480 | The paths of the triples are an order-preserving subsequence of the listing. |
| Planner.PlanRegexSound | file_renamer.py:464-480 | Every triple comes from a listed file, and its old name is that file's base name. The pattern matches that name. The new name is the substitution's result, differs from the old name and is a valid file name. |
| Planner.PlanRegexComplete | file_renamer.py:468-480 | Every listed file whose name matches, with a valid and different result, is in the plan. |
| Planner.PlanRegexEmpty | file_renamer.py:478-479 | A substitution that changes no name plans nothing. |
| Planner.PlanCaseInOrder | file_renamer.py:585-599 | The case plan keeps the listing's order. |
| Planner.PlanCaseSound | file_renamer.py:585-599 | Every triple of the case plan renames a listed file to its converted name, which differs from the old name. |
| Planner.PlanCaseComplete | file_renamer.py:596-599 | Every file whose converted name differs is in the case plan. |
| Presets.RemoveNothingPlansNothing | file_renamer.py:523-525 | "Remove Text" with an empty (stripped) text plans nothing. |
| Presets.ReplaceBySelfPlansNothing | file_renamer.py:527-529 | "Replace Text" with equal find and replace texts plans nothing. |
| Presets.EmptyFindInsertsEverywhere | file_renamer.py:527-529 | "Replace Text" with an empty find text plans, for every file with a valid result, the name with the replacement inserted everywhere. |
| Presets.RemoveTextPlan | file_renamer.py:523-525 | Each planned name contains the text and becomes the name with every occurrence removed, so strictly shorter. |
| Presets.AddPrefixPlan | file_renamer.py:531-533 | Each planned name becomes the text followed by the old name. |
| Presets.AddPrefixComplete | file_renamer.py:531-533 | Every file with no line break before its end and a valid prefixed name is planned. |
| Presets.AddSuffixPlan | file_renamer.py:535-537 | Only names with a `.word` extension are planned. The text goes between stem and extension, and the new name has the same extension. |
| Presets.SpacePresetPlan | file_renamer.py:539-545 | Each planned name had whitespace and has none left, with every run replaced by one `_` or `-`. The new name is the old name's words joined by the fill, with one more fill in front when the old name starts with whitespace and one more at the end when it ends with whitespace. |
| Presets.SpacePresetComplete | file_renamer.py:539-545 | Every name with whitespace and a valid result is planned. |
| Presets.DeletingPresetPlan | file_renamer.py:547-565 | "Remove Numbers", "Remove Extra Spaces", "Remove Special Characters" and "Extract Numbers Only" delete every character of their class, so each planned name gets strictly shorter. |
| Presets.ExtractNumbersEmptiesDigitless | file_renamer.py:563-565 | "Extract Numbers Only" plans a rename to the empty name for every non-empty name without a digit. |
| Presets.CasePresetPlan | file_renamer.py:554-561 | The three case presets keep each planned file's extension, convert only its stem, and plan only real changes. |
| Collisions.NamesFor | file_renamer.py:489-495 | The list `new_names[key]`: at most one old name per planned change. |
| Collisions.CollisionsOf | file_renamer.py:497-501 | Every reported key is a planned target with two or more old names. |
| Collisions.GroupByTarget | file_renamer.py:488-494 | The first loop builds exactly the groups of old names by target path. |
| Collisions.DetectCollisions | file_renamer.py:484-501 | The method returns exactly `CollisionsOf(changes)`. |
| Collisions.NamesForTwice | file_renamer.py:496-498 | A group lists two or more names exactly when two different planned changes target its path. |
| Collisions.CollisionsOfIff | file_renamer.py:484-501 | A path is reported exactly when two planned renames produce it. It is reported with the old names of all renames producing it, in plan order. |
| Collisions.CollisionsEmptyIff | file_renamer.py:496-501 | No collision is reported exactly when the planned targets are pairwise distinct. |
| Gate.SuccessLog | file_renamer.py:683-698 | The entries appended for a plan: at most one per planned change. |
| Gate.SuccessLogCount | file_renamer.py:683-701 | The log gains exactly one entry per planned change when every rename succeeds, and only then. |
| Gate.SuccessLogEntries | file_renamer.py:687-698 | The new log entries are exactly the (old, new) names of the renames that succeed. |
| Gate.HasLiteralSpace | file_renamer.py:616 | The early-exit test of the space presets. A name with a literal space holds whitespace. |
| Gate.TabIsNotALiteralSpace | file_renamer.py:614-620 | The test is for `" "` only: a listing whose one name has a tab and no space takes the early exit, although the space preset plans a rename for it. |
| Gate.PlanChanges | file_renamer.py:580-612 | The two planning branches compute the plan of the preset for the stripped text fields. |
| Gate.Renamer.constructor | file_renamer.py:40-42 | Initially there are no changes, no collisions and no log, and the button is disabled, as it is created at lines 329-334. |
| Gate.Renamer.Preview | file_renamer.py:503-661 | The button stays enabled only for a non-empty plan without collisions. An invalid directory changes nothing. An empty listing disables the button. Otherwise `current_changes` is the preset's plan. The no-literal-space exit of the space presets disables the button and keeps the old collisions. An empty plan does the same. Otherwise the collisions are detected, and the button is enabled exactly when there are none. The log is untouched. |
| Gate.Renamer.ReviewPlan | file_renamer.py:625-661 | The end of `preview_changes`: an empty plan disables the button. Otherwise `current_collisions` is `CollisionsOf(changes)`, and the button is enabled exactly when it is empty. |
| Gate.Renamer.RenameFiles | file_renamer.py:665-724 | A run happens exactly with changes, no collisions and confirmation. Otherwise nothing changes. After a run, success plus fail equals the number of planned changes. The log grows by one entry per success, in order, and changes, collisions and the button are reset. An enabled button guarantees pairwise distinct targets. |
| Gate.Renamer.InvalidatePreview | file_renamer.py:737-747 | The button is disabled, changes and collisions are cleared, and the log is kept. |
| SuffixTemplate.ExpandAsWritten | file_renamer.py:537 | The template `\1` + text + `\2` as Python parses it. It fails only with a group reference 10 to 19. |
| SuffixTemplate.AsWrittenAgreesIff | file_renamer.py:535-537 | The template as written agrees with inserting the text verbatim exactly when the text does not start with a digit. |
| SuffixTemplate.Counterexamples | file_renamer.py:535-537 | Suffix "2" on `report.txt` raises "invalid group reference 12". Suffix "07" renames it to `G.txt`. Suffix "_v2" works as intended. |

## Left out

- All Tkinter presentation: layout, styles, `log_output`, `clear_output`, message boxes, the examples window and `on_pattern_selected`. The confirmation dialog is the `confirmed` parameter of `RenameFiles`.
- Filesystem access. `os.listdir`, `os.path.isfile` and `sorted` in `collect_files` become the `files` input, already sorted. `os.path.isdir` on the chosen directory becomes `dirValid`. Each `os.rename` becomes the oracle `renameOk`, so no effect on a real directory is modelled.
- The `recursive` parameter of `collect_files`, which is never used.
- `save_rollback_log`: the JSON file, its name and the `datetime` timestamps. Log entries keep only the old and the new name.
- Python's general regular-expression engine, and the `re.compile` error branch of `preview_changes`. Only the fixed patterns the presets build are modelled.
- Substitution.Substitute: the "Add Suffix Before Extension" case inserts the text verbatim, the evident intent. The template as written (`SuffixTemplate.ExpandAsWritten`, under Findings) raises an error or drops the stem for a text starting with a digit.
- Gate.Renamer.Preview: `current_changes` is the plan with the verbatim suffix insertion. For an "Add Suffix Before Extension" text starting with a digit the program instead raises out of `preview_changes` (state unchanged) or plans the octal-escape name; see Findings.
- Re-entrancy. `log_output` calls `self.root.update()` (line 413) inside `apply_regex`, `preview_changes` and the rename loop, so another button or an edit can run its handler in the middle of one of them. The model treats `Preview`, `RenameFiles` and `InvalidatePreview` as atomic.
- The replacement template of the user's text. The text is taken literally, as if it held no backslash. The one case where the template parse changes the result for ordinary text (a suffix starting with a digit) is recorded under Findings.
- Unicode: case mapping, `\s`, `\d` and `\w` are restricted to ASCII.
- Dictionary iteration order in `detect_collisions`. The result is compared as a map, so the order in which collisions are reported is not modelled.
- Gate.Renamer.Preview: the "Replace Spaces" early exit is keyed on the preset alone. In the code it sits inside the regex branch. The two agree because both space presets build a substitution.
- Planner.ConvertCase: the new name is computed by `Rules.CaseRename`, which is `splitext` followed by the stem conversion. It is not spelled out as separate statements in the loop.
- Collisions with files that already exist but are not renamed, and renames that chain through each other's names. The code does not check these, and neither does the model.

## Findings

| source | as written | input that shows it | evidently intended | confidence | as-written member | corrected member |
|---|---|---|---|---|---|---|
| file_renamer.py:537 | The replacement is `r"\1" + text + r"\2"`. A text starting with a digit is read as part of the group reference: `\12` is group 12, and `\107` is the octal escape for `G`, which drops the stem. | Suffix "2" on `report.txt` raises "invalid group reference 12". Suffix "07" renames `report.txt` to `G.txt`. | Insert the text verbatim before the extension: `report2.txt` and `report07.txt`. | not executed | SuffixTemplate.Counterexamples | Presets.AddSuffixPlan |
