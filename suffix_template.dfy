/** The replacement template of the "Add Suffix Before Extension" preset as
    the program writes it: `r"\1" + text + r"\2"`.  Python's template parser
    reads `\1` followed by the user's text as one escape when the text starts
    with a digit: `\1d` is a reference to group 1d (10..19), which the
    two-group pattern does not have, and `\1de` with two octal digits is the
    octal escape for one character, which swallows the stem.  The model of
    the planner uses the evident intent instead (the text inserted verbatim,
    `Substitution.Substitute` on `Suffix`); this module records the
    difference. */
module SuffixTemplate {
  import opened Text

  predicate IsOctDigit(c: char) {
    '0' <= c <= '7'
  }

  /** The outcome of expanding the template for one match. */
  datatype Expansion =
    | Expanded(name: string)
    | InvalidGroupReference(group: nat)  // `re.error`, raised out of the preview

  /** The character of the octal escape `\1ab`. */
  function OctalChar(a: char, b: char): (c: char)
    requires IsOctDigit(a) && IsOctDigit(b)
    ensures 64 <= c as int < 128
  {
    (64 + 8 * (a as int - '0' as int) + (b as int - '0' as int)) as char
  }

  /** The expansion of `"\\1" + text + "\\2"` for a match whose groups are
      `stem` and `ext`, for a text without backslashes, as Python's template
      parser reads it. */
  function ExpandAsWritten(stem: string, text: string, ext: string): (r: Expansion)
    ensures r.InvalidGroupReference? ==> 10 <= r.group <= 19
  {
    if |text| >= 2 && IsOctDigit(text[0]) && IsOctDigit(text[1]) then
      Expanded([OctalChar(text[0], text[1])] + text[2..] + ext)
    else if text != [] && IsDigit(text[0]) then
      InvalidGroupReference(10 + (text[0] as int - '0' as int))
    else
      Expanded(stem + text + ext)
  }

  /** The written template agrees with inserting the text verbatim exactly
      when the text does not start with a digit. */
  lemma AsWrittenAgreesIff(stem: string, text: string, ext: string)
    ensures ExpandAsWritten(stem, text, ext) == Expanded(stem + text + ext)
        <==> (text == [] || !IsDigit(text[0]))
  {
    if |text| >= 2 && IsOctDigit(text[0]) && IsOctDigit(text[1]) {
      var got := [OctalChar(text[0], text[1])] + text[2..] + ext;
      assert |got| < |stem + text + ext|;
    }
  }

  /** Two inputs that show it: suffix "2" on `report.txt` raises
      "invalid group reference 12", and suffix "07" renames it to `G.txt`
      (octal 107), while the evident intent is `report2.txt` and
      `report07.txt`. */
  lemma Counterexamples()
    ensures ExpandAsWritten("report", "2", ".txt") == InvalidGroupReference(12)
    ensures ExpandAsWritten("report", "07", ".txt") == Expanded("G.txt")
    ensures ExpandAsWritten("report", "_v2", ".txt") == Expanded("report_v2.txt")
  {
    assert OctalChar('0', '7') == 'G';
    assert "07"[2..] == [];
  }
}
