/** The plan generator of `preview_changes`: `apply_regex` for the
    substitution presets and the case-conversion loop for the others.  A
    plan is a list of `(full_path, old_name, new_name)` triples, in the
    order of the (sorted) file listing. */
module Planner {
  import opened Text
  import opened Filename
  import opened Substitution
  import opened Rules

  /** A regular file of the chosen directory, `os.path.join(dir, name)`;
      its base name is `name`. */
  datatype FilePath = FilePath(dir: string, name: string)

  /** One planned rename: `(full_path, old_name, new_name)`. */
  datatype Change = Change(path: FilePath, oldName: string, newName: string)

  /** The triple `apply_regex` appends for one file, if any: the pattern must
      match, and a result with an illegal character or equal to the old
      name is skipped. */
  function RegexChange(f: FilePath, sub: Subst): (o: Option<Change>)
    ensures !Matches(sub, f.name) ==> o.None?
    ensures o.Some? ==>
              o.value.path == f && o.value.oldName == f.name
              && o.value.newName != f.name && IsValidFilename(o.value.newName)
  {
    if !Matches(sub, f.name) then None
    else
      var n := Substitute(sub, f.name);
      if !IsValidFilename(n) || n == f.name then None
      else Some(Change(f, f.name, n))
  }

  /** The triple the case-conversion loop appends for one file, if any; the
      new name is not checked for illegal characters there. */
  function CaseChange(f: FilePath, mode: CaseMode): (o: Option<Change>)
    ensures o.Some? ==> o.value.path == f && o.value.oldName == f.name && o.value.newName != f.name
    ensures o.None? ==> CaseRename(mode, f.name) == f.name
  {
    var n := CaseRename(mode, f.name);
    if n != f.name then Some(Change(f, f.name, n)) else None
  }

  function AsSeq(o: Option<Change>): seq<Change> {
    if o.Some? then [o.value] else []
  }

  /** The list `apply_regex` returns. */
  function PlanRegex(files: seq<FilePath>, sub: Subst): (cs: seq<Change>)
    ensures |cs| <= |files|
  {
    if files == [] then []
    else PlanRegex(files[..|files| - 1], sub) + AsSeq(RegexChange(files[|files| - 1], sub))
  }

  /** The list the case-conversion loop builds in `current_changes`. */
  function PlanCase(files: seq<FilePath>, mode: CaseMode): (cs: seq<Change>)
    ensures |cs| <= |files|
  {
    if files == [] then []
    else PlanCase(files[..|files| - 1], mode) + AsSeq(CaseChange(files[|files| - 1], mode))
  }

  /** The plan for either kind of rule. */
  function Plan(files: seq<FilePath>, rule: Rule): seq<Change> {
    match rule
    case Regex(sub) => PlanRegex(files, sub)
    case CaseConversion(mode) => PlanCase(files, mode)
  }

  /** `apply_regex(files, pattern, replacement, flags)`. */
  method ApplyRegex(files: seq<FilePath>, sub: Subst) returns (changes: seq<Change>)
    ensures changes == PlanRegex(files, sub)
  {
    changes := [];
    var i := 0;
    while i < |files|
      invariant 0 <= i <= |files|
      invariant changes == PlanRegex(files[..i], sub)
    {
      var fullPath := files[i];
      var oldName := fullPath.name;
      if Matches(sub, oldName) {
        var newName := Substitute(sub, oldName);
        if IsValidFilename(newName) && newName != oldName {
          changes := changes + [Change(fullPath, oldName, newName)];
        }
      }
      PlanRegexStep(files, i, sub);
      i := i + 1;
    }
    assert files[..|files|] == files;
  }

  /** The `APPLY CASE CONVERSION` loop of `preview_changes`. */
  method ConvertCase(files: seq<FilePath>, mode: CaseMode) returns (changes: seq<Change>)
    ensures changes == PlanCase(files, mode)
  {
    changes := [];
    var i := 0;
    while i < |files|
      invariant 0 <= i <= |files|
      invariant changes == PlanCase(files[..i], mode)
    {
      var fullPath := files[i];
      var oldName := fullPath.name;
      // the stem of `os.path.splitext(old_name)` converted, the extension kept
      var newName := CaseRename(mode, oldName);
      PlanCaseStep(files, i, mode);
      if newName != oldName {
        assert CaseChange(fullPath, mode) == Some(Change(fullPath, oldName, newName));
        changes := changes + [Change(fullPath, oldName, newName)];
      } else {
        assert CaseChange(fullPath, mode) == None;
      }
      i := i + 1;
    }
    assert files[..|files|] == files;
  }

  lemma PlanRegexStep(files: seq<FilePath>, i: nat, sub: Subst)
    requires i < |files|
    ensures PlanRegex(files[..i + 1], sub) == PlanRegex(files[..i], sub) + AsSeq(RegexChange(files[i], sub))
  {
    assert files[..i + 1][..i] == files[..i];
  }

  lemma PlanCaseStep(files: seq<FilePath>, i: nat, mode: CaseMode)
    requires i < |files|
    ensures PlanCase(files[..i + 1], mode) == PlanCase(files[..i], mode) + AsSeq(CaseChange(files[i], mode))
  {
    assert files[..i + 1][..i] == files[..i];
  }

  // ---------------------------------------------------------------------------
  // Order and completeness
  // ---------------------------------------------------------------------------

  /** `a` is `b` with some elements left out, order kept. */
  predicate IsSubsequence<T(==)>(a: seq<T>, b: seq<T>)
    decreases |b|
  {
    a == [] ||
    (b != [] &&
     ((a[|a| - 1] == b[|b| - 1] && IsSubsequence(a[..|a| - 1], b[..|b| - 1]))
      || IsSubsequence(a, b[..|b| - 1])))
  }

  function Paths(cs: seq<Change>): (ps: seq<FilePath>)
    ensures |ps| == |cs|
  {
    if cs == [] then [] else Paths(cs[..|cs| - 1]) + [cs[|cs| - 1].path]
  }

  lemma PathsSnoc(cs: seq<Change>, o: Option<Change>)
    ensures Paths(cs + AsSeq(o)) == Paths(cs) + (if o.Some? then [o.value.path] else [])
  {
    if o.Some? {
      assert (cs + [o.value])[..|cs|] == cs;
    } else {
      assert cs + [] == cs;
    }
  }

  lemma SubsequenceSnoc<T>(a: seq<T>, b: seq<T>, x: T)
    requires IsSubsequence(a, b)
    ensures IsSubsequence(a + [x], b + [x])
    ensures IsSubsequence(a, b + [x])
  {
    assert (a + [x])[..|a|] == a;
    assert (b + [x])[..|b|] == b;
  }

  /** `apply_regex` keeps the input order: the paths of its triples are a
      subsequence of the file listing. */
  lemma {:induction false} PlanRegexInOrder(files: seq<FilePath>, sub: Subst)
    ensures IsSubsequence(Paths(PlanRegex(files, sub)), files)
  {
    if files != [] {
      var init, last := files[..|files| - 1], files[|files| - 1];
      assert files == init + [last];
      PlanRegexInOrder(init, sub);
      var o := RegexChange(last, sub);
      var cs := PlanRegex(init, sub);
      assert PlanRegex(files, sub) == cs + AsSeq(o);
      PathsSnoc(cs, o);
      SubsequenceSnoc(Paths(cs), init, last);
      if o.Some? {
        assert Paths(PlanRegex(files, sub)) == Paths(cs) + [last];
      } else {
        assert Paths(PlanRegex(files, sub)) == Paths(cs);
      }
    }
  }

  /** The case-conversion loop keeps the input order too. */
  lemma {:induction false} PlanCaseInOrder(files: seq<FilePath>, mode: CaseMode)
    ensures IsSubsequence(Paths(PlanCase(files, mode)), files)
  {
    if files != [] {
      var init, last := files[..|files| - 1], files[|files| - 1];
      assert files == init + [last];
      PlanCaseInOrder(init, mode);
      var o := CaseChange(last, mode);
      var cs := PlanCase(init, mode);
      assert PlanCase(files, mode) == cs + AsSeq(o);
      PathsSnoc(cs, o);
      SubsequenceSnoc(Paths(cs), init, last);
      if o.Some? {
        assert Paths(PlanCase(files, mode)) == Paths(cs) + [last];
      } else {
        assert Paths(PlanCase(files, mode)) == Paths(cs);
      }
    }
  }

  /** Every triple of `apply_regex` renames one of the listed files, whose
      name the pattern matches, to the substitution's result, which differs
      from the old name and holds no illegal character. */
  lemma {:induction false} PlanRegexSound(files: seq<FilePath>, sub: Subst, c: Change)
    requires c in PlanRegex(files, sub)
    ensures c.path in files && c.oldName == c.path.name
    ensures Matches(sub, c.oldName) && c.newName == Substitute(sub, c.oldName)
    ensures c.newName != c.oldName && IsValidFilename(c.newName)
  {
    var init, last := files[..|files| - 1], files[|files| - 1];
    if c in PlanRegex(init, sub) {
      PlanRegexSound(init, sub, c);
    } else {
      assert c == RegexChange(last, sub).value;
    }
  }

  /** Every triple of the case plan renames a listed file to its converted
      name, which differs from the old one. */
  lemma {:induction false} PlanCaseSound(files: seq<FilePath>, mode: CaseMode, c: Change)
    requires c in PlanCase(files, mode)
    ensures c.path in files && c.oldName == c.path.name
    ensures c.newName == CaseRename(mode, c.oldName) && c.newName != c.oldName
  {
    var init, last := files[..|files| - 1], files[|files| - 1];
    if c in PlanCase(init, mode) {
      PlanCaseSound(init, mode, c);
    } else {
      assert c == CaseChange(last, mode).value;
    }
  }

  /** Nothing is lost: every file whose name matches and whose result is a
      legal, different name is in the plan of `apply_regex`. */
  lemma {:induction false} PlanRegexComplete(files: seq<FilePath>, sub: Subst, f: FilePath)
    requires f in files && Matches(sub, f.name)
    requires IsValidFilename(Substitute(sub, f.name)) && Substitute(sub, f.name) != f.name
    ensures Change(f, f.name, Substitute(sub, f.name)) in PlanRegex(files, sub)
  {
    var init := files[..|files| - 1];
    if f == files[|files| - 1] {
    } else {
      assert f in init;
      PlanRegexComplete(init, sub, f);
    }
  }

  /** Every file whose converted name differs is in the case plan. */
  lemma {:induction false} PlanCaseComplete(files: seq<FilePath>, mode: CaseMode, f: FilePath)
    requires f in files && CaseRename(mode, f.name) != f.name
    ensures Change(f, f.name, CaseRename(mode, f.name)) in PlanCase(files, mode)
  {
    var init := files[..|files| - 1];
    if f == files[|files| - 1] {
    } else {
      assert f in init;
      PlanCaseComplete(init, mode, f);
    }
  }

  /** A substitution that leaves every name as it is plans nothing. */
  lemma {:induction false} PlanRegexEmpty(files: seq<FilePath>, sub: Subst)
    requires forall k :: 0 <= k < |files| ==> Substitute(sub, files[k].name) == files[k].name
    ensures PlanRegex(files, sub) == []
  {
    if files != [] {
      PlanRegexEmpty(files[..|files| - 1], sub);
    }
  }
}
