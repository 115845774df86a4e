/** What the renamer knows about a single file name: whether Windows would
    accept it, how `os.path.splitext` divides it, and where the
    `(\.[\w]+)$` extension of the "Add Suffix Before Extension" preset
    starts. */
module Filename {
  import opened Text

  /** Membership in the class `[<>:"/\\|?*]` (`ILLEGAL_CHARS_WIN`). */
  predicate IsIllegal(c: char) {
    c == '<' || c == '>' || c == ':' || c == '"' || c == '/' || c == '\\' || c == '|' || c == '?' || c == '*'
  }

  /** `re.search(ILLEGAL_CHARS_WIN, name)`: the position of the first
      illegal character, if any. */
  function FindIllegal(name: string): (r: Option<nat>)
    ensures r.Some? ==> r.value < |name| && IsIllegal(name[r.value])
    ensures r.Some? ==> forall j :: 0 <= j < r.value ==> !IsIllegal(name[j])
    ensures r.None? ==> forall j :: 0 <= j < |name| ==> !IsIllegal(name[j])
  {
    if name == [] then None
    else if IsIllegal(name[0]) then Some(0)
    else match FindIllegal(name[1..])
      case None => None
      case Some(i) => Some(i + 1)
  }

  /** `is_valid_filename`: false exactly when the name holds one of
      `< > : " / \ | ? *`. */
  function IsValidFilename(name: string): (r: bool)
    ensures r <==> forall i :: 0 <= i < |name| ==> !IsIllegal(name[i])
  {
    FindIllegal(name).None?
  }

  /** The index of the last `.` in `p`, if any. */
  function LastDot(p: string): (r: Option<nat>)
    ensures r.Some? ==> r.value < |p| && p[r.value] == '.'
    ensures r.Some? ==> forall j :: r.value < j < |p| ==> p[j] != '.'
    ensures r.None? ==> forall j :: 0 <= j < |p| ==> p[j] != '.'
  {
    if p == [] then None
    else if p[|p| - 1] == '.' then Some(|p| - 1)
    else LastDot(p[..|p| - 1])
  }

  /** `os.path.splitext` on a base name: the extension runs from the last
      `.` to the end, unless only dots precede that `.` (then there is no
      extension, as for `.bashrc` or `..`). */
  function SplitExt(p: string): (r: (string, string))
    ensures r.0 + r.1 == p
    ensures r.1 != [] ==> r.1[0] == '.' && (forall j :: 0 < j < |r.1| ==> r.1[j] != '.')
    ensures r.1 != [] ==> exists j :: 0 <= j < |r.0| && r.0[j] != '.'
    ensures r.1 == [] ==> forall i, j :: 0 <= j < i < |p| && p[i] == '.' ==> p[j] == '.'
  {
    match LastDot(p)
    case None => (p, [])
    case Some(i) =>
      if exists j :: 0 <= j < i && p[j] != '.' then (p[..i], p[i..]) else (p, [])
  }

  // ---------------------------------------------------------------------------
  // The extension of `^(.*?)(\.[\w]+)$`
  // ---------------------------------------------------------------------------

  /** A match of `^(.*?)(\.[\w]+)$`: the stem before the extension, the
      extension itself, and the final newline that `$` may stand before. */
  datatype ExtMatch = ExtMatch(stem: string, ext: string, tail: string)

  /** Where `$` matches last: before a final newline, or at the end. */
  function LineEnd(name: string): (e: nat)
    ensures e <= |name| && |name| - e <= 1
    ensures e < |name| ==> name[e] == '\n'
  {
    if |name| > 0 && name[|name| - 1] == '\n' then |name| - 1 else |name|
  }

  /** The pattern matches with its extension group starting at `i`: a `.`,
      then one or more word characters up to `$`, and no newline before it
      (`.` does not match a newline). */
  predicate IsExtAt(name: string, i: nat) {
    var e := LineEnd(name);
    i + 1 < e && name[i] == '.'
    && (forall k :: i < k < e ==> IsWordChar(name[k]))
    && (forall k :: 0 <= k < i ==> name[k] != '\n')
  }

  /** `re.search(r"^(.*?)(\.[\w]+)$", name)` with its groups. */
  function SuffixSplit(name: string): (r: Option<ExtMatch>)
    ensures r.Some? ==> IsExtAt(name, |r.value.stem|)
    ensures r.Some? ==> r.value.stem + r.value.ext + r.value.tail == name
    ensures r.Some? ==> r.value.tail == name[LineEnd(name)..]
    ensures r.None? <==> forall i :: 0 <= i < |name| ==> !IsExtAt(name, i)
  {
    var e := LineEnd(name);
    match LastDot(name[..e])
    case None =>
      assert forall i :: 0 <= i < |name| ==> !IsExtAt(name, i) by {
        forall i | 0 <= i < |name| && IsExtAt(name, i) ensures false {
          ExtAtIsLastDot(name, i);
        }
      }
      None
    case Some(i) =>
      if IsExtAt(name, i) then
        assert name[..i] + name[i..e] + name[e..] == name;
        Some(ExtMatch(name[..i], name[i..e], name[e..]))
      else
        assert forall i' :: 0 <= i' < |name| ==> !IsExtAt(name, i') by {
          forall i' | 0 <= i' < |name| && IsExtAt(name, i') ensures false {
            ExtAtIsLastDot(name, i');
          }
        }
        None
  }

  /** An extension match can only start at the last `.` before `$`. */
  lemma ExtAtIsLastDot(name: string, i: nat)
    requires IsExtAt(name, i)
    ensures LastDot(name[..LineEnd(name)]) == Some(i)
  {
    var p := name[..LineEnd(name)];
    assert p[i] == '.';
    match LastDot(p)
    case None =>
    case Some(d) =>
  }

  /** Inserting text (without a newline) right before a matched extension
      leaves the same extension and final newline to be matched again: the
      renamed file keeps its extension. */
  lemma SuffixSplitAfterInsert(name: string, text: string)
    requires SuffixSplit(name).Some?
    requires forall k :: 0 <= k < |text| ==> text[k] != '\n'
    ensures var m := SuffixSplit(name).value;
      SuffixSplit(m.stem + text + m.ext + m.tail) == Some(ExtMatch(m.stem + text, m.ext, m.tail))
  {
    var m := SuffixSplit(name).value;
    var n := m.stem + text + m.ext + m.tail;
    var i := |m.stem| + |text|;
    ExtAtAfterInsert(m.stem, text, m.ext, m.tail);
    ExtAtIsLastDot(n, i);
    assert n[..i] == m.stem + text;
    assert n[i..LineEnd(n)] == m.ext;
    assert n[LineEnd(n)..] == m.tail;
  }

  lemma ExtAtAfterInsert(stem: string, text: string, ext: string, tail: string)
    requires IsExtAt(stem + ext + tail, |stem|)
    requires tail == (stem + ext + tail)[LineEnd(stem + ext + tail)..]
    requires forall k :: 0 <= k < |text| ==> text[k] != '\n'
    ensures LineEnd(stem + text + ext + tail) == |stem| + |text| + |ext|
    ensures IsExtAt(stem + text + ext + tail, |stem| + |text|)
  {
    var name := stem + ext + tail;
    var n := stem + text + ext + tail;
    var i := |stem| + |text|;
    assert LineEnd(name) == |stem| + |ext|;
    assert |tail| <= 1;
    if tail == [] {
      assert n[|n| - 1] == name[|name| - 1];
    } else {
      assert n[|n| - 1] == name[|name| - 1];
    }
    assert LineEnd(n) == i + |ext|;
    forall k | i <= k < i + |ext| ensures n[k] == name[k - |text|] {
    }
    forall k | 0 <= k < i ensures n[k] != '\n' {
      if k < |stem| {
        assert n[k] == name[k];
      } else {
        assert n[k] == text[k - |stem|];
      }
    }
  }
}
