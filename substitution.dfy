/** The fixed string functions that the renamer's `re.search` / `re.sub`
    pairs compute.  Each rule the renamer builds is one of five shapes of
    pattern; Python's general regular-expression engine is not modelled,
    only what these five patterns do to a file name. */
module Substitution {
  import opened Text
  import opened Filename

  /** The character classes the fixed presets' patterns are built from. */
  datatype CharClass =
    | Whitespace  // `\s`
    | Digits      // `\d`
    | Special     // `[^a-zA-Z0-9._\-\s]`
    | NonDigits   // `[^\d]`

  predicate InClass(cls: CharClass, c: char) {
    match cls
    case Whitespace => IsSpace(c)
    case Digits => IsDigit(c)
    case Special => !(IsLetter(c) || IsDigit(c) || c == '.' || c == '_' || c == '-' || IsSpace(c))
    case NonDigits => !IsDigit(c)
  }

  predicate HasClass(s: string, cls: CharClass) {
    exists i :: 0 <= i < |s| && InClass(cls, s[i])
  }

  /** A (pattern, replacement) pair, by the shape of its pattern. */
  datatype Subst =
    | ReplaceRuns(cls: CharClass, fill: string)  // pattern `C+`, replacement `fill`
    | DeleteEach(cls: CharClass)                 // pattern `C`, replacement ""
    | Literal(find: string, repl: string)        // pattern `re.escape(find)`, replacement `repl`
    | Prefix(text: string)                       // pattern `^(.*)$`, replacement text + `\1`
    | Suffix(text: string)                       // pattern `^(.*?)(\.[\w]+)$`, replacement `\1` + text + `\2`

  /** `re.search(pattern, name)` succeeds.  For an escaped literal this is
      a search for the text at some position, which always succeeds for
      the empty text. */
  predicate Matches(sub: Subst, name: string)
    ensures sub.Literal? ==> (Matches(sub, name) <==> exists i :: OccursAt(name, sub.find, i))
  {
    match sub
    case ReplaceRuns(cls, _) => HasClass(name, cls)
    case DeleteEach(cls) => HasClass(name, cls)
    case Literal(f, _) =>
      ContainsIff(name, f);
      assert f == [] ==> OccursAt(name, f, 0);
      f == [] || Contains(name, f)
    case Prefix(_) => forall k :: 0 <= k < LineEnd(name) ==> name[k] != '\n'
    case Suffix(_) => SuffixSplit(name).Some?
  }

  /** `re.sub(pattern, replacement, name)`; a name without a match comes
      back unchanged. */
  function Substitute(sub: Subst, name: string): (r: string)
    ensures !Matches(sub, name) ==> r == name
  {
    match sub
    case ReplaceRuns(cls, fill) =>
      CollapseRunsLaws(name, cls, fill);
      CollapseRuns(name, cls, fill)
    case DeleteEach(cls) => DeleteClass(name, cls)
    case Literal(f, rep) =>
      if f == [] then Interleave(name, rep) else ReplaceAll(name, f, rep)
    case Prefix(t) => if Matches(sub, name) then t + name else name
    case Suffix(t) =>
      match SuffixSplit(name)
      case None => name
      case Some(m) => m.stem + t + m.ext + m.tail
  }

  // ---------------------------------------------------------------------------
  // `C+` and `C`
  // ---------------------------------------------------------------------------

  /** Drops the run of class characters at the front of `s`. */
  function SkipRun(s: string, cls: CharClass): (r: string)
    ensures |r| <= |s| && r == s[|s| - |r|..]
    ensures r == [] || !InClass(cls, r[0])
    ensures forall i :: 0 <= i < |s| - |r| ==> InClass(cls, s[i])
  {
    if s != [] && InClass(cls, s[0]) then SkipRun(s[1..], cls) else s
  }

  /** `re.sub(C + "+", fill, s)`: every maximal run of class characters
      becomes one copy of `fill`. */
  function CollapseRuns(s: string, cls: CharClass, fill: string): (r: string)
    ensures |fill| <= 1 ==> |r| <= |s|
    decreases |s|
  {
    if s == [] then []
    else if InClass(cls, s[0]) then fill + CollapseRuns(SkipRun(s, cls), cls, fill)
    else [s[0]] + CollapseRuns(s[1..], cls, fill)
  }

  /** A fill without class characters leaves none in the result, and a name
      without class characters comes back unchanged. */
  lemma {:induction false} CollapseRunsLaws(s: string, cls: CharClass, fill: string)
    ensures !HasClass(fill, cls) ==> !HasClass(CollapseRuns(s, cls, fill), cls)
    ensures !HasClass(s, cls) ==> CollapseRuns(s, cls, fill) == s
    decreases |s|
  {
    if s == [] {
    } else if InClass(cls, s[0]) {
      var t := SkipRun(s, cls);
      CollapseRunsLaws(t, cls, fill);
      if !HasClass(fill, cls) {
        NoClassConcat(fill, CollapseRuns(t, cls, fill), cls);
      }
    } else {
      CollapseRunsLaws(s[1..], cls, fill);
      NoClassConcat([s[0]], CollapseRuns(s[1..], cls, fill), cls);
      if !HasClass(s, cls) {
        assert !HasClass(s[1..], cls) by {
          forall i | 0 <= i < |s[1..]| ensures !InClass(cls, s[1..][i]) {
            assert s[1..][i] == s[i + 1];
          }
        }
        assert [s[0]] + s[1..] == s;
      }
    }
  }

  lemma NoClassConcat(a: string, b: string, cls: CharClass)
    ensures !HasClass(a, cls) && !HasClass(b, cls) ==> !HasClass(a + b, cls)
  {
    if !HasClass(a, cls) && !HasClass(b, cls) {
      forall i | 0 <= i < |a + b| ensures !InClass(cls, (a + b)[i]) {
        if i < |a| {
          assert (a + b)[i] == a[i];
        } else {
          assert (a + b)[i] == b[i - |a|];
        }
      }
    }
  }

  /** `re.sub(C, "", s)`: every class character is deleted. */
  function DeleteClass(s: string, cls: CharClass): (r: string)
    ensures |r| <= |s|
    ensures !HasClass(r, cls)
    ensures r == s <==> !HasClass(s, cls)
  {
    if s == [] then []
    else if InClass(cls, s[0]) then DeleteClass(s[1..], cls)
    else
      var rest := DeleteClass(s[1..], cls);
      assert HasClass(s, cls) ==> HasClass(s[1..], cls) by {
        if HasClass(s, cls) {
          var i :| 0 <= i < |s| && InClass(cls, s[i]);
          assert s[1..][i - 1] == s[i];
        }
      }
      assert !HasClass(s[1..], cls) ==> !HasClass(s, cls) by {
        if !HasClass(s[1..], cls) {
          assert forall i :: 1 <= i < |s| ==> s[i] == s[1..][i - 1];
        }
      }
      [s[0]] + rest
  }

  /** What is deleted and what is kept: the deletion works character by
      character, so it distributes over concatenation, and a single
      character (`a` of length one) is dropped exactly when it is in the
      class.  Together these
      determine `DeleteClass` on every name: the characters outside the
      class are kept, in their order. */
  lemma {:induction false} DeleteClassConcat(a: string, b: string, cls: CharClass)
    ensures DeleteClass(a + b, cls) == DeleteClass(a, cls) + DeleteClass(b, cls)
    ensures |a| == 1 ==> DeleteClass(a, cls) == (if InClass(cls, a[0]) then [] else a)
    decreases |a|
  {
    if a == [] {
      assert a + b == b;
    } else {
      var t := a[1..];
      assert (a + b)[0] == a[0] && (a + b)[1..] == t + b;
      DeleteClassConcat(t, b, cls);
      DeleteClassHead(a + b, cls);
      DeleteClassHead(a, cls);
      AppendAssoc([a[0]], DeleteClass(t, cls), DeleteClass(b, cls));
      if |a| == 1 {
        assert t == [] && [a[0]] == a;
      }
    }
  }

  lemma DeleteClassHead(s: string, cls: CharClass)
    requires s != []
    ensures DeleteClass(s, cls) == (if InClass(cls, s[0]) then [] else [s[0]]) + DeleteClass(s[1..], cls)
  {
  }

  /** Deleting the class characters of a dropped run changes nothing. */
  lemma {:induction false} DeleteClassSkipRun(s: string, cls: CharClass)
    ensures DeleteClass(SkipRun(s, cls), cls) == DeleteClass(s, cls)
    decreases |s|
  {
    if s != [] && InClass(cls, s[0]) {
      DeleteClassSkipRun(s[1..], cls);
    }
  }

  /** With an empty replacement, `C+` deletes exactly what `C` deletes:
      "Remove Numbers" and "Remove Extra Spaces" delete every digit or
      every whitespace character, not only repeated ones. */
  lemma {:induction false} CollapseEmptyIsDelete(s: string, cls: CharClass)
    ensures CollapseRuns(s, cls, []) == DeleteClass(s, cls)
    decreases |s|
  {
    if s == [] {
    } else if InClass(cls, s[0]) {
      CollapseEmptyIsDelete(SkipRun(s, cls), cls);
      DeleteClassSkipRun(s, cls);
      assert DeleteClass(s, cls) == DeleteClass(SkipRun(s[1..], cls), cls);
    } else {
      CollapseEmptyIsDelete(s[1..], cls);
    }
  }

  lemma {:induction false} SkipWhitespaceIsTrimStart(s: string)
    ensures SkipRun(s, Whitespace) == TrimStart(s)
    decreases |s|
  {
    if s != [] && IsSpace(s[0]) {
      SkipWhitespaceIsTrimStart(s[1..]);
    }
  }

  lemma {:induction false} CollapseWordPrefix(w: string, rest: string, fill: string)
    requires NoSpace(w)
    ensures CollapseRuns(w + rest, Whitespace, fill) == w + CollapseRuns(rest, Whitespace, fill)
    decreases |w|
  {
    if w != [] {
      var s := w + rest;
      assert s[0] == w[0] && !IsSpace(w[0]);
      assert s[1..] == w[1..] + rest;
      assert NoSpace(w[1..]) by {
        assert forall i :: 0 <= i < |w[1..]| ==> w[1..][i] == w[i + 1];
      }
      assert !InClass(Whitespace, s[0]);
      assert CollapseRuns(s, Whitespace, fill) == [s[0]] + CollapseRuns(s[1..], Whitespace, fill);
      CollapseWordPrefix(w[1..], rest, fill);
      calc {
        CollapseRuns(s, Whitespace, fill);
        [w[0]] + CollapseRuns(w[1..] + rest, Whitespace, fill);
        [w[0]] + (w[1..] + CollapseRuns(rest, Whitespace, fill));
        ([w[0]] + w[1..]) + CollapseRuns(rest, Whitespace, fill);
        { assert [w[0]] + w[1..] == w; }
        w + CollapseRuns(rest, Whitespace, fill);
      }
    } else {
      assert w + rest == rest;
      assert w + CollapseRuns(rest, Whitespace, fill) == CollapseRuns(rest, Whitespace, fill);
    }
  }

  /** A whitespace run between two words: it becomes one fill, and `split`
      skips it. */
  lemma CollapseSpaceRun(rest: string, fill: string)
    requires rest != [] && IsSpace(rest[0]) && !IsSpace(rest[|rest| - 1])
    ensures var t := TrimStart(rest);
      t != [] && !IsSpace(t[0]) && !IsSpace(t[|t| - 1])
      && CollapseRuns(rest, Whitespace, fill) == fill + CollapseRuns(t, Whitespace, fill)
      && Split(rest) == Split(t) && Split(t) != []
  {
    var t := TrimStart(rest);
    SkipWhitespaceIsTrimStart(rest);
    assert t != [] && t[|t| - 1] == rest[|rest| - 1];
    TrimStartIdempotent(t);
  }

  /** On a name that neither starts nor ends with whitespace, the space
      presets give the name's words joined by the fill character: each run of
      whitespace between two words becomes exactly one fill. */
  lemma {:induction false} CollapseIsJoinOfWords(s: string, fill: string)
    requires s == [] || (!IsSpace(s[0]) && !IsSpace(s[|s| - 1]))
    ensures CollapseRuns(s, Whitespace, fill) == Join(Split(s), fill)
    decreases |s|
  {
    if s != [] {
      var w := TakeWord(s);
      var rest := s[|w|..];
      FirstWord(s, fill);
      if rest == [] {
        JoinLastWord(w, s, fill);
      } else {
        assert rest[|rest| - 1] == s[|s| - 1];
        CollapseSpaceRun(rest, fill);
        var t := TrimStart(rest);
        CollapseIsJoinOfWords(t, fill);
        JoinNextWord(w, rest, t, s, fill);
      }
    }
  }

  /** A name that starts with a word: the word is split off and copied
      unchanged, and what follows it is empty or starts with whitespace. */
  lemma FirstWord(s: string, fill: string)
    requires s != [] && !IsSpace(s[0])
    ensures var w := TakeWord(s); var rest := s[|w|..];
      w != [] && s == w + rest && (rest == [] || IsSpace(rest[0]))
      && Split(s) == [w] + Split(rest)
      && CollapseRuns(s, Whitespace, fill) == w + CollapseRuns(rest, Whitespace, fill)
  {
    var w := TakeWord(s);
    var rest := s[|w|..];
    assert s == w + rest;
    SplitCons(w, rest);
    CollapseWordPrefix(w, rest, fill);
  }

  lemma JoinLastWord(w: string, s: string, fill: string)
    requires s == w + [] && Split(s) == [w] + Split([])
    requires CollapseRuns(s, Whitespace, fill) == w + CollapseRuns([], Whitespace, fill)
    ensures CollapseRuns(s, Whitespace, fill) == Join(Split(s), fill)
  {
    assert [w] + Split([]) == [w];
  }

  lemma JoinNextWord(w: string, rest: string, t: string, s: string, fill: string)
    requires Split(s) == [w] + Split(rest) && Split(rest) == Split(t) && Split(t) != []
    requires CollapseRuns(s, Whitespace, fill) == w + CollapseRuns(rest, Whitespace, fill)
    requires CollapseRuns(rest, Whitespace, fill) == fill + CollapseRuns(t, Whitespace, fill)
    requires CollapseRuns(t, Whitespace, fill) == Join(Split(t), fill)
    ensures CollapseRuns(s, Whitespace, fill) == Join(Split(s), fill)
  {
    JoinCons(w, Split(t), fill);
  }

  lemma JoinCons(w: string, ws: seq<string>, sep: string)
    requires ws != []
    ensures Join([w] + ws, sep) == w + (sep + Join(ws, sep))
  {
    var xs := [w] + ws;
    assert xs[0] == w && xs[1..] == ws;
  }

  /** Where `SkipRun` stops on a concatenation: inside `a` when `a` holds a
      character outside the class, otherwise in `b`. */
  lemma {:induction false} SkipRunConcat(a: string, b: string, cls: CharClass)
    ensures SkipRun(a + b, cls) == (if SkipRun(a, cls) != [] then SkipRun(a, cls) + b else SkipRun(b, cls))
    decreases |a|
  {
    if a == [] {
      assert a + b == b;
    } else {
      assert (a + b)[0] == a[0] && (a + b)[1..] == a[1..] + b;
      SkipRunHead(a + b, cls);
      SkipRunHead(a, cls);
      if InClass(cls, a[0]) {
        SkipRunConcat(a[1..], b, cls);
      }
    }
  }

  lemma SkipRunHead(s: string, cls: CharClass)
    requires s != []
    ensures SkipRun(s, cls) == if InClass(cls, s[0]) then SkipRun(s[1..], cls) else s
  {
  }

  /** A name made only of class characters is one run: it becomes one copy
      of the fill. */
  lemma CollapseRunsAllClass(s: string, cls: CharClass, fill: string)
    requires s != [] && forall i :: 0 <= i < |s| ==> InClass(cls, s[i])
    ensures CollapseRuns(s, cls, fill) == fill
  {
    assert SkipRun(s, cls) == [];
    assert fill + [] == fill;
  }

  /** Cutting a name where no run is split (at either end, or next to a
      character outside the class) cuts the result in the same place. */
  lemma {:induction false} CollapseRunsConcat(a: string, b: string, cls: CharClass, fill: string)
    requires a == [] || b == [] || !InClass(cls, a[|a| - 1]) || !InClass(cls, b[0])
    ensures CollapseRuns(a + b, cls, fill) == CollapseRuns(a, cls, fill) + CollapseRuns(b, cls, fill)
    decreases |a|, 1
  {
    if a == [] {
      assert a + b == b;
    } else if b == [] {
      assert a + b == a;
    } else if !InClass(cls, a[0]) {
      ConcatAfterPlain(a, b, cls, fill);
    } else {
      ConcatAfterRun(a, b, cls, fill);
    }
  }

  /** `CollapseRunsConcat` when `a` starts outside the class. */
  lemma {:induction false} ConcatAfterPlain(a: string, b: string, cls: CharClass, fill: string)
    requires a != [] && b != [] && !InClass(cls, a[0])
    requires !InClass(cls, a[|a| - 1]) || !InClass(cls, b[0])
    ensures CollapseRuns(a + b, cls, fill) == CollapseRuns(a, cls, fill) + CollapseRuns(b, cls, fill)
    decreases |a|, 0
  {
    var t := a[1..];
    assert t == [] || t[|t| - 1] == a[|a| - 1];
    CollapseRunsConcat(t, b, cls, fill);
    assert (a + b)[0] == a[0] && (a + b)[1..] == t + b;
    CollapsePlainHead(a + b, cls, fill);
    CollapsePlainHead(a, cls, fill);
    AppendAssoc([a[0]], CollapseRuns(t, cls, fill), CollapseRuns(b, cls, fill));
  }

  lemma AppendAssoc(x: string, y: string, z: string)
    ensures x + (y + z) == (x + y) + z
  {
  }

  lemma CollapsePlainHead(s: string, cls: CharClass, fill: string)
    requires s != [] && !InClass(cls, s[0])
    ensures CollapseRuns(s, cls, fill) == [s[0]] + CollapseRuns(s[1..], cls, fill)
  {
  }

  /** `CollapseRunsConcat` when `a` starts with a run. */
  lemma {:induction false} ConcatAfterRun(a: string, b: string, cls: CharClass, fill: string)
    requires a != [] && b != [] && InClass(cls, a[0])
    requires !InClass(cls, a[|a| - 1]) || !InClass(cls, b[0])
    ensures CollapseRuns(a + b, cls, fill) == CollapseRuns(a, cls, fill) + CollapseRuns(b, cls, fill)
    decreases |a|, 0
  {
    var r := SkipRun(a, cls);
    SkipRunConcat(a, b, cls);
    if r == [] {
      ConcatAfterWholeRun(a, b, cls, fill);
    } else {
      assert a[|a| - |r|..] == r;
      assert r[|r| - 1] == a[|a| - 1];
      CollapseRunsConcat(r, b, cls, fill);
      assert (a + b)[0] == a[0];
      CollapseRunHead(a + b, cls, fill);
      CollapseRunHead(a, cls, fill);
      AppendAssoc(fill, CollapseRuns(r, cls, fill), CollapseRuns(b, cls, fill));
    }
  }

  lemma ConcatAfterWholeRun(a: string, b: string, cls: CharClass, fill: string)
    requires a != [] && b != [] && InClass(cls, a[0])
    requires !InClass(cls, a[|a| - 1]) || !InClass(cls, b[0])
    requires SkipRun(a, cls) == []
    ensures CollapseRuns(a + b, cls, fill) == CollapseRuns(a, cls, fill) + CollapseRuns(b, cls, fill)
  {
    SkipRunConcat(a, b, cls);
    assert (a + b)[0] == a[0];
    assert InClass(cls, a[|a| - 1]);
    SkipRunStops(b, cls);
    CollapseRunHead(a + b, cls, fill);
    CollapseRunHead(a, cls, fill);
    assert CollapseRuns([], cls, fill) == [];
    assert fill + [] == fill;
  }

  lemma SkipRunStops(b: string, cls: CharClass)
    requires b != [] && !InClass(cls, b[0])
    ensures SkipRun(b, cls) == b
  {
  }

  lemma CollapseRunHead(s: string, cls: CharClass, fill: string)
    requires s != [] && InClass(cls, s[0])
    ensures CollapseRuns(s, cls, fill) == fill + CollapseRuns(SkipRun(s, cls), cls, fill)
  {
  }

  /** A leading whitespace run in front of a name that starts with a
      non-space becomes one fill. */
  lemma CollapseLeadingRun(lead: string, t: string, fill: string)
    requires forall i :: 0 <= i < |lead| ==> IsSpace(lead[i])
    requires t == [] || !IsSpace(t[0])
    ensures CollapseRuns(lead + t, Whitespace, fill) == (if lead != [] then fill else []) + CollapseRuns(t, Whitespace, fill)
  {
    if lead == [] {
      assert lead + t == t;
    } else {
      CollapseRunsAllClass(lead, Whitespace, fill);
      CollapseRunsConcat(lead, t, Whitespace, fill);
    }
  }

  /** A trailing whitespace run behind a name that ends in a non-space
      becomes one fill. */
  lemma CollapseTrailingRun(core: string, trail: string, fill: string)
    requires forall i :: 0 <= i < |trail| ==> IsSpace(trail[i])
    requires core == [] || !IsSpace(core[|core| - 1])
    ensures CollapseRuns(core + trail, Whitespace, fill) == CollapseRuns(core, Whitespace, fill) + (if trail != [] then fill else [])
  {
    if trail == [] {
      assert core + trail == core;
    } else {
      CollapseRunsAllClass(trail, Whitespace, fill);
      CollapseRunsConcat(core, trail, Whitespace, fill);
    }
  }

  /** The whitespace presets on every name: a leading run becomes one fill,
      the words of the stripped name are joined by the fill, and a trailing
      run becomes one more fill; a name made only of whitespace becomes a
      single fill. */
  lemma CollapseWhitespace(s: string, fill: string)
    ensures CollapseRuns(s, Whitespace, fill) ==
      (if s != [] && IsSpace(s[0]) then fill else [])
      + Join(Split(Strip(s)), fill)
      + (if Strip(s) != [] && IsSpace(s[|s| - 1]) then fill else [])
  {
    var lead, trail := StripPieces(s);
    var core := Strip(s);
    StripEnds(s);
    CollapseIsJoinOfWords(core, fill);
    CollapseLeadingRun(lead, core + trail, fill);
    CollapseTrailingRun(core, trail, fill);
    var fLead := if lead != [] then fill else [];
    var fTrail := if trail != [] then fill else [];
    AppendAssoc(fLead, Join(Split(core), fill), fTrail);
    if core == [] {
      assert s == lead + ([] + []);
    }
  }

  // ---------------------------------------------------------------------------
  // `re.escape(find)`
  // ---------------------------------------------------------------------------

  /** `find` occurs somewhere in `s`. */
  predicate Contains(s: string, find: string)
    decreases |s|
  {
    |s| >= |find| && (s[..|find|] == find || (s != [] && Contains(s[1..], find)))
  }

  /** `find` occurs in `s` starting at position `i`. */
  predicate OccursAt(s: string, find: string, i: int) {
    0 <= i && i + |find| <= |s| && s[i..i + |find|] == find
  }

  /** `Contains` is the search for an occurrence at some position; the
      empty text occurs at position 0 of every name. */
  lemma {:induction false} ContainsIff(s: string, find: string)
    ensures Contains(s, find) <==> exists i :: OccursAt(s, find, i)
    decreases |s|
  {
    if Contains(s, find) {
      if s[..|find|] == find {
        assert OccursAt(s, find, 0);
      } else {
        ContainsIff(s[1..], find);
        var i :| OccursAt(s[1..], find, i);
        SliceOfTail(s, i, |find|);
        assert OccursAt(s, find, i + 1);
      }
    }
    if exists i :: OccursAt(s, find, i) {
      var i :| OccursAt(s, find, i);
      if i > 0 {
        ContainsIff(s[1..], find);
        SliceOfTail(s, i - 1, |find|);
        assert OccursAt(s[1..], find, i - 1);
      }
    }
  }

  lemma SliceOfTail(s: string, i: nat, n: nat)
    requires i + n < |s|
    ensures s[1..][i..i + n] == s[i + 1..i + 1 + n]
  {
  }

  /** `re.sub(re.escape(find), rep, s)` for a non-empty `find`: occurrences
      are replaced from left to right without overlapping. */
  function ReplaceAll(s: string, find: string, rep: string): (r: string)
    requires find != []
    ensures !Contains(s, find) ==> r == s
    ensures rep == [] ==> |r| <= |s|
    decreases |s|
  {
    if |s| < |find| then s
    else if s[..|find|] == find then rep + ReplaceAll(s[|find|..], find, rep)
    else [s[0]] + ReplaceAll(s[1..], find, rep)
  }

  /** The leftmost occurrence is the one replaced: when `find` does not
      start anywhere inside `a`, the name `a + find + b` keeps `a`, gets
      `rep` for that occurrence, and the search goes on in `b` only (no
      overlapping match). */
  lemma {:induction false} ReplaceAllLeftmost(a: string, find: string, rep: string, b: string)
    requires find != []
    requires forall i :: 0 <= i < |a| ==> !OccursAt(a + find + b, find, i)
    ensures ReplaceAll(a + find + b, find, rep) == a + rep + ReplaceAll(b, find, rep)
    decreases |a|
  {
    var s := a + find + b;
    if a == [] {
      assert s == find + b;
      ReplaceAllAtFront(find, rep, b);
    } else {
      assert !OccursAt(s, find, 0);
      NoOccurrenceInTail(a, find, b);
      ReplaceAllLeftmost(a[1..], find, rep, b);
      ReplaceAllKeepsHead(a, find, rep, b, ReplaceAll(b, find, rep));
    }
  }

  /** An occurrence at the front is replaced. */
  lemma ReplaceAllAtFront(find: string, rep: string, b: string)
    requires find != []
    ensures ReplaceAll(find + b, find, rep) == rep + ReplaceAll(b, find, rep)
  {
    var s := find + b;
    assert s[..|find|] == find && s[|find|..] == b;
  }

  /** A first character that does not start an occurrence is kept. */
  lemma ReplaceAllKeepsHead(a: string, find: string, rep: string, b: string, r: string)
    requires a != [] && find != [] && !OccursAt(a + find + b, find, 0)
    requires ReplaceAll(a[1..] + find + b, find, rep) == a[1..] + rep + r
    ensures ReplaceAll(a + find + b, find, rep) == a + rep + r
  {
    var s := a + find + b;
    ReplaceAllUnfold(s, find, rep);
    SplitHead(a, find, b);
    SplitHead(a, rep, r);
  }

  lemma SplitHead(a: string, u: string, v: string)
    requires a != []
    ensures (a + u + v)[0] == a[0] && (a + u + v)[1..] == a[1..] + u + v
    ensures a + u + v == [a[0]] + (a[1..] + u + v)
  {
    assert [a[0]] + a[1..] == a;
  }

  lemma ReplaceAllUnfold(s: string, find: string, rep: string)
    requires find != [] && !OccursAt(s, find, 0) && |s| >= |find|
    ensures ReplaceAll(s, find, rep) == [s[0]] + ReplaceAll(s[1..], find, rep)
  {
  }

  lemma NoOccurrenceInTail(a: string, find: string, b: string)
    requires a != []
    requires forall i :: 0 <= i < |a| ==> !OccursAt(a + find + b, find, i)
    ensures forall i :: 0 <= i < |a[1..]| ==> !OccursAt(a[1..] + find + b, find, i)
  {
    var s := a + find + b;
    assert s[1..] == a[1..] + find + b;
    forall i | 0 <= i < |a[1..]| ensures !OccursAt(s[1..], find, i) {
      assert !OccursAt(s, find, i + 1);
      SliceOfTail(s, i, |find|);
    }
  }

  /** `re.sub("", rep, s)`: the empty pattern matches before every character
      and at the end, so `rep` is inserted at each of those positions. */
  function Interleave(s: string, rep: string): (r: string)
    ensures rep != [] ==> |r| > |s|
  {
    if s == [] then rep else rep + [s[0]] + Interleave(s[1..], rep)
  }

  /** `rep` goes in once per character and once more at the end. */
  lemma {:induction false} InterleaveLength(s: string, rep: string)
    ensures |Interleave(s, rep)| == |s| + (|s| + 1) * |rep|
  {
    if s != [] {
      InterleaveLength(s[1..], rep);
    }
  }

  /** Where the replacement goes: writing `k` for `|rep| + 1`, the
      `i`-th character of the name is preceded by a copy of `rep` and sits at
      position `i * k + |rep|`. */
  lemma {:induction false} InterleavePlacement(s: string, rep: string, i: nat)
    requires i < |s|
    ensures var r := Interleave(s, rep); var p := i * (|rep| + 1);
      p + |rep| < |r| && r[p..p + |rep|] == rep && r[p + |rep|] == s[i]
  {
    var r, k := Interleave(s, rep), |rep| + 1;
    var head, tail := rep + [s[0]], Interleave(s[1..], rep);
    assert r == head + tail && |head| == k;
    if i == 0 {
      assert i * k == 0;
      assert r[..|rep|] == rep;
    } else {
      InterleavePlacement(s[1..], rep, i - 1);
      var j := (i - 1) * k;
      MulStep(i, k);
      SliceAfter(head, tail, j, |rep|);
      assert s[i] == s[1..][i - 1];
      assert i * k + |rep| < |r| && r[i * k..i * k + |rep|] == rep && r[i * k + |rep|] == s[i];
    }
  }

  lemma MulStep(i: nat, k: nat)
    requires i > 0
    ensures i * k == (i - 1) * k + k
  {
  }

  lemma SliceAfter(head: string, tail: string, j: nat, n: nat)
    requires j + n < |tail|
    ensures (head + tail)[|head| + j..|head| + j + n] == tail[j..j + n]
    ensures (head + tail)[|head| + j + n] == tail[j + n]
  {
  }

  /** The result ends with one more copy of the replacement. */
  lemma {:induction false} InterleaveEnd(s: string, rep: string)
    ensures var r := Interleave(s, rep); |rep| <= |r| && r[|r| - |rep|..] == rep
  {
    if s != [] {
      InterleaveEnd(s[1..], rep);
      var r, tail := Interleave(s, rep), Interleave(s[1..], rep);
      assert r == (rep + [s[0]]) + tail;
      assert r[|r| - |rep|..] == tail[|tail| - |rep|..];
    }
  }

  /** Inserting nothing everywhere leaves the name as it is. */
  lemma {:induction false} InterleaveEmpty(s: string)
    ensures Interleave(s, []) == s
  {
    if s != [] {
      InterleaveEmpty(s[1..]);
      assert [s[0]] + s[1..] == s;
    }
  }

  /** Replacing a text by itself is the identity. */
  lemma {:induction false} ReplaceBySelf(s: string, find: string)
    requires find != []
    ensures ReplaceAll(s, find, find) == s
    decreases |s|
  {
    if |s| < |find| {
    } else if s[..|find|] == find {
      ReplaceBySelf(s[|find|..], find);
      assert find + s[|find|..] == s;
    } else {
      ReplaceBySelf(s[1..], find);
      assert [s[0]] + s[1..] == s;
    }
  }

  /** Replacing a text by itself leaves every name as it is, the empty
      text included. */
  lemma SubstituteBySelf(find: string, name: string)
    ensures Substitute(Literal(find, find), name) == name
  {
    if find == [] {
      InterleaveEmpty(name);
    } else {
      ReplaceBySelf(name, find);
    }
  }

  /** Removing a text that occurs makes the name strictly shorter. */
  lemma {:induction false} RemoveShortens(s: string, find: string)
    requires find != [] && Contains(s, find)
    ensures |ReplaceAll(s, find, [])| < |s|
    decreases |s|
  {
    if s[..|find|] != find {
      RemoveShortens(s[1..], find);
    }
  }

  /** What each substitution does to a name it matches: the classes are
      removed or collapsed, a literal is replaced, the prefix goes in front,
      the suffix before the matched extension. */
  lemma SubstituteOnMatch(sub: Subst, name: string)
    requires Matches(sub, name)
    ensures sub.ReplaceRuns? && !HasClass(sub.fill, sub.cls) ==>
      Substitute(sub, name) != name && !HasClass(Substitute(sub, name), sub.cls)
    ensures sub.DeleteEach? ==> |Substitute(sub, name)| < |name|
    ensures sub.Literal? && sub.find != [] && sub.repl == [] ==> |Substitute(sub, name)| < |name|
    ensures sub.Literal? && sub.find == [] ==> Substitute(sub, name) == Interleave(name, sub.repl)
    ensures sub.Prefix? ==> Substitute(sub, name) == sub.text + name
    ensures sub.Suffix? ==> var m := SuffixSplit(name).value;
      Substitute(sub, name) == m.stem + sub.text + m.ext + m.tail
  {
    match sub
    case ReplaceRuns(cls, fill) =>
      CollapseRunsLaws(name, cls, fill);
    case DeleteEach(cls) =>
      DeleteStrictlyShortens(name, cls);
    case Literal(f, rep) =>
      if f != [] && rep == [] {
        RemoveShortens(name, f);
      }
    case Prefix(t) =>
    case Suffix(t) =>
  }

  lemma {:induction false} DeleteStrictlyShortens(s: string, cls: CharClass)
    requires HasClass(s, cls)
    ensures |DeleteClass(s, cls)| < |s|
    decreases |s|
  {
    if !InClass(cls, s[0]) {
      var i :| 0 <= i < |s| && InClass(cls, s[i]);
      assert s[1..][i - 1] == s[i];
      DeleteStrictlyShortens(s[1..], cls);
    }
  }
}
