/** Character classes and the handful of Python `str` operations the renamer
    relies on: `strip`, `split`, `" ".join`, `upper`, `lower` and
    `capitalize`.  Character classes follow Python's definitions restricted to
    ASCII. */
module Text {

  datatype Option<T> = None | Some(value: T)

  /** Python's whitespace (`str.isspace`, the regex class `\s`) on ASCII:
      space, `\t` `\n` `\v` `\f` `\r`, and the separators `\x1c`..`\x1f`. */
  predicate IsSpace(c: char) {
    c == ' ' || ('\t' <= c <= '\r') || ('\U{1C}' <= c <= '\U{1F}')
  }

  /** The regex class `\d` on ASCII. */
  predicate IsDigit(c: char) {
    '0' <= c <= '9'
  }

  predicate IsLower(c: char) {
    'a' <= c <= 'z'
  }

  predicate IsUpper(c: char) {
    'A' <= c <= 'Z'
  }

  predicate IsLetter(c: char) {
    IsLower(c) || IsUpper(c)
  }

  /** The regex class `\w` on ASCII. */
  predicate IsWordChar(c: char) {
    IsLetter(c) || IsDigit(c) || c == '_'
  }

  predicate NoSpace(s: string) {
    forall i :: 0 <= i < |s| ==> !IsSpace(s[i])
  }

  function ToUpper(c: char): (r: char)
    ensures !IsLower(r)
    ensures IsSpace(r) == IsSpace(c)
    ensures IsLetter(c) ==> ToLower(r) == ToLower(c)
  {
    if IsLower(c) then (c as int - 32) as char else c
  }

  function ToLower(c: char): (r: char)
    ensures !IsUpper(r)
    ensures IsSpace(r) == IsSpace(c)
  {
    if IsUpper(c) then (c as int + 32) as char else c
  }

  /** `str.upper` restricted to ASCII letters. */
  function Upper(s: string): (r: string)
  {
    seq(|s|, i requires 0 <= i < |s| => ToUpper(s[i]))
  }

  /** `str.lower` restricted to ASCII letters. */
  function Lower(s: string): (r: string)
  {
    seq(|s|, i requires 0 <= i < |s| => ToLower(s[i]))
  }

  /** `str.capitalize`: the first character upper-cased, all others
      lower-cased. */
  function Capitalize(w: string): (r: string)
  {
    if w == [] then [] else [ToUpper(w[0])] + Lower(w[1..])
  }

  /** `str.lstrip()` with no argument. */
  function TrimStart(s: string): (r: string)
    ensures |r| <= |s|
    ensures r == [] || !IsSpace(r[0])
    ensures forall i :: 0 <= i < |s| - |r| ==> IsSpace(s[i])
  {
    if s != [] && IsSpace(s[0]) then TrimStart(s[1..]) else s
  }

  /** `str.rstrip()` with no argument. */
  function TrimEnd(s: string): (r: string)
    ensures |r| <= |s|
    ensures r == [] || !IsSpace(r[|r| - 1])
    ensures forall i :: |r| <= i < |s| ==> IsSpace(s[i])
  {
    if s != [] && IsSpace(s[|s| - 1]) then TrimEnd(s[..|s| - 1]) else s
  }

  /** What `lstrip` keeps is a suffix of its input. */
  lemma {:induction false} TrimStartSuffix(s: string)
    ensures TrimStart(s) == s[|s| - |TrimStart(s)|..]
    decreases |s|
  {
    if s != [] && IsSpace(s[0]) {
      TrimStartSuffix(s[1..]);
    }
  }

  /** What `rstrip` keeps is a prefix of its input. */
  lemma {:induction false} TrimEndPrefix(s: string)
    ensures TrimEnd(s) == s[..|TrimEnd(s)|]
    decreases |s|
  {
    if s != [] && IsSpace(s[|s| - 1]) {
      TrimEndPrefix(s[..|s| - 1]);
    }
  }

  /** `str.strip()` with no argument, applied to every text field the user
      types. */
  function Strip(s: string): (r: string)
  {
    TrimEnd(TrimStart(s))
  }

  /** The longest prefix of `s` holding no whitespace. */
  function TakeWord(s: string): (w: string)
    ensures |w| <= |s| && w == s[..|w|] && NoSpace(w)
    ensures |w| < |s| ==> IsSpace(s[|w|])
  {
    if s == [] || IsSpace(s[0]) then [] else [s[0]] + TakeWord(s[1..])
  }

  /** `str.split()` with no argument: the maximal runs of non-whitespace
      characters, in order. */
  function Split(s: string): (parts: seq<string>)
    ensures forall k :: 0 <= k < |parts| ==> parts[k] != [] && NoSpace(parts[k])
    decreases |s|
  {
    var t := TrimStart(s);
    if t == [] then [] else
      var w := TakeWord(t);
      [w] + Split(t[|w|..])
  }

  /** `sep.join(parts)`. */
  function Join(parts: seq<string>, sep: string): (r: string)
  {
    if parts == [] then []
    else if |parts| == 1 then parts[0]
    else parts[0] + sep + Join(parts[1..], sep)
  }

  function MapCapitalize(parts: seq<string>): (r: seq<string>)
    ensures |r| == |parts|
    ensures forall k :: 0 <= k < |r| ==> r[k] == Capitalize(parts[k])
  {
    if parts == [] then [] else [Capitalize(parts[0])] + MapCapitalize(parts[1..])
  }

  // ---------------------------------------------------------------------------
  // Properties of the string operations
  // ---------------------------------------------------------------------------

  /** What `strip` keeps neither starts nor ends with whitespace. */
  lemma StripEnds(s: string)
    ensures Strip(s) == [] || (!IsSpace(Strip(s)[0]) && !IsSpace(Strip(s)[|Strip(s)| - 1]))
  {
    TrimEndKeepsStart(TrimStart(s));
  }

  lemma {:induction false} TrimStartIdempotent(s: string)
    requires s == [] || !IsSpace(s[0])
    ensures TrimStart(s) == s
  {
  }

  lemma {:induction false} TrimEndKeepsStart(s: string)
    requires s == [] || !IsSpace(s[0])
    ensures TrimEnd(s) == [] || !IsSpace(TrimEnd(s)[0])
  {
    var r := TrimEnd(s);
    if r != [] {
      TrimEndPrefix(s);
      assert r[0] == s[0];
    }
  }

  /** Stripping twice is stripping once: surrounding whitespace typed into a
      field never matters beyond the first strip. */
  lemma StripIdempotent(s: string)
    ensures Strip(Strip(s)) == Strip(s)
  {
    var r := Strip(s);
    StripEnds(s);
    TrimStartIdempotent(r);
    if r != [] {
      assert !IsSpace(r[|r| - 1]);
    }
  }

  /** `lstrip` removes exactly a leading whitespace run, which is non-empty
      exactly when the string starts with whitespace. */
  lemma {:induction false} TrimStartPieces(s: string) returns (lead: string)
    ensures s == lead + TrimStart(s)
    ensures forall i :: 0 <= i < |lead| ==> IsSpace(lead[i])
    ensures lead != [] <==> s != [] && IsSpace(s[0])
    decreases |s|
  {
    if s != [] && IsSpace(s[0]) {
      var rest := TrimStartPieces(s[1..]);
      lead := [s[0]] + rest;
      assert s == [s[0]] + s[1..];
    } else {
      lead := [];
      assert s == [] + s;
    }
  }

  /** `rstrip` removes exactly a trailing whitespace run, which is non-empty
      exactly when the string ends with whitespace. */
  lemma {:induction false} TrimEndPieces(s: string) returns (trail: string)
    ensures s == TrimEnd(s) + trail
    ensures forall i :: 0 <= i < |trail| ==> IsSpace(trail[i])
    ensures trail != [] <==> s != [] && IsSpace(s[|s| - 1])
    decreases |s|
  {
    if s != [] && IsSpace(s[|s| - 1]) {
      var rest := TrimEndPieces(s[..|s| - 1]);
      trail := rest + [s[|s| - 1]];
      assert s == s[..|s| - 1] + [s[|s| - 1]];
    } else {
      trail := [];
      assert s == s + [];
    }
  }

  /** A name is its leading whitespace, what `strip` keeps, and its trailing
      whitespace; when something survives stripping, the name starts
      (ends) with whitespace exactly when the leading (trailing) run is
      non-empty, and when nothing does, the whole name is the leading run. */
  lemma StripPieces(s: string) returns (lead: string, trail: string)
    ensures s == lead + (Strip(s) + trail)
    ensures forall i :: 0 <= i < |lead| ==> IsSpace(lead[i])
    ensures forall i :: 0 <= i < |trail| ==> IsSpace(trail[i])
    ensures Strip(s) == [] ==> trail == []
    ensures Strip(s) != [] ==> (lead != [] <==> IsSpace(s[0])) && (trail != [] <==> IsSpace(s[|s| - 1]))
  {
    var t := TrimStart(s);
    lead := TrimStartPieces(s);
    trail := TrimEndPieces(t);
    var core := Strip(s);
    assert t == core + trail;
    StripEnds(s);
    if core == [] {
      assert t == trail;
    } else {
      assert t[0] == core[0];
      assert s[|s| - 1] == t[|t| - 1];
    }
  }

  /** `upper` and `lower` are idempotent, and lower-casing forgets an earlier
      upper-casing. */
  lemma CaseIdempotent(s: string)
    ensures Upper(Upper(s)) == Upper(s)
    ensures Lower(Lower(s)) == Lower(s)
    ensures Lower(Upper(s)) == Lower(s)
  {
    assert forall i :: 0 <= i < |s| ==> ToLower(ToUpper(s[i])) == ToLower(s[i]);
  }

  /** A word `capitalize`d stays a non-empty word without whitespace, and
      `capitalize` is idempotent. */
  lemma CapitalizeWord(w: string)
    requires w != [] && NoSpace(w)
    ensures Capitalize(w) != [] && NoSpace(Capitalize(w))
    ensures Capitalize(Capitalize(w)) == Capitalize(w)
  {
    var c := Capitalize(w);
    assert c[0] == ToUpper(w[0]);
    assert c[1..] == Lower(w[1..]);
    CaseIdempotent(w[1..]);
  }

  /** Splitting a word followed by anything starting with whitespace gives the
      word, then the split of the rest. */
  lemma {:induction false} SplitCons(w: string, rest: string)
    requires w != [] && NoSpace(w)
    requires rest == [] || IsSpace(rest[0])
    ensures Split(w + rest) == [w] + Split(rest)
  {
    var s := w + rest;
    assert TrimStart(s) == s;
    TakeWordOf(w, rest);
    assert s[|w|..] == rest;
  }

  lemma {:induction false} TakeWordOf(w: string, rest: string)
    requires NoSpace(w)
    requires rest == [] || IsSpace(rest[0])
    ensures TakeWord(w + rest) == w
    decreases |w|
  {
    if w == [] {
    } else {
      assert (w + rest)[1..] == w[1..] + rest;
      TakeWordOf(w[1..], rest);
    }
  }

  /** Leading whitespace does not change the result of `split`. */
  lemma SplitSkipsSpace(c: char, rest: string)
    requires IsSpace(c)
    ensures Split([c] + rest) == Split(rest)
  {
    assert ([c] + rest)[1..] == rest;
    assert TrimStart([c] + rest) == TrimStart(rest);
  }

  lemma {:induction false} SplitWord(w: string)
    requires w != [] && NoSpace(w)
    ensures Split(w) == [w]
  {
    SplitCons(w, []);
    assert w + [] == w;
  }

  lemma {:induction false} SplitWordSpace(w: string, rest: string)
    requires w != [] && NoSpace(w)
    ensures Split(w + ([' '] + rest)) == [w] + Split(rest)
  {
    SplitCons(w, [' '] + rest);
    SplitSkipsSpace(' ', rest);
  }

  /** `split` undoes `join` with a single space, for non-empty words without
      whitespace. */
  lemma {:induction false} SplitJoin(ws: seq<string>)
    requires forall k :: 0 <= k < |ws| ==> ws[k] != [] && NoSpace(ws[k])
    ensures Split(Join(ws, " ")) == ws
    decreases |ws|
  {
    if ws == [] {
    } else if |ws| == 1 {
      SplitWord(ws[0]);
    } else {
      var rest := Join(ws[1..], " ");
      assert Join(ws, " ") == ws[0] + ([' '] + rest);
      SplitWordSpace(ws[0], rest);
      SplitJoin(ws[1..]);
      assert [ws[0]] + ws[1..] == ws;
    }
  }

  /** Whitespace in `sep.join(words)` only comes from the separators: joined
      with one space, every whitespace character is a single space standing
      between two non-whitespace characters. */
  lemma {:induction false} JoinSingleSpaced(ws: seq<string>)
    requires forall k :: 0 <= k < |ws| ==> ws[k] != [] && NoSpace(ws[k])
    ensures SingleSpaced(Join(ws, " "))
    decreases |ws|
  {
    if |ws| > 1 {
      JoinSingleSpaced(ws[1..]);
      var rest := Join(ws[1..], " ");
      JoinNonEmpty(ws[1..]);
      var r := ws[0] + " " + rest;
      var n := |ws[0]|;
      assert forall k :: 0 <= k < n ==> r[k] == ws[0][k];
      assert forall k :: n < k < |r| ==> r[k] == rest[k - n - 1];
      forall i | 0 <= i < |r| && IsSpace(r[i])
        ensures r[i] == ' ' && 0 < i < |r| - 1 && !IsSpace(r[i - 1]) && !IsSpace(r[i + 1])
      {
        if i == n {
          assert r[i - 1] == ws[0][n - 1];
          assert r[i + 1] == rest[0];
        } else if n < i {
          var j := i - n - 1;
          assert IsSpace(rest[j]);
          assert r[i - 1] == (if j == 0 then ' ' else rest[j - 1]);
          assert r[i + 1] == rest[j + 1];
        }
      }
    }
  }

  lemma {:induction false} JoinNonEmpty(ws: seq<string>)
    requires forall k :: 0 <= k < |ws| ==> ws[k] != [] && NoSpace(ws[k])
    ensures ws != [] ==> (Join(ws, " ") != [] && !IsSpace(Join(ws, " ")[0])
                          && !IsSpace(Join(ws, " ")[|Join(ws, " ")| - 1]))
    decreases |ws|
  {
    if |ws| > 1 {
      JoinNonEmpty(ws[1..]);
      var rest := Join(ws[1..], " ");
      var r := ws[0] + " " + rest;
      assert r[0] == ws[0][0];
      assert r[|r| - 1] == rest[|rest| - 1];
    }
  }

  /** Every whitespace character is a single `' '` with a non-whitespace
      character on each side (so none leads, none trails, none doubles). */
  predicate SingleSpaced(r: string) {
    forall i :: 0 <= i < |r| && IsSpace(r[i]) ==>
      r[i] == ' ' && 0 < i < |r| - 1 && !IsSpace(r[i - 1]) && !IsSpace(r[i + 1])
  }
}
