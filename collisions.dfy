/** `detect_collisions`: the planned renames grouped by the path they would
    produce, and the groups with more than one member. */
module Collisions {
  import opened Planner

  /** `os.path.join(os.path.dirname(full_path), new_name)`. */
  function Target(c: Change): FilePath {
    FilePath(c.path.dir, c.newName)
  }

  /** The old names of the changes whose target is `key`, in plan order:
      the list `new_names[key]`. */
  function NamesFor(cs: seq<Change>, key: FilePath): (names: seq<string>)
    ensures |names| <= |cs|
  {
    if cs == [] then []
    else
      var last := cs[|cs| - 1];
      NamesFor(cs[..|cs| - 1], key) + (if Target(last) == key then [last.oldName] else [])
  }

  /** The keys of `new_names`. */
  function Targets(cs: seq<Change>): set<FilePath> {
    set c | c in cs :: Target(c)
  }

  /** The dictionary `new_names` after the first loop. */
  function Groups(cs: seq<Change>): map<FilePath, seq<string>> {
    map key | key in Targets(cs) :: NamesFor(cs, key)
  }

  /** The dictionary `detect_collisions` returns. */
  function CollisionsOf(cs: seq<Change>): (m: map<FilePath, seq<string>>)
    ensures forall key :: key in m ==> key in Targets(cs) && |m[key]| >= 2
  {
    map key | key in Targets(cs) && |NamesFor(cs, key)| > 1 :: NamesFor(cs, key)
  }

  /** No two planned renames produce the same path. */
  predicate TargetsDistinct(cs: seq<Change>) {
    forall i, j :: 0 <= i < j < |cs| ==> Target(cs[i]) != Target(cs[j])
  }

  /** The groups after one more change: its old name is appended to the
      list of its target, which starts empty. */
  lemma GroupsSnoc(cs: seq<Change>, c: Change)
    ensures var g := Groups(cs);
      Groups(cs + [c]) == g[Target(c) := (if Target(c) in g then g[Target(c)] else []) + [c.oldName]]
  {
    var g := Groups(cs);
    var ext := cs + [c];
    assert ext[..|cs|] == cs;
    assert Targets(ext) == Targets(cs) + {Target(c)} by {
      forall x | x in ext ensures x in cs || x == c {
        var i :| 0 <= i < |ext| && ext[i] == x;
        if i < |cs| {
          assert cs[i] == x;
        }
      }
    }
    if Target(c) !in g {
      NamesForAbsent(cs, Target(c));
    }
    var rhs := g[Target(c) := (if Target(c) in g then g[Target(c)] else []) + [c.oldName]];
    assert Groups(ext).Keys == rhs.Keys;
    forall k | k in rhs ensures Groups(ext)[k] == rhs[k] {
      assert NamesFor(ext, k) == NamesFor(cs, k) + (if Target(c) == k then [c.oldName] else []);
    }
  }

  lemma GroupsStep(cs: seq<Change>, i: nat, g: map<FilePath, seq<string>>, key: FilePath, names: seq<string>)
    requires i < |cs| && g == Groups(cs[..i]) && key == Target(cs[i])
    requires names == (if key in g then g[key] else []) + [cs[i].oldName]
    ensures Groups(cs[..i + 1]) == g[key := names]
  {
    GroupsSnoc(cs[..i], cs[i]);
    assert cs[..i + 1] == cs[..i] + [cs[i]];
  }

  /** A key that no change targets has no names. */
  lemma {:induction false} NamesForAbsent(cs: seq<Change>, key: FilePath)
    requires key !in Targets(cs)
    ensures NamesFor(cs, key) == []
  {
    if cs != [] {
      var init := cs[..|cs| - 1];
      assert cs[|cs| - 1] in cs;
      assert Targets(init) <= Targets(cs) by {
        forall x | x in init ensures x in cs {
          var i :| 0 <= i < |init| && init[i] == x;
          assert cs[i] == x;
        }
      }
      NamesForAbsent(init, key);
    }
  }

  /** The entries of `m` under the keys `done` that list more than one
      name. */
  function Crowded(m: map<FilePath, seq<string>>, done: set<FilePath>): map<FilePath, seq<string>> {
    map key | key in done && key in m && |m[key]| > 1 :: m[key]
  }

  lemma CrowdedStep(m: map<FilePath, seq<string>>, done: set<FilePath>, key: FilePath)
    requires key in m
    ensures Crowded(m, done + {key}) ==
      if |m[key]| > 1 then Crowded(m, done)[key := m[key]] else Crowded(m, done)
  {
    var lhs := Crowded(m, done + {key});
    var rhs := if |m[key]| > 1 then Crowded(m, done)[key := m[key]] else Crowded(m, done);
    assert lhs.Keys == rhs.Keys;
  }

  /** The first loop of `detect_collisions`: the old names grouped by the
      path they would produce. */
  method GroupByTarget(changes: seq<Change>) returns (newNames: map<FilePath, seq<string>>)
    ensures newNames == Groups(changes)
  {
    newNames := map[];
    var i := 0;
    while i < |changes|
      invariant 0 <= i <= |changes|
      invariant newNames == Groups(changes[..i])
    {
      var c := changes[i];
      var key := Target(c);
      // a missing key starts as an empty list; the old name is appended
      var oldNames := if key in newNames then newNames[key] else [];
      GroupsStep(changes, i, newNames, key, oldNames + [c.oldName]);
      newNames := newNames[key := oldNames + [c.oldName]];
      i := i + 1;
    }
    assert changes[..|changes|] == changes;
  }

  /** `detect_collisions(changes)`: the groups that list more than one old
      name. */
  method DetectCollisions(changes: seq<Change>) returns (collisions: map<FilePath, seq<string>>)
    ensures collisions == CollisionsOf(changes)
  {
    var newNames := GroupByTarget(changes);
    collisions := map[];
    var pending := newNames.Keys;
    while pending != {}
      invariant pending <= newNames.Keys
      invariant collisions == Crowded(newNames, newNames.Keys - pending)
      decreases pending
    {
      var key :| key in pending;
      var oldNames := newNames[key];
      CrowdedStep(newNames, newNames.Keys - pending, key);
      if |oldNames| > 1 {
        collisions := collisions[key := oldNames];
      }
      assert newNames.Keys - (pending - {key}) == (newNames.Keys - pending) + {key};
      pending := pending - {key};
    }
    GroupsCrowded(changes);
  }

  lemma GroupsCrowded(cs: seq<Change>)
    ensures Crowded(Groups(cs), Groups(cs).Keys) == CollisionsOf(cs)
  {
    assert Crowded(Groups(cs), Groups(cs).Keys).Keys == CollisionsOf(cs).Keys;
  }

  // ---------------------------------------------------------------------------
  // What a collision is
  // ---------------------------------------------------------------------------

  /** `key` has names exactly when some change targets it. */
  lemma {:induction false} NamesForNonEmpty(cs: seq<Change>, key: FilePath)
    ensures NamesFor(cs, key) != [] <==> exists i :: 0 <= i < |cs| && Target(cs[i]) == key
  {
    if cs != [] {
      var init := cs[..|cs| - 1];
      NamesForNonEmpty(init, key);
      if exists i :: 0 <= i < |init| && Target(init[i]) == key {
        var i :| 0 <= i < |init| && Target(init[i]) == key;
        assert Target(cs[i]) == key;
      }
      if exists i :: 0 <= i < |cs| && Target(cs[i]) == key {
        var i :| 0 <= i < |cs| && Target(cs[i]) == key;
        if i < |cs| - 1 {
          assert Target(init[i]) == key;
        }
      }
    }
  }

  /** `key` has two or more names exactly when two different changes
      target it. */
  lemma {:induction false} NamesForTwice(cs: seq<Change>, key: FilePath)
    ensures |NamesFor(cs, key)| > 1 <==>
      exists i, j :: 0 <= i < j < |cs| && Target(cs[i]) == key && Target(cs[j]) == key
  {
    if cs != [] {
      var init := cs[..|cs| - 1];
      var n := |cs| - 1;
      NamesForTwice(init, key);
      NamesForNonEmpty(init, key);
      assert |NamesFor(cs, key)| == |NamesFor(init, key)| + (if Target(cs[n]) == key then 1 else 0);
      if |NamesFor(cs, key)| > 1 {
        if Target(cs[n]) == key {
          var i :| 0 <= i < |init| && Target(init[i]) == key;
          assert Target(cs[i]) == key && Target(cs[n]) == key;
        } else {
          var i, j :| 0 <= i < j < |init| && Target(init[i]) == key && Target(init[j]) == key;
          assert Target(cs[i]) == key && Target(cs[j]) == key;
        }
      }
      if exists i, j :: 0 <= i < j < |cs| && Target(cs[i]) == key && Target(cs[j]) == key {
        var i, j :| 0 <= i < j < |cs| && Target(cs[i]) == key && Target(cs[j]) == key;
        assert Target(init[i]) == key;
        if j < n {
          assert Target(init[j]) == key;
        }
      }
    }
  }

  /** A path is reported as a collision exactly when two planned renames
      produce it, and then with the old names of all renames producing it,
      in plan order. */
  lemma CollisionsOfIff(cs: seq<Change>, key: FilePath)
    ensures key in CollisionsOf(cs) <==>
      exists i, j :: 0 <= i < j < |cs| && Target(cs[i]) == key && Target(cs[j]) == key
    ensures key in CollisionsOf(cs) ==> CollisionsOf(cs)[key] == NamesFor(cs, key)
  {
    NamesForTwice(cs, key);
    if exists i, j :: 0 <= i < j < |cs| && Target(cs[i]) == key && Target(cs[j]) == key {
      var i, j :| 0 <= i < j < |cs| && Target(cs[i]) == key && Target(cs[j]) == key;
      assert cs[i] in cs;
    }
  }

  /** No collision is reported exactly when the planned targets are
      pairwise distinct. */
  lemma CollisionsEmptyIff(cs: seq<Change>)
    ensures CollisionsOf(cs) == map[] <==> TargetsDistinct(cs)
  {
    if CollisionsOf(cs) != map[] {
      var key :| key in CollisionsOf(cs);
      CollisionsOfIff(cs, key);
    }
    if !TargetsDistinct(cs) {
      var i, j :| 0 <= i < j < |cs| && Target(cs[i]) == Target(cs[j]);
      CollisionsOfIff(cs, Target(cs[i]));
    }
  }
}
