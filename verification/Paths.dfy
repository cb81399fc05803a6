/** Slash-separated paths: `path.Clean`, `path.Join` and `filepath.Ext` of the Go standard
    library. */
module Paths {
  import opened Strs

  function CleanSegments(segs: seq<string>, rooted: bool, done: seq<string>): seq<string> {
    if segs == [] then done
    else if segs[0] == "" || segs[0] == "." then CleanSegments(segs[1..], rooted, done)
    else if segs[0] == ".." then
      if done != [] && done[|done| - 1] != ".." then
        CleanSegments(segs[1..], rooted, done[..|done| - 1])
      else CleanSegments(segs[1..], rooted, if rooted then done else done + [".."])
    else CleanSegments(segs[1..], rooted, done + [segs[0]])
  }

  function Clean(s: string): string {
    var rooted := s != "" && s[0] == '/';
    var body := Join(CleanSegments(Split(s), rooted, []));
    if rooted then ['/'] + body else if body == "" then "." else body
  }

  function NonEmpty(elems: seq<string>): seq<string> {
    if elems == [] then []
    else (if elems[0] == "" then [] else [elems[0]]) + NonEmpty(elems[1..])
  }

  /** `path.Join` */
  function PathJoin(elems: seq<string>): string {
    var kept := NonEmpty(elems);
    if kept == [] then "" else Clean(Join(kept))
  }

  /** `filepath.Ext` */
  function Ext(s: string): string {
    var i := LastIndex(s, '.');
    if i >= 0 && Lacks(s[i..], '/') then s[i..] else ""
  }

  predicate EndsIn(s: string, suffix: string) { |suffix| <= |s| && s[|s| - |suffix|..] == suffix }

  /** A text has an extension exactly when it ends in it, '/' being no part of it. */
  lemma ExtIsSuffix(s: string, ext: string)
    requires ext != "" && ext[0] == '.' && Lacks(ext[1..], '.')
    ensures Ext(s) == ext <==> EndsIn(s, ext) && Lacks(ext, '/')
  {
    var n := |s| - |ext|;
    if EndsIn(s, ext) {
      assert forall k | n <= k < |s| :: s[k] == ext[k - n];
      assert forall k | n < k < |s| :: s[k] == ext[1..][k - n - 1];
      LastIndexIs(s, '.', n);
    }
  }

  predicate Plain(seg: string) { seg != "" && seg != "." && seg != ".." }

  predicate AllPlain(segs: seq<string>) { forall k | 0 <= k < |segs| :: Plain(segs[k]) }

  /** A package name that path cleaning leaves alone. */
  predicate CleanName(name: string) { AllPlain(Split(name)) }

  lemma {:induction false} CleanKeepsPlain(segs: seq<string>, rooted: bool, done: seq<string>)
    requires AllPlain(segs)
    ensures CleanSegments(segs, rooted, done) == done + segs
  {
    if segs != [] {
      CleanKeepsPlain(segs[1..], rooted, done + [segs[0]]);
      assert segs == [segs[0]] + segs[1..];
      assert (done + [segs[0]]) + segs[1..] == done + segs;
    }
  }

  lemma JoinIsNotEmpty(segs: seq<string>)
    requires Segments(segs) && AllPlain(segs)
    ensures Join(segs) != ""
  {
    assert Plain(segs[0]);
  }

  lemma NonEmptyOfTwo(a: string, b: string)
    requires a != "" && b != ""
    ensures NonEmpty([a, b]) == [a, b] && Join([a, b]) == a + ['/'] + b
  {
    assert [a, b][1..] == [b] && [b][1..] == [];
    assert NonEmpty([b]) == [b];
    assert NonEmpty([a, b]) == [a] + NonEmpty([b]);
  }

  lemma NonEmptyOfThree(a: string, b: string, c: string)
    requires a != "" && b != "" && c != ""
    ensures NonEmpty([a, b, c]) == [a, b, c] && Join([a, b, c]) == a + ['/'] + (b + ['/'] + c)
  {
    NonEmptyOfTwo(b, c);
    assert [a, b, c][1..] == [b, c];
    assert NonEmpty([a, b, c]) == [a] + NonEmpty([b, c]);
  }

  lemma SplitUnder(first: string, name: string)
    requires Lacks(first, '/')
    ensures Split(first + ['/'] + name) == [first] + Split(name)
  {
    SplitFirst(first, name);
  }

  // ---------- Names that are not clean ----------

  /** What is left of a relative path once it is cleaned. */
  function Cleaned(path: string): seq<string> { CleanSegments(Split(path), false, []) }

  /** Segments put together again; a path with none left is printed ".". */
  function Rejoined(segs: seq<string>): string { if segs == [] then "." else Join(segs) }

  predicate Proper(segs: seq<string>) { forall k | 0 <= k < |segs| :: segs[k] != "" && Lacks(segs[k], '/') }

  lemma {:induction false} CleanedAreProper(segs: seq<string>, rooted: bool, done: seq<string>)
    requires (forall k | 0 <= k < |segs| :: Lacks(segs[k], '/')) && Proper(done)
    ensures Proper(CleanSegments(segs, rooted, done))
  {
    if segs != [] {
      var up := if done != [] && done[|done| - 1] != ".." then done[..|done| - 1]
                else if rooted then done else done + [".."];
      var next := if segs[0] == "" || segs[0] == "." then done else if segs[0] == ".." then up else done + [segs[0]];
      assert Lacks("..", '/');
      CleanedAreProper(segs[1..], rooted, next);
    }
  }

  /** A ".." that could not be resolved stays. */
  lemma {:induction false} UnresolvedStays(segs: seq<string>, done: seq<string>, k: nat)
    requires k < |done| && done[k] == ".."
    ensures !AllPlain(CleanSegments(segs, false, done))
    decreases |segs|
  {
    if segs == [] {
      assert !Plain(done[k]);
    } else if segs[0] == "" || segs[0] == "." {
      UnresolvedStays(segs[1..], done, k);
    } else if segs[0] != ".." {
      UnresolvedStays(segs[1..], done + [segs[0]], k);
    } else if done[|done| - 1] != ".." {
      UnresolvedStays(segs[1..], done[..|done| - 1], k);
    } else {
      UnresolvedStays(segs[1..], done + [".."], k);
    }
  }

  /** A path that never climbs above where it starts cleans alike wherever it starts. */
  lemma {:induction false} CleanedBelow(base: seq<string>, segs: seq<string>, done: seq<string>)
    requires AllPlain(CleanSegments(segs, false, done))
    ensures CleanSegments(segs, false, base + done) == base + CleanSegments(segs, false, done)
    decreases |segs|
  {
    if segs != [] {
      if segs[0] == "" || segs[0] == "." {
        CleanedBelow(base, segs[1..], done);
      } else if segs[0] != ".." {
        assert (base + done) + [segs[0]] == base + (done + [segs[0]]);
        CleanedBelow(base, segs[1..], done + [segs[0]]);
      } else if done != [] && done[|done| - 1] != ".." {
        assert (base + done)[..|base + done| - 1] == base + done[..|done| - 1];
        CleanedBelow(base, segs[1..], done[..|done| - 1]);
      } else {
        UnresolvedStays(segs[1..], done + [".."], |done|);
        assert false;
      }
    }
  }

  /** A rooted path never climbs: what is left of it has no "." or "..". */
  lemma {:induction false} RootedIsPlain(segs: seq<string>, done: seq<string>)
    requires AllPlain(done)
    ensures AllPlain(CleanSegments(segs, true, done))
  {
    if segs != [] {
      var up := if done != [] && done[|done| - 1] != ".." then done[..|done| - 1] else done;
      var next := if segs[0] == "" || segs[0] == "." then done else if segs[0] == ".." then up else done + [segs[0]];
      RootedIsPlain(segs[1..], next);
    }
  }

  /** And it stays rooted. */
  lemma RootedStaysRooted(s: string)
    requires s != "" && s[0] == '/'
    ensures exists segs :: AllPlain(segs) && Clean(s) == "/" + Join(segs)
  {
    RootedIsPlain(Split(s), []);
    assert Clean(s) == "/" + Join(CleanSegments(Split(s), true, []));
  }

  lemma CleanIsRejoined(path: string)
    requires path != "" && path[0] != '/'
    ensures Clean(path) == Rejoined(Cleaned(path)) && Proper(Cleaned(path))
  {
    CleanedAreProper(Split(path), false, []);
    var segs := Cleaned(path);
    if segs != [] {
      assert segs[0] != "";
    }
  }

  lemma CleanedUnder(dir: string, name: string)
    requires Plain(dir) && Lacks(dir, '/')
    ensures Cleaned(dir + ['/'] + name) == CleanSegments(Split(name), false, [dir])
  {
    SplitUnder(dir, name);
    assert ([dir] + Split(name))[1..] == Split(name) && [] + [dir] == [dir];
  }

  lemma NothingJoined(dir: string)
    requires Plain(dir) && Lacks(dir, '/')
    ensures PathJoin([dir, ""]) == dir && CleanSegments(Split(""), false, [dir]) == [dir]
  {
    assert [dir, ""][1..] == [""] && [""][1..] == [] && NonEmpty([""]) == [];
    assert NonEmpty([dir, ""]) == [dir];
    CleanIsRejoined(dir);
    CleanKeepsPlain([dir], false, []);
    assert Split(dir) == [dir] && [] + [dir] == [dir] && Split("") == [""];
  }

  /** Joining any name to a directory, the empty name included. */
  lemma PathJoinOfTwo(dir: string, name: string)
    requires Plain(dir) && Lacks(dir, '/')
    ensures PathJoin([dir, name]) == Rejoined(Cleaned(dir + ['/'] + name))
    ensures Proper(Cleaned(dir + ['/'] + name))
  {
    var path := dir + ['/'] + name;
    assert path[0] == dir[0];
    CleanIsRejoined(path);
    if name == "" {
      CleanedUnder(dir, name);
      NothingJoined(dir);
    } else {
      NonEmptyOfTwo(dir, name);
    }
  }

  /** A name that cleaning keeps inside the directory it is joined to. */
  predicate Inside(name: string) { AllPlain(Cleaned(name)) }

  /** The clean name for such a name; "" when nothing is left of it. */
  function Tidy(name: string): string { Join(Cleaned(name)) }

  lemma CleanNamesAreTidy(name: string)
    requires CleanName(name)
    ensures Inside(name) && Cleaned(name) == Split(name) && Tidy(name) == name
  {
    CleanKeepsPlain(Split(name), false, []);
    assert [] + Split(name) == Split(name);
    JoinSplit(name);
  }

  /** Joining a plain directory and a clean name puts the name under the directory. */
  lemma JoinUnder(dir: string, name: string)
    requires Plain(dir) && Lacks(dir, '/') && CleanName(name)
    ensures PathJoin([dir, name]) == dir + ['/'] + name
    ensures CleanName(dir + ['/'] + name)
  {
    CleanNamesAreTidy(name);
    JoinTidy(dir, name);
    SplitUnder(dir, name);
  }

  /** Joined to a directory, such a name is its clean name. */
  lemma JoinTidy(dir: string, name: string)
    requires Plain(dir) && Lacks(dir, '/') && Inside(name)
    ensures PathJoin([dir, name]) == if Cleaned(name) == [] then dir else dir + ['/'] + Tidy(name)
  {
    CleanedOfDir(dir, name);
    if Cleaned(name) == [] {
      assert [dir] + Cleaned(name) == [dir];
    } else {
      JoinCons(dir, Cleaned(name));
    }
  }

  lemma NothingLast(a: string, b: string)
    requires a != "" && b != ""
    ensures PathJoin([a, b, ""]) == Clean(a + ['/'] + b)
  {
    NonEmptyOfTwo(a, b);
    assert [a, b, ""][1..] == [b, ""] && [b, ""][1..] == [""] && [""][1..] == [];
    assert NonEmpty([""]) == [] && NonEmpty([b, ""]) == [b] && NonEmpty([a, b, ""]) == [a, b];
    assert [a, b][1..] == [b];
  }

  lemma CleanedOfDir(dir: string, name: string)
    requires Plain(dir) && Lacks(dir, '/') && Inside(name)
    ensures Cleaned(dir + ['/'] + name) == [dir] + Cleaned(name)
    ensures PathJoin([dir, name]) == Join([dir] + Cleaned(name))
  {
    PathJoinOfTwo(dir, name);
    CleanedUnder(dir, name);
    CleanedBelow([dir], Split(name), []);
    assert [dir] + [] == [dir];
  }

  /** A name that does not climb above the parent of the directory it is joined to, and is not that
      parent. */
  predicate Contained(dir: string, name: string) {
    var segs := Cleaned(dir + ['/'] + name);
    segs != [] && AllPlain(segs)
  }

  lemma InsideIsContained(dir: string, name: string)
    requires Plain(dir) && Lacks(dir, '/') && Inside(name)
    ensures Contained(dir, name)
  {
    CleanedOfDir(dir, name);
  }

  lemma CleanedInHost(host: string, path: string)
    requires host != "" && Lacks(host, '/') && AllPlain(Cleaned(path))
    ensures Cleaned(host + ['/'] + path) == (if host == "." then [] else [host]) + Cleaned(path)
  {
    var base := if host == "." then [] else [host];
    SplitUnder(host, path);
    assert ([host] + Split(path))[1..] == Split(path);
    assert [] + [host] == [host] && [] + [".."] == [".."];
    CleanedBelow(base, Split(path), []);
    assert base + [] == base;
  }

  lemma CleanInHost(host: string, path: string)
    requires host != "" && Lacks(host, '/') && AllPlain(Cleaned(path)) && Cleaned(path) != []
    ensures Clean(host + ['/'] + path) ==
            if host == "." then Rejoined(Cleaned(path)) else host + ['/'] + Rejoined(Cleaned(path))
  {
    var whole := host + ['/'] + path;
    CleanedInHost(host, path);
    assert whole[0] == host[0];
    CleanIsRejoined(whole);
    if host != "." {
      JoinCons(host, Cleaned(path));
    } else {
      assert [] + Cleaned(path) == Cleaned(path);
    }
  }

  /** Joining such a name to a directory in a host, which goes when it is ".". */
  lemma JoinInHost(host: string, dir: string, name: string)
    requires host != "" && Lacks(host, '/')
    requires Plain(dir) && Lacks(dir, '/') && Contained(dir, name)
    ensures PathJoin([host, dir, name]) ==
            if host == "." then PathJoin([dir, name]) else host + ['/'] + PathJoin([dir, name])
  {
    PathJoinOfTwo(dir, name);
    if name == "" {
      NothingLast(host, dir);
      NothingJoined(dir);
      CleanKeepsPlain([dir], false, []);
      assert Split(dir) == [dir] && [] + [dir] == [dir];
      CleanInHost(host, dir);
    } else {
      NonEmptyOfThree(host, dir, name);
      CleanInHost(host, dir + ['/'] + name);
    }
  }

  /** An extension has one dot, at its front. */
  lemma ExtHasOneDot(s: string)
    ensures Ext(s) != "" ==> Ext(s)[0] == '.' && Lacks(Ext(s)[1..], '.')
  {
  }
}
