/** Directory trees as maps from paths to nodes, walked in lexical order, and the in-memory file
    system that kustomize works on. */
module Files {
  import opened Strs
  import opened Paths

  /** File contents; what they encode is left to the codecs. */
  type Bytes = string

  /** The names from the root down; [] is the root. */
  type Path = seq<string>

  datatype Node = Dir | File(data: Bytes)

  type Tree = map<Path, Node>

  predicate GoodName(name: string) { Plain(name) && Lacks(name, '/') }

  predicate GoodPath(p: Path) { forall k | 0 <= k < |p| :: GoodName(p[k]) }

  /** The path of the directory something is in. */
  function Parent(p: Path): Path
    requires p != []
  {
    p[..|p| - 1]
  }

  /** The root is a directory, and so is the parent of everything else. */
  ghost predicate WellFormed(t: Tree) {
    && [] in t && t[[]] == Dir
    && (forall p | p in t :: GoodPath(p))
    && (forall p {:trigger Parent(p)} | p in t && p != [] :: Parent(p) in t && t[Parent(p)] == Dir)
  }

  lemma {:induction false} AncestorsAreDirs(t: Tree, p: Path, k: nat)
    requires WellFormed(t) && p in t && k < |p|
    ensures p[..k] in t && t[p[..k]] == Dir
    decreases |p|
  {
    var parent := Parent(p);
    if k < |p| - 1 {
      AncestorsAreDirs(t, parent, k);
      assert parent[..k] == p[..k];
    }
  }

  function FilesOf(t: Tree): map<Path, Bytes> {
    map p | p in t && t[p].File? :: t[p].data
  }

  function DirsOf(t: Tree): set<Path> { set p | p in t && t[p].Dir? }

  // ---------- Walking ----------

  predicate TextLe(a: string, b: string) {
    |a| == 0 || (|b| > 0 && (a[0] < b[0] || (a[0] == b[0] && TextLe(a[1..], b[1..]))))
  }

  /** Directories before their contents, names in lexical order. */
  predicate PathLe(a: Path, b: Path) {
    |a| == 0 || (|b| > 0 && if a[0] == b[0] then PathLe(a[1..], b[1..]) else TextLe(a[0], b[0]))
  }

  lemma {:induction false} TextOrder(a: string, b: string)
    ensures TextLe(a, b) || TextLe(b, a)
    ensures TextLe(a, b) && TextLe(b, a) ==> a == b
  {
    if |a| > 0 && |b| > 0 {
      TextOrder(a[1..], b[1..]);
      assert a == [a[0]] + a[1..] && b == [b[0]] + b[1..];
    }
  }

  lemma {:induction false} TextTransitive(a: string, b: string, c: string)
    requires TextLe(a, b) && TextLe(b, c)
    ensures TextLe(a, c)
  {
    if |a| > 0 && a[0] == b[0] && b[0] == c[0] {
      TextTransitive(a[1..], b[1..], c[1..]);
    }
  }

  lemma {:induction false} PathOrder(a: Path, b: Path)
    ensures PathLe(a, b) || PathLe(b, a)
    ensures PathLe(a, b) && PathLe(b, a) ==> a == b
  {
    if |a| > 0 && |b| > 0 {
      PathOrder(a[1..], b[1..]);
      TextOrder(a[0], b[0]);
      assert a == [a[0]] + a[1..] && b == [b[0]] + b[1..];
    }
  }

  lemma {:induction false} PathTransitive(a: Path, b: Path, c: Path)
    requires PathLe(a, b) && PathLe(b, c)
    ensures PathLe(a, c)
  {
    if |a| > 0 {
      if a[0] == b[0] && b[0] == c[0] {
        PathTransitive(a[1..], b[1..], c[1..]);
      } else if a[0] != b[0] && b[0] != c[0] {
        TextTransitive(a[0], b[0], c[0]);
        TextOrder(a[0], b[0]);
      }
    }
  }

  /** The first place at which two sequences differ. */
  predicate DifferAt<T(==)>(a: seq<T>, b: seq<T>, k: nat) { k < |a| && k < |b| && a[..k] == b[..k] && a[k] != b[k] }

  lemma DifferLater<T>(a: seq<T>, b: seq<T>, k: nat)
    requires a != [] && b != [] && a[0] == b[0]
    ensures DifferAt(a, b, k + 1) <==> DifferAt(a[1..], b[1..], k)
  {
    if k < |a| - 1 && k < |b| - 1 {
      assert a[..k + 1] == [a[0]] + a[1..][..k] && b[..k + 1] == [b[0]] + b[1..][..k];
      assert a[..k + 1][1..] == a[1..][..k] && b[..k + 1][1..] == b[1..][..k];
    }
  }

  /** The order of texts is that of their first difference, and a text follows what it extends. */
  lemma {:induction false} TextsInOrder(a: string, b: string)
    ensures TextLe(a, b) <==> a <= b || exists k: nat :: DifferAt(a, b, k) && a[k] < b[k]
  {
    if |a| > 0 && |b| > 0 {
      if a[0] == b[0] {
        TextsInOrder(a[1..], b[1..]);
        assert a <= b <==> a[1..] <= b[1..] by { OneMore(a, b); }
        if k: nat :| DifferAt(a[1..], b[1..], k) && a[1..][k] < b[1..][k] {
          DifferLater(a, b, k);
          assert DifferAt(a, b, k + 1) && a[k + 1] < b[k + 1];
        }
        if k: nat :| DifferAt(a, b, k) && a[k] < b[k] {
          DifferLater(a, b, k - 1);
          assert DifferAt(a[1..], b[1..], k - 1) && a[1..][k - 1] < b[1..][k - 1];
        }
      } else {
        OnlyAtFirst(a, b);
      }
    }
  }

  lemma OneMore<T>(a: seq<T>, b: seq<T>)
    requires a != [] && b != [] && a[0] == b[0]
    ensures a <= b <==> a[1..] <= b[1..]
  {
    assert a == [a[0]] + a[1..] && b == [b[0]] + b[1..];
  }

  lemma OnlyAtFirst<T>(a: seq<T>, b: seq<T>)
    requires a != [] && b != [] && a[0] != b[0]
    ensures DifferAt(a, b, 0) && !(a <= b) && forall k: nat | DifferAt(a, b, k) :: k == 0
  {
    assert forall k | 0 < k <= |a| :: a[..k][0] == a[0];
    assert forall k | 0 < k <= |b| :: b[..k][0] == b[0];
  }

  /** So is the order of a walk: by the names at the first difference, a directory before what it has. */
  lemma {:induction false} PathsInOrder(a: Path, b: Path)
    ensures PathLe(a, b) <==> a <= b || exists k: nat :: DifferAt(a, b, k) && TextLe(a[k], b[k])
  {
    if |a| > 0 && |b| > 0 {
      if a[0] == b[0] {
        PathsInOrder(a[1..], b[1..]);
        OneMore(a, b);
        if k: nat :| DifferAt(a[1..], b[1..], k) && TextLe(a[1..][k], b[1..][k]) {
          DifferLater(a, b, k);
          assert DifferAt(a, b, k + 1) && TextLe(a[k + 1], b[k + 1]);
        }
        if k: nat :| DifferAt(a, b, k) && TextLe(a[k], b[k]) {
          DifferLater(a, b, k - 1);
          assert DifferAt(a[1..], b[1..], k - 1) && TextLe(a[1..][k - 1], b[1..][k - 1]);
        }
      } else {
        OnlyAtFirst(a, b);
      }
    }
  }

  predicate Least(p: Path, s: set<Path>) { p in s && forall q | q in s :: PathLe(p, q) }

  lemma {:induction false} LeastExists(s: set<Path>)
    requires s != {}
    ensures exists p :: Least(p, s)
  {
    var p :| p in s;
    var rest := s - {p};
    PathOrder(p, p);
    if rest == {} {
      assert s == {p};
      assert Least(p, s);
    } else {
      LeastExists(rest);
      var q :| Least(q, rest);
      PathOrder(p, q);
      if PathLe(p, q) {
        forall r | r in s ensures PathLe(p, r) {
          if r != p { PathTransitive(p, q, r); }
        }
        assert Least(p, s);
      } else {
        assert Least(q, s);
      }
    }
  }

  predicate Sorted(order: seq<Path>) {
    forall i, j | 0 <= i < j < |order| :: PathLe(order[i], order[j]) && order[i] != order[j]
  }

  lemma LeastIsUnique(s: set<Path>)
    ensures forall p, q | Least(p, s) && Least(q, s) :: p == q
  {
    forall p, q | Least(p, s) && Least(q, s) ensures p == q {
      PathOrder(p, q);
    }
  }

  /** The order in which a walk visits a set of paths. */
  function Walk(s: set<Path>): (order: seq<Path>)
    ensures forall i | 0 <= i < |order| :: order[i] in s
  {
    if s == {} then []
    else
      LeastExists(s);
      LeastIsUnique(s);
      var p :| p in s && Least(p, s);
      [p] + Walk(s - {p})
  }

  lemma LeastComesFirst(p: Path, s: set<Path>, rest: seq<Path>)
    requires Least(p, s) && Sorted(rest) && forall q :: q in rest <==> q in s - {p}
    ensures Sorted([p] + rest)
    ensures forall q :: q in [p] + rest <==> q in s
  {
    forall j | 0 <= j < |rest| ensures PathLe(p, rest[j]) && p != rest[j] {
      assert rest[j] in rest;
    }
  }

  /** A walk is sorted and visits each path once. */
  lemma {:induction false} WalkIsSorted(s: set<Path>)
    ensures Sorted(Walk(s))
    ensures forall p :: p in Walk(s) <==> p in s
  {
    if s != {} {
      LeastExists(s);
      LeastIsUnique(s);
      var p :| p in s && Least(p, s);
      WalkIsSorted(s - {p});
      LeastComesFirst(p, s, Walk(s - {p}));
    }
  }

  // ---------- Writing ----------

  /** The path itself and everything above it. */
  function Upward(p: Path): set<Path> { set k | 0 <= k <= |p| :: p[..k] }

  predicate Legal(p: Path, legal: string -> bool) { forall k | 0 <= k < |p| :: GoodName(p[k]) && legal(p[k]) }

  predicate NoFileAmong(t: Tree, s: set<Path>) { forall q | q in s && q in t :: t[q].Dir? }

  /** `MkdirAll`: None when a name is illegal or a file is in the way. */
  function Mkdir(t: Tree, p: Path, legal: string -> bool): Option<Tree> {
    if Legal(p, legal) && NoFileAmong(t, Upward(p)) then Some(t + map q | q in Upward(p) :: Dir) else None
  }

  /** `WriteFile`, which makes the directories above: None when a name is illegal, a file is in
      the way or the path is a directory. */
  function Write(t: Tree, p: Path, data: Bytes, legal: string -> bool): Option<Tree> {
    if p == [] || !legal(p[|p| - 1]) || !GoodName(p[|p| - 1]) || (p in t && t[p].Dir?) then None
    else
      var t' :- Mkdir(t, Parent(p), legal);
      Some(t'[p := File(data)])
  }

  lemma UpwardIsPrefixes(p: Path)
    ensures forall q :: q in Upward(p) <==> q <= p
  {
    forall q | q <= p ensures q in Upward(p) {
      assert q == p[..|q|];
    }
  }

  lemma UpToParent(p: Path, q: Path)
    requires p != []
    ensures q <= Parent(p) <==> q < p
  {
    if q < p { assert q <= Parent(p); }
  }

  /** Exactly when a directory can be made, and what is then there: itself and everything above it as
      directories, and the rest as it was. */
  lemma MkdirExactly(t: Tree, p: Path, legal: string -> bool)
    ensures var made := Mkdir(t, p, legal);
            && (made.Some? <==> Legal(p, legal) && forall q | q <= p && q in t :: t[q].Dir?)
            && (made.Some? ==> forall q :: && (q in made.value <==> q in t || q <= p)
                                           && (q in made.value ==> made.value[q] == if q <= p then Dir else t[q]))
  {
    UpwardIsPrefixes(p);
  }

  /** The same of a file, and the directories above it. */
  lemma WriteExactly(t: Tree, p: Path, data: Bytes, legal: string -> bool)
    ensures var made := Write(t, p, data, legal);
            && (made.Some? <==> && p != [] && Legal(p, legal) && !(p in t && t[p].Dir?)
                                && forall q | q < p && q in t :: t[q].Dir?)
            && (made.Some? ==> forall q :: && (q in made.value <==> q in t || q <= p)
                                           && (q in made.value ==>
                                                 made.value[q] ==
                                                 if q == p then File(data) else if q < p then Dir else t[q]))
  {
    if p != [] {
      var parent := Parent(p);
      assert p == parent + [p[|p| - 1]];
      assert Legal(p, legal) <==> Legal(parent, legal) && legal(p[|p| - 1]) && GoodName(p[|p| - 1]);
      MkdirExactly(t, parent, legal);
      forall q | q in t ensures q <= parent <==> q < p {
        UpToParent(p, q);
      }
      var made := Write(t, p, data, legal);
      if made.Some? {
        forall q ensures q in made.value <==> q in t || q <= p {
          UpToParent(p, q);
          assert q <= p <==> q < p || q == p;
        }
      }
    }
  }

  /** What every file system here is: well formed, with legal names only. */
  ghost predicate Sound(t: Tree, legal: string -> bool) {
    WellFormed(t) && forall p | p in t :: Legal(p, legal)
  }

  lemma MkdirIsSound(t: Tree, p: Path, legal: string -> bool)
    requires Sound(t, legal) && Mkdir(t, p, legal).Some?
    ensures Sound(Mkdir(t, p, legal).value, legal)
  {
    var t' := Mkdir(t, p, legal).value;
    assert p[..0] == [];
    forall q | q in t'
      ensures GoodPath(q) && Legal(q, legal)
      ensures q != [] ==> Parent(q) in t' && t'[Parent(q)] == Dir
    {
      if q in Upward(p) {
        var k :| 0 <= k <= |p| && p[..k] == q;
        if k > 0 { assert Parent(q) == p[..k - 1]; }
      }
    }
  }

  lemma WriteIsSound(t: Tree, p: Path, data: Bytes, legal: string -> bool)
    requires Sound(t, legal) && Write(t, p, data, legal).Some?
    ensures Sound(Write(t, p, data, legal).value, legal)
  {
    var parent := Parent(p);
    var t' := Mkdir(t, parent, legal).value;
    MkdirIsSound(t, parent, legal);
    assert parent == parent[..|parent|];
    assert parent in Upward(parent);
    assert p == parent + [p[|p| - 1]];
    forall q | q in t' && q != []
      ensures Parent(q) != p
    {
      if q in Upward(parent) { assert |q| <= |parent|; }
    }
    FileIsSound(t', p, data, legal);
  }

  lemma FileIsSound(t: Tree, p: Path, data: Bytes, legal: string -> bool)
    requires Sound(t, legal) && p != [] && Legal(p, legal)
    requires Parent(p) in t && t[Parent(p)] == Dir
    requires forall q | q in t && q != [] :: Parent(q) != p
    ensures Sound(t[p := File(data)], legal)
  {
    var t' := t[p := File(data)];
    forall q | q in t'
      ensures GoodPath(q) && Legal(q, legal)
      ensures q != [] ==> Parent(q) in t' && t'[Parent(q)] == Dir
    {
      if q != p && q != [] { assert Parent(q) != p; }
    }
  }

  /** Making a directory that is there already changes nothing. */
  lemma MkdirAgain(t: Tree, p: Path, legal: string -> bool)
    requires Sound(t, legal) && p in t && t[p].Dir?
    ensures Mkdir(t, p, legal) == Some(t)
  {
    forall q | q in Upward(p)
      ensures q in t && t[q] == Dir
    {
      var k :| 0 <= k <= |p| && p[..k] == q;
      if k < |p| { AncestorsAreDirs(t, p, k); } else { assert q == p; }
    }
    assert t + (map q | q in Upward(p) :: Dir) == t;
  }

  /** What a failed call leaves: some of the directories on the way to `p` made, and nothing else
      changed. */
  ghost predicate PartlyMade(before: Tree, after: Tree, p: Path, legal: string -> bool) {
    exists k :: 0 <= k <= |p| && Mkdir(before, p[..k], legal) == Some(after)
  }

  lemma NothingMade(t: Tree, p: Path, legal: string -> bool)
    requires Sound(t, legal)
    ensures PartlyMade(t, t, p, legal)
  {
    MkdirAgain(t, [], legal);
    assert p[..0] == [];
  }

  /** The in-memory file system. */
  class FileSystem {
    const legal: string -> bool
    var nodes: Tree

    ghost predicate Valid() reads this { Sound(nodes, legal) }

    constructor (legal: string -> bool)
      ensures this.legal == legal && nodes == map[[] := Dir] && Valid()
    {
      this.legal := legal;
      nodes := map[[] := Dir];
    }

    /** Makes some of the directories on the way to `p`. */
    method MakeSome(p: Path)
      requires Valid()
      modifies this
      ensures Valid()
      ensures PartlyMade(old(nodes), nodes, p, legal)
    {
      var k: int := *;
      NothingMade(nodes, p, legal);
      if 0 <= k <= |p| {
        var made := Mkdir(nodes, p[..k], legal);
        if made.Some? {
          MkdirIsSound(nodes, p[..k], legal);
          nodes := made.value;
        }
      }
    }

    method MkdirAll(p: Path) returns (ok: bool)
      requires Valid()
      modifies this
      ensures Valid()
      ensures ok <==> Mkdir(old(nodes), p, legal).Some?
      ensures ok ==> nodes == Mkdir(old(nodes), p, legal).value
      ensures !ok ==> PartlyMade(old(nodes), nodes, p, legal)
    {
      var made := Mkdir(nodes, p, legal);
      ok := made.Some?;
      if ok {
        MkdirIsSound(nodes, p, legal);
        nodes := made.value;
      } else {
        MakeSome(p);
      }
    }

    method WriteFile(p: Path, data: Bytes) returns (ok: bool)
      requires Valid()
      modifies this
      ensures Valid()
      ensures ok <==> Write(old(nodes), p, data, legal).Some?
      ensures ok ==> nodes == Write(old(nodes), p, data, legal).value
      ensures !ok ==> PartlyMade(old(nodes), nodes, if p == [] then p else Parent(p), legal)
    {
      var written := Write(nodes, p, data, legal);
      ok := written.Some?;
      if ok {
        WriteIsSound(nodes, p, data, legal);
        nodes := written.value;
      } else {
        MakeSome(if p == [] then p else Parent(p));
      }
    }
  }
}
