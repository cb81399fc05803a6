/** Archives as streams of entries: reading one into a file system, and what writing one does
    with a tree. Compression and the header format are not modelled. */
module Archives {
  import opened Strs
  import opened Paths
  import opened Files

  datatype EntryType = Regular | Directory | Other

  datatype Entry = Entry(name: string, kind: EntryType, data: Bytes)

  /** What the archive reader hands over at each turn before the end of the archive. */
  datatype Item = Next(entry: Entry) | NoHeader | Corrupt

  /** None stands for bytes that are not a compressed archive. */
  type Archive = Option<seq<Item>>

  /** The path an entry name stands for. */
  function PathOf(name: string): Path { CleanSegments(Split(name), true, []) }

  function Extract(t: Tree, item: Item, legal: string -> bool): Option<Tree> {
    match item
    case Corrupt => None
    case NoHeader => Some(t)
    case Next(e) =>
      match e.kind
      case Directory => Mkdir(t, PathOf(e.name), legal)
      case Regular => Write(t, PathOf(e.name), e.data, legal)
      case Other => Some(t)
  }

  function ExtractAll(t: Tree, items: seq<Item>, legal: string -> bool): Option<Tree>
    decreases |items|
  {
    if items == [] then Some(t)
    else
      var t' :- Extract(t, items[0], legal);
      ExtractAll(t', items[1..], legal)
  }

  const EMPTY: Tree := map[[] := Dir]

  function Unpacked(archive: Archive, legal: string -> bool): Option<Tree> {
    var items :- archive;
    ExtractAll(EMPTY, items, legal)
  }

  /** `utgz` */
  method Utgz(archive: Archive, legal: string -> bool) returns (ok: bool, fs: FileSystem)
    ensures fresh(fs) && fs.legal == legal && fs.Valid()
    ensures ok <==> Unpacked(archive, legal).Some?
    ensures ok ==> fs.nodes == Unpacked(archive, legal).value
  {
    fs := new FileSystem(legal);
    if archive.None? {
      return false, fs;
    }
    var items := archive.value;
    assert items[0..] == items;
    for i := 0 to |items|
      invariant fresh(fs) && fs.legal == legal && fs.Valid()
      invariant ExtractAll(EMPTY, items, legal) == ExtractAll(fs.nodes, items[i..], legal)
    {
      assert items[i..][0] == items[i] && items[i..][1..] == items[i + 1..];
      match items[i] {
        case Corrupt =>
          return false, fs;
        case NoHeader =>
        case Next(e) =>
          match e.kind {
            case Directory =>
              var made := fs.MkdirAll(PathOf(e.name));
              if !made { return false, fs; }
            case Regular =>
              var written := fs.WriteFile(PathOf(e.name), e.data);
              if !written { return false, fs; }
            case Other =>
          }
      }
    }
    assert items[|items|..] == [];
    ok := true;
  }

  // ---------- What an archive unpacks to ----------

  predicate EntryIs(items: seq<Item>, i: nat, kind: EntryType, p: Path) {
    i < |items| && items[i].Next? && items[i].entry.kind == kind && PathOf(items[i].entry.name) == p
  }

  /** A directory by some entries: the root, one of theirs, or one above a file or directory of theirs. */
  ghost predicate DirBy(items: seq<Item>, q: Path) {
    q == [] || exists i: nat, p :: DirByEntry(items, i, p, q)
  }

  predicate DirByEntry(items: seq<Item>, i: nat, p: Path, q: Path) {
    (EntryIs(items, i, Directory, p) && q <= p) || (EntryIs(items, i, Regular, p) && q < p)
  }

  /** A file by some entries, with the data of the last one of its path. */
  ghost predicate FileBy(items: seq<Item>, p: Path, data: Bytes) { exists i: nat :: FileByEntry(items, i, p, data) }

  predicate FileByEntry(items: seq<Item>, i: nat, p: Path, data: Bytes) {
    && EntryIs(items, i, Regular, p) && items[i].entry.data == data
    && forall j | i < j < |items| :: !EntryIs(items, j, Regular, p)
  }

  ghost predicate SomeFileBy(items: seq<Item>, p: Path) { exists i: nat :: EntryIs(items, i, Regular, p) }

  /** The tree of some entries. */
  ghost predicate TreeBy(items: seq<Item>, t: Tree) {
    && (forall q :: q in t && t[q] == Dir <==> DirBy(items, q))
    && (forall q, data :: q in t && t[q] == File(data) <==> FileBy(items, q, data))
  }

  /** An entry that can follow others: there is a header or none, but no error, its names are legal, no
      file is in its way, and a file's path is no directory. */
  ghost predicate CanFollow(items: seq<Item>, item: Item, legal: string -> bool) {
    match item
    case Corrupt => false
    case NoHeader => true
    case Next(e) =>
      var p := PathOf(e.name);
      match e.kind
      case Directory => Legal(p, legal) && forall q | q <= p :: !SomeFileBy(items, q)
      case Regular =>
        p != [] && Legal(p, legal) && !DirBy(items, p) && forall q | q < p :: !SomeFileBy(items, q)
      case Other => true
  }

  lemma {:induction false} ExtractLast(t: Tree, items: seq<Item>, item: Item, legal: string -> bool)
    ensures var front := ExtractAll(t, items, legal);
            ExtractAll(t, items + [item], legal) == if front.Some? then Extract(front.value, item, legal) else None
    decreases |items|
  {
    if items == [] {
      assert ([] + [item])[1..] == [];
    } else {
      assert (items + [item])[1..] == items[1..] + [item];
      var next := Extract(t, items[0], legal);
      if next.Some? {
        ExtractLast(next.value, items[1..], item, legal);
      }
    }
  }

  lemma EntryIsOneMore(items: seq<Item>, item: Item, i: nat, kind: EntryType, p: Path)
    ensures EntryIs(items + [item], i, kind, p) <==>
              EntryIs(items, i, kind, p) || (i == |items| && EntryIs([item], 0, kind, p))
  {
  }

  lemma DirByOneMore(items: seq<Item>, item: Item, q: Path)
    ensures DirBy(items + [item], q) <==> DirBy(items, q) || exists p :: DirByEntry([item], 0, p, q)
  {
    var more := items + [item];
    if i: nat, p :| DirByEntry(more, i, p, q) {
      assert if i < |items| then DirByEntry(items, i, p, q) else DirByEntry([item], 0, p, q);
    }
    if i: nat, p :| DirByEntry(items, i, p, q) {
      assert DirByEntry(more, i, p, q);
    }
    if p :| DirByEntry([item], 0, p, q) {
      assert DirByEntry(more, |items|, p, q);
    }
  }

  lemma FileByOneMore(items: seq<Item>, item: Item, p: Path, data: Bytes)
    ensures FileBy(items + [item], p, data) <==>
              if EntryIs([item], 0, Regular, p) then item.entry.data == data else FileBy(items, p, data)
  {
    var more := items + [item];
    EntryIsOneMore(items, item, |items|, Regular, p);
    if i: nat :| FileByEntry(more, i, p, data) {
      EntryIsOneMore(items, item, i, Regular, p);
      if i < |items| {
        assert FileByEntry(items, i, p, data) by {
          forall j | i < j < |items| ensures !EntryIs(items, j, Regular, p) {
            EntryIsOneMore(items, item, j, Regular, p);
          }
        }
      }
    }
    if EntryIs([item], 0, Regular, p) && item.entry.data == data {
      assert FileByEntry(more, |items|, p, data);
    }
    if i: nat :| !EntryIs([item], 0, Regular, p) && FileByEntry(items, i, p, data) {
      forall j | i < j < |more| ensures !EntryIs(more, j, Regular, p) {
        EntryIsOneMore(items, item, j, Regular, p);
      }
      assert FileByEntry(more, i, p, data);
    }
  }

  lemma {:induction false} SomeFileHasData(items: seq<Item>, p: Path)
    ensures SomeFileBy(items, p) <==> exists data :: FileBy(items, p, data)
  {
    if data :| FileBy(items, p, data) {
      var i: nat :| FileByEntry(items, i, p, data);
    }
    if i: nat :| EntryIs(items, i, Regular, p) {
      var front, last := items[..|items| - 1], items[|items| - 1];
      assert items == front + [last];
      if EntryIs([last], 0, Regular, p) {
        FileByOneMore(front, last, p, last.entry.data);
      } else {
        EntryIsOneMore(front, last, i, Regular, p);
        SomeFileHasData(front, p);
        var data :| FileBy(front, p, data);
        FileByOneMore(front, last, p, data);
      }
    }
  }

  lemma FilesInTree(items: seq<Item>, t: Tree)
    requires TreeBy(items, t)
    ensures forall q :: SomeFileBy(items, q) <==> q in t && t[q].File?
    ensures forall q :: DirBy(items, q) <==> q in t && t[q].Dir?
  {
    forall q ensures SomeFileBy(items, q) <==> q in t && t[q].File? {
      SomeFileHasData(items, q);
      if q in t && t[q].File? {
        assert FileBy(items, q, t[q].data);
      }
    }
  }

  lemma ExtractableExactly(items: seq<Item>, t: Tree, item: Item, legal: string -> bool)
    requires TreeBy(items, t)
    ensures Extract(t, item, legal).Some? <==> CanFollow(items, item, legal)
  {
    FilesInTree(items, t);
    if item.Next? {
      var p := PathOf(item.entry.name);
      MkdirExactly(t, p, legal);
      WriteExactly(t, p, item.entry.data, legal);
    }
  }

  /** What extracting one entry makes of a path. */
  lemma ExtractedAt(t: Tree, item: Item, legal: string -> bool, q: Path)
    requires Extract(t, item, legal).Some?
    ensures var after := Extract(t, item, legal).value;
            if EntryIs([item], 0, Regular, q) then q in after && after[q] == File(item.entry.data)
            else if exists p :: DirByEntry([item], 0, p, q) then q in after && after[q] == Dir
            else (q in after <==> q in t) && (q in t ==> after[q] == t[q])
  {
    if item.Next? {
      var p := PathOf(item.entry.name);
      MkdirExactly(t, p, legal);
      WriteExactly(t, p, item.entry.data, legal);
      assert DirByEntry([item], 0, p, q) <==> exists p :: DirByEntry([item], 0, p, q);
    }
  }

  lemma ExtractExactly(items: seq<Item>, t: Tree, item: Item, legal: string -> bool)
    requires TreeBy(items, t) && CanFollow(items, item, legal) && Extract(t, item, legal).Some?
    ensures TreeBy(items + [item], Extract(t, item, legal).value)
  {
    var after := Extract(t, item, legal).value;
    FilesInTree(items, t);
    forall q
      ensures q in after && after[q] == Dir <==> DirBy(items + [item], q)
      ensures forall data :: q in after && after[q] == File(data) <==> FileBy(items + [item], q, data)
    {
      ExtractedAt(t, item, legal, q);
      DirByOneMore(items, item, q);
      forall data ensures FileBy(items + [item], q, data) <==>
                            if EntryIs([item], 0, Regular, q) then item.entry.data == data else FileBy(items, q, data) {
        FileByOneMore(items, item, q, data);
      }
      FilesMeet(items, item, legal, q);
    }
  }

  /** What follows makes no file of a directory, nor the reverse. */
  lemma FilesMeet(items: seq<Item>, item: Item, legal: string -> bool, q: Path)
    requires CanFollow(items, item, legal)
    ensures EntryIs([item], 0, Regular, q) ==> !DirBy(items, q) && !exists p :: DirByEntry([item], 0, p, q)
    ensures (exists p :: DirByEntry([item], 0, p, q)) ==> !SomeFileBy(items, q)
  {
  }

  lemma NothingUnpacked()
    ensures TreeBy([], EMPTY)
  {
  }

  /** Exactly which archives unpack, and to what. Each entry must be able to follow those before it; the
      tree then has the files of the regular entries, a later one over an earlier one, the directories of
      the directory entries, all directories above either, and nothing else. */
  lemma {:induction false} UnpackedExactly(items: seq<Item>, legal: string -> bool)
    ensures var t := Unpacked(Some(items), legal);
            && (t.Some? <==> forall n | 0 <= n < |items| :: CanFollow(items[..n], items[n], legal))
            && (t.Some? ==> TreeBy(items, t.value))
  {
    if items == [] {
      NothingUnpacked();
    } else {
      var m := |items| - 1;
      var front := items[..m];
      UnpackedExactly(front, legal);
      ExtractLast(EMPTY, front, items[m], legal);
      assert items == front + [items[m]];
      assert forall n | 0 <= n < m :: front[..n] == items[..n];
      var t := Unpacked(Some(front), legal);
      if t.Some? {
        ExtractableExactly(front, t.value, items[m], legal);
        if CanFollow(front, items[m], legal) {
          ExtractExactly(front, t.value, items[m], legal);
        }
      }
    }
  }

  /** What an archive unpacks to is a sound tree. */
  lemma {:induction false} UnpackedIsSound(t: Tree, items: seq<Item>, legal: string -> bool)
    requires Sound(t, legal) && ExtractAll(t, items, legal).Some?
    ensures Sound(ExtractAll(t, items, legal).value, legal)
    decreases |items|
  {
    if items != [] {
      var next := Extract(t, items[0], legal).value;
      if items[0].Next? && items[0].entry.kind.Directory? {
        MkdirIsSound(t, PathOf(items[0].entry.name), legal);
      } else if items[0].Next? && items[0].entry.kind.Regular? {
        WriteIsSound(t, PathOf(items[0].entry.name), items[0].entry.data, legal);
      }
      UnpackedIsSound(next, items[1..], legal);
    }
  }

  // ---------- Writing ----------

  /** The regular files of a tree, as entries named from the root down, in walk order. */
  function EntryOf(p: Path, t: Tree): seq<Item> {
    if p in t && t[p].File? then [Next(Entry(Join(p), Regular, t[p].data))] else []
  }

  function Entries(order: seq<Path>, t: Tree): seq<Item> {
    if order == [] then [] else EntryOf(order[0], t) + Entries(order[1..], t)
  }

  function Packed(t: Tree): seq<Item> { Entries(Walk(t.Keys), t) }

  lemma EntriesStep(order: seq<Path>, t: Tree, i: nat, items: seq<Item>)
    requires i < |order|
    ensures items + Entries(order[i..], t) == (items + EntryOf(order[i], t)) + Entries(order[i + 1..], t)
  {
    assert order[i..][0] == order[i] && order[i..][1..] == order[i + 1..];
  }

  // ---------- Reading back what was written ----------

  lemma PathOfJoined(p: Path)
    requires p != [] && GoodPath(p)
    ensures PathOf(Join(p)) == p
  {
    SplitJoin(p);
    CleanKeepsPlain(p, true, []);
    assert [] + p == p;
  }

  /** The root, and everything that is one of some paths or above one. */
  ghost predicate Covered(q: Path, s: set<Path>) { q == [] || exists p :: p in s && q <= p }

  /** A tree without the files outside `s` and the directories above none of `s`. */
  ghost function Skeleton(t: Tree, s: set<Path>): Tree {
    map q | q in t && Covered(q, s) :: t[q]
  }

  ghost predicate FilesAmong(t: Tree, s: set<Path>) {
    forall p | p in s :: p in t && t[p].File?
  }

  lemma AboveIsDir(t: Tree, p: Path, q: Path)
    requires WellFormed(t) && p in t && q < p
    ensures q in t && t[q] == Dir
  {
    AncestorsAreDirs(t, p, |q|);
    assert q == p[..|q|];
  }

  lemma CoveredGrows(s: set<Path>, p: Path)
    ensures forall q :: Covered(q, s + {p}) <==> Covered(q, s) || q <= p
  {
    forall q | q <= p ensures Covered(q, s + {p}) {
      assert p in s + {p};
    }
  }

  /** Above a file there are directories only, so no file of the skeleton is in the way. */
  lemma ParentIsMade(t: Tree, s: set<Path>, p: Path, legal: string -> bool)
    requires Sound(t, legal) && FilesAmong(t, s) && p in t && t[p].File?
    ensures p != []
    ensures var made := Mkdir(Skeleton(t, s), Parent(p), legal);
            && made.Some?
            && forall q :: (q in made.value <==> q in Skeleton(t, s) || q < p)
                           && (q in made.value ==> q in t && made.value[q] == t[q])
  {
    var parent := Parent(p);
    UpwardIsPrefixes(parent);
    forall q | q in Upward(parent)
      ensures q in t && t[q] == Dir
    {
      UpToParent(p, q);
      AboveIsDir(t, p, q);
    }
    assert Legal(parent, legal);
    forall q
      ensures q in Upward(parent) <==> q < p
    {
      UpToParent(p, q);
    }
  }

  lemma SkeletonGrows(t: Tree, s: set<Path>, p: Path, made: Tree)
    requires WellFormed(t) && p in t
    requires forall q :: q in made <==> q in Skeleton(t, s) || q < p
    requires forall q | q in made :: q in t && made[q] == t[q]
    ensures made[p := t[p]] == Skeleton(t, s + {p})
  {
    CoveredGrows(s, p);
    var got, want := made[p := t[p]], Skeleton(t, s + {p});
    forall q | q in want ensures q in got {
      if q != p && q <= p { assert q < p; }
    }
    forall q | q in got ensures q in want {
      if q == p || q < p { assert q <= p; }
    }
  }

  /** Extracting one more file makes it, its directories, and nothing else. */
  lemma ExtractFile(t: Tree, s: set<Path>, p: Path, legal: string -> bool)
    requires Sound(t, legal) && FilesAmong(t, s) && p in t && t[p].File?
    ensures Write(Skeleton(t, s), p, t[p].data, legal) == Some(Skeleton(t, s + {p}))
  {
    ParentIsMade(t, s, p, legal);
    var made := Mkdir(Skeleton(t, s), Parent(p), legal).value;
    SkeletonGrows(t, s, p, made);
    assert File(t[p].data) == t[p];
  }

  ghost function FilesIn(order: seq<Path>, t: Tree): set<Path> {
    set p | p in order && p in t && t[p].File?
  }

  lemma {:induction false} ExtractEntries(t: Tree, s: set<Path>, order: seq<Path>, legal: string -> bool)
    requires Sound(t, legal) && FilesAmong(t, s)
    ensures ExtractAll(Skeleton(t, s), Entries(order, t), legal) == Some(Skeleton(t, s + FilesIn(order, t)))
    decreases |order|
  {
    if order == [] {
      assert s + FilesIn(order, t) == s;
    } else {
      var p, rest := order[0], order[1..];
      assert order == [p] + rest;
      if p in t && t[p].File? {
        assert FilesIn(order, t) == {p} + FilesIn(rest, t);
        ExtractFile(t, s, p, legal);
        PathOfJoined(p);
        ExtractEntries(t, s + {p}, rest, legal);
        assert s + {p} + FilesIn(rest, t) == s + FilesIn(order, t);
        ExtractFirst(Skeleton(t, s), Next(Entry(Join(p), Regular, t[p].data)), Entries(rest, t), legal);
      } else {
        assert FilesIn(order, t) == FilesIn(rest, t);
        ExtractEntries(t, s, rest, legal);
        assert [] + Entries(rest, t) == Entries(rest, t);
      }
    }
  }

  lemma ExtractFirst(t: Tree, item: Item, items: seq<Item>, legal: string -> bool)
    ensures ExtractAll(t, [item] + items, legal) ==
            if Extract(t, item, legal).Some? then ExtractAll(Extract(t, item, legal).value, items, legal) else None
  {
    assert ([item] + items)[1..] == items;
  }

  /** Transport of a tree: packing and unpacking gives exactly the files, and exactly the
      directories above files (and the root); empty directories vanish. */
  lemma UnpackingWhatWasPacked(t: Tree, legal: string -> bool)
    requires Sound(t, legal)
    ensures Unpacked(Some(Packed(t)), legal).Some?
    ensures var t' := Unpacked(Some(Packed(t)), legal).value;
            && FilesOf(t') == FilesOf(t)
            && forall q :: q in DirsOf(t') <==> q == [] || exists p :: p in FilesOf(t) && q < p
  {
    var s := FilesIn(Walk(t.Keys), t);
    WalkIsSorted(t.Keys);
    assert s == FilesOf(t).Keys;
    ExtractEntries(t, {}, Walk(t.Keys), legal);
    EmptySkeleton(t);
    assert {} + s == s;
    SkeletonParts(t, s);
  }

  lemma EmptySkeleton(t: Tree)
    requires WellFormed(t)
    ensures Skeleton(t, {}) == EMPTY
  {
  }

  lemma SkeletonParts(t: Tree, s: set<Path>)
    requires WellFormed(t) && s == FilesOf(t).Keys
    ensures var t' := Skeleton(t, s);
            && FilesOf(t') == FilesOf(t)
            && forall q :: q in DirsOf(t') <==> q == [] || exists p :: p in FilesOf(t) && q < p
  {
    var t' := Skeleton(t, s);
    forall p | p in s ensures p in t' {
      assert p <= p;
    }
    forall q
      ensures q in DirsOf(t') <==> q == [] || exists p :: p in FilesOf(t) && q < p
    {
      if q != [] && q in DirsOf(t') {
        var p :| p in s && q <= p;
        assert q != p;
        assert q < p;
      }
      if p :| p in FilesOf(t) && q < p {
        AboveIsDir(t, p, q);
        assert p in s && q <= p;
      }
    }
  }
}
