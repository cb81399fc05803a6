/** Packages of charts: how helm reads a chart from disk and from an archive, and the archive made
    of a chart. What helm makes of the files is its own affair. */
module Charts {
  import opened Strs
  import opened Paths
  import opened Files
  import opened Archives
  import opened Manifests

  /** Helm: what its ignore rules skip in a directory, the files of an archive that is already one,
      which files make a chart, and what a chart of some files renders to. */
  datatype Helm = Helm(
    skips: (Source, Path) -> bool,
    open: Bytes -> Option<map<Path, Bytes>>,
    loads: map<Path, Bytes> -> bool,
    render: map<Path, Bytes> -> Option<Bytes>)

  /** A path is skipped with any directory it is in. */
  predicate Skipped(src: Source, p: Path, helm: Helm) { exists k | 1 <= k <= |p| :: helm.skips(src, p[..k]) }

  /** The files helm reads at a path: those of an archive, or those of a directory that are not
      skipped, every one of which must be there to be read. */
  function DiskFiles(src: Source, helm: Helm): Option<map<Path, Bytes>> {
    if [] !in src || Locked(src[[]]) then None
    else if src[[]].SourceFile? then helm.open(src[[]].data)
    else if exists p | p in src :: Locked(src[p]) && !Skipped(src, p, helm) then None
    else Some(map p | p in src && src[p].SourceFile? && !Skipped(src, p, helm) :: src[p].data)
  }

  /** The chart at a path, as the files it is made of. */
  function DiskChart(src: Source, helm: Helm): Option<map<Path, Bytes>> {
    var files :- DiskFiles(src, helm);
    if helm.loads(files) then Some(files) else None
  }

  /** A chart that is an archive already is stored byte for byte; a directory is archived. */
  datatype ChartData = Stored(data: Bytes) | Built(items: seq<Item>)

  /** The path of an entry relative to the directory the chart stands in; `at` is the chart's
      absolute path and `p` a path below it. */
  function Relative(at: Path, p: Path): Path {
    if at == [] then p else [at[|at| - 1]] + p
  }

  function EntryName(at: Path, p: Path): string {
    if Relative(at, p) == [] then "." else Join(Relative(at, p))
  }

  /** The entries the walk writes at one path; None when it stops there. The walk reports a
      directory that it cannot list by a second call, and the error is passed over. */
  function EntryAt(at: Path, p: Path, n: SourceNode): Option<seq<Item>> {
    var dir := Next(Entry(EntryName(at, p), Directory, ""));
    match n
    case SourceDir => Some([dir])
    case SourceFile(data) => Some([Next(Entry(EntryName(at, p), Regular, data))])
    case LockedDir => Some([dir, dir])
    case LockedFile => None
  }

  function Prepend(items: seq<Item>, rest: Option<seq<Item>>): Option<seq<Item>> {
    if rest.None? then None else Some(items + rest.value)
  }

  function ChartEntries(order: seq<Path>, at: Path, src: Source): Option<seq<Item>>
    requires forall i | 0 <= i < |order| :: order[i] in src
  {
    if order == [] then Some([])
    else
      var first :- EntryAt(at, order[0], src[order[0]]);
      Prepend(first, ChartEntries(order[1..], at, src))
  }

  predicate IsArchiveName(at: Path) {
    at != [] && (Ext(at[|at| - 1]) == ".tgz" || Ext(at[|at| - 1]) == ".tar.gz")
  }

  /** What the archive of a chart is. `at` is None for a chart that was loaded from a registry,
      and `src` None when nothing stands at the path. */
  function ChartArchive(at: Option<Path>, src: Option<Source>): Option<ChartData>
    requires src.Some? ==> [] in src.value
  {
    if at.None? || src.None? then None
    else
      var root := src.value[[]];
      if IsArchiveName(at.value) then
        if root.SourceFile? then Some(Stored(root.data)) else None
      else if !IsDirectory(root) then None
      else
        var items :- ChartEntries(Walk(src.value.Keys), at.value, src.value);
        Some(Built(items))
  }

  /** `Chart.tgz` */
  method Tgz(at: Option<Path>, src: Option<Source>) returns (data: Option<ChartData>)
    requires src.Some? ==> [] in src.value
    ensures data == ChartArchive(at, src)
  {
    if at.None? || src.None? {
      return None;
    }
    var path, tree := at.value, src.value;
    if IsArchiveName(path) {
      return if tree[[]].SourceFile? then Some(Stored(tree[[]].data)) else None;
    }
    if !IsDirectory(tree[[]]) {
      return None;
    }
    var order := Walk(tree.Keys);
    var items: seq<Item> := [];
    assert order[0..] == order;
    PrependNothing(ChartEntries(order, path, tree));
    for i := 0 to |order|
      invariant ChartEntries(order, path, tree) == Prepend(items, ChartEntries(order[i..], path, tree))
    {
      var written := EntryAt(path, order[i], tree[order[i]]);
      ChartStep(order, i, path, tree, items);
      if written.None? {
        return None;
      }
      items := items + written.value;
    }
    assert order[|order|..] == [];
    assert items + [] == items;
    data := Some(Built(items));
  }

  lemma PrependNothing(rest: Option<seq<Item>>)
    ensures Prepend([], rest) == rest
  {
    if rest.Some? {
      assert [] + rest.value == rest.value;
    }
  }

  lemma ChartStep(order: seq<Path>, i: nat, at: Path, src: Source, items: seq<Item>)
    requires i < |order| && forall i | 0 <= i < |order| :: order[i] in src
    ensures var written := EntryAt(at, order[i], src[order[i]]);
            Prepend(items, ChartEntries(order[i..], at, src)) ==
            if written.None? then None else Prepend(items + written.value, ChartEntries(order[i + 1..], at, src))
  {
    assert order[i..][0] == order[i] && order[i..][1..] == order[i + 1..];
    var written, rest := EntryAt(at, order[i], src[order[i]]), ChartEntries(order[i + 1..], at, src);
    if written.Some? && rest.Some? {
      assert items + (written.value + rest.value) == items + written.value + rest.value;
    }
  }

  // ---------- Recovering the directory ----------

  /** The files in an archive, by their paths without the first component. */
  function Recovered(items: seq<Item>): map<Path, Bytes> {
    if items == [] then map[]
    else
      var front, last := Recovered(items[..|items| - 1]), items[|items| - 1];
      if last.Next? && last.entry.kind.Regular? && PathOf(last.entry.name) != []
      then front[PathOf(last.entry.name)[1..] := last.entry.data]
      else front
  }

  /** The first component of every entry name is `base`. */
  predicate AllUnder(items: seq<Item>, base: string) {
    forall i | 0 <= i < |items| ::
      items[i].Next? && PathOf(items[i].entry.name) != [] && PathOf(items[i].entry.name)[0] == base
  }

  lemma NameOfEntry(at: Path, p: Path)
    requires at != [] && GoodName(at[|at| - 1]) && GoodPath(p)
    ensures PathOf(EntryName(at, p)) == [at[|at| - 1]] + p
  {
    PathOfJoined([at[|at| - 1]] + p);
  }

  /** The files among some paths. */
  function FilesAt(order: seq<Path>, src: Source): map<Path, Bytes>
    requires forall i | 0 <= i < |order| :: order[i] in src
  {
    map p | p in order && src[p].SourceFile? :: src[p].data
  }

  lemma FilesAtStep(order: seq<Path>, i: nat, src: Source)
    requires i < |order| && forall i | 0 <= i < |order| :: order[i] in src
    ensures var p := order[i];
            FilesAt(order[..i + 1], src) ==
            if src[p].SourceFile? then FilesAt(order[..i], src)[p := src[p].data] else FilesAt(order[..i], src)
  {
    assert order[..i + 1] == order[..i] + [order[i]];
  }

  lemma RecoveredOneMore(items: seq<Item>, item: Item)
    requires item.Next? && PathOf(item.entry.name) != []
    ensures Recovered(items + [item]) ==
            if item.entry.kind.Regular?
            then Recovered(items)[PathOf(item.entry.name)[1..] := item.entry.data] else Recovered(items)
  {
    assert (items + [item])[..|items|] == items;
  }

  /** One step of the walk adds the file, if it is one, and entries under the base name. */
  lemma EntriesAtPath(at: Path, p: Path, n: SourceNode, items: seq<Item>)
    requires at != [] && GoodName(at[|at| - 1]) && GoodPath(p) && !n.LockedFile?
    requires AllUnder(items, at[|at| - 1])
    ensures var written := EntryAt(at, p, n);
            && written.Some? && AllUnder(items + written.value, at[|at| - 1])
            && Recovered(items + written.value) ==
               if n.SourceFile? then Recovered(items)[p := n.data] else Recovered(items)
  {
    NameOfEntry(at, p);
    var written := EntryAt(at, p, n).value;
    RecoveredOneMore(items, written[0]);
    if n.LockedDir? {
      RecoveredOneMore(items + [written[0]], written[1]);
      assert items + written == items + [written[0]] + [written[1]];
    } else {
      assert items + written == items + [written[0]];
    }
  }

  /** The entries a walk writes. */
  lemma EntriesOfWalk(order: seq<Path>, at: Path, src: Source) returns (items: seq<Item>)
    requires at != [] && GoodName(at[|at| - 1])
    requires forall i | 0 <= i < |order| :: order[i] in src && GoodPath(order[i]) && !src[order[i]].LockedFile?
    ensures ChartEntries(order, at, src) == Some(items)
    ensures AllUnder(items, at[|at| - 1])
    ensures Recovered(items) == FilesAt(order, src)
  {
    items := [];
    assert order[0..] == order;
    PrependNothing(ChartEntries(order, at, src));
    for i := 0 to |order|
      invariant ChartEntries(order, at, src) == Prepend(items, ChartEntries(order[i..], at, src))
      invariant AllUnder(items, at[|at| - 1])
      invariant Recovered(items) == FilesAt(order[..i], src)
    {
      ChartStep(order, i, at, src, items);
      FilesAtStep(order, i, src);
      EntriesAtPath(at, order[i], src[order[i]], items);
      items := items + EntryAt(at, order[i], src[order[i]]).value;
    }
    assert order[|order|..] == [] && order[..|order|] == order;
    assert items + [] == items;
  }

  lemma {:induction false} LockedFileStops(order: seq<Path>, at: Path, src: Source, i: nat)
    requires forall i | 0 <= i < |order| :: order[i] in src
    requires i < |order| && src[order[i]].LockedFile?
    ensures ChartEntries(order, at, src).None?
  {
    if i > 0 {
      LockedFileStops(order[1..], at, src, i - 1);
    }
  }

  lemma WalkedChart(at: Path, src: Source)
    requires SourceTree(src) && at != [] && GoodName(at[|at| - 1])
    ensures var entries := ChartEntries(Walk(src.Keys), at, src);
            && (entries.Some? <==> forall p | p in src :: !src[p].LockedFile?)
            && (entries.Some? ==> && AllUnder(entries.value, at[|at| - 1])
                                  && Recovered(entries.value) == FilesAt(Walk(src.Keys), src))
  {
    var order := Walk(src.Keys);
    WalkIsSorted(src.Keys);
    if p :| p in src && src[p].LockedFile? {
      LockedPathStops(order, at, src, p);
    } else {
      var items := EntriesOfWalk(order, at, src);
    }
  }

  lemma LockedPathStops(order: seq<Path>, at: Path, src: Source, p: Path)
    requires forall i | 0 <= i < |order| :: order[i] in src
    requires p in order && p in src && src[p].LockedFile?
    ensures ChartEntries(order, at, src).None?
  {
    var i :| 0 <= i < |order| && order[i] == p;
    LockedFileStops(order, at, src, i);
  }

  lemma FilesOfWalk(src: Source)
    ensures FilesAt(Walk(src.Keys), src) == FilesOf(TreeOf(src))
  {
    WalkIsSorted(src.Keys);
  }

  /** The entry of a path of the chart directory at `at`: named from the directory's base name, which
      the root of the file system has not. */
  function EntryFor(at: Path, p: Path, n: SourceNode): Item {
    var name := if at == [] then if p == [] then "." else Join(p)
                else if p == [] then at[|at| - 1] else at[|at| - 1] + "/" + Join(p);
    Next(Entry(name, if n.SourceFile? then Regular else Directory, if n.SourceFile? then n.data else ""))
  }

  lemma EntryIsFor(at: Path, p: Path, n: SourceNode)
    requires !Locked(n)
    ensures EntryAt(at, p, n) == Some([EntryFor(at, p, n)])
  {
    if at != [] {
      var base := at[|at| - 1];
      if p == [] {
        assert Join([base] + p) == base;
      } else {
        JoinCons(base, p);
      }
    }
  }

  /** The entries of some paths, one each, in order. */
  predicate EntriesFor(items: seq<Item>, at: Path, order: seq<Path>, src: Source) {
    && |items| == |order|
    && forall i | 0 <= i < |order| :: order[i] in src && items[i] == EntryFor(at, order[i], src[order[i]])
  }

  lemma EntryFirst(first: Path, rest: seq<Path>, at: Path, src: Source, item: Item, items: seq<Item>)
    requires first in src && (forall i | 0 <= i < |rest| :: rest[i] in src)
    requires EntryAt(at, first, src[first]) == Some([item]) && ChartEntries(rest, at, src) == Some(items)
    ensures ChartEntries([first] + rest, at, src) == Some([item] + items)
  {
    assert ([first] + rest)[1..] == rest;
  }

  lemma EntriesForFirst(first: Path, rest: seq<Path>, at: Path, src: Source, item: Item, items: seq<Item>)
    requires first in src && item == EntryFor(at, first, src[first]) && EntriesFor(items, at, rest, src)
    ensures EntriesFor([item] + items, at, [first] + rest, src)
  {
    var order, all := [first] + rest, [item] + items;
    forall i | 0 <= i < |order| ensures order[i] in src && all[i] == EntryFor(at, order[i], src[order[i]]) {
      if i > 0 {
        assert order[i] == rest[i - 1] && all[i] == items[i - 1];
      }
    }
  }

  predicate AllReadable(order: seq<Path>, src: Source) {
    forall i | 0 <= i < |order| :: order[i] in src && !Locked(src[order[i]])
  }

  lemma {:induction false} EntriesInOrder(order: seq<Path>, at: Path, src: Source) returns (items: seq<Item>)
    requires AllReadable(order, src)
    ensures ChartEntries(order, at, src) == Some(items) && EntriesFor(items, at, order, src)
  {
    if order == [] {
      items := [];
    } else {
      var first, rest := order[0], order[1..];
      assert order == [first] + rest;
      assert AllReadable(rest, src) by {
        assert forall i | 0 <= i < |rest| :: rest[i] == order[i + 1];
      }
      var more := EntriesInOrder(rest, at, src);
      var item := EntryFor(at, first, src[first]);
      EntryIsFor(at, first, src[first]);
      EntryFirst(first, rest, at, src, item, more);
      EntriesForFirst(first, rest, at, src, item, more);
      items := [item] + more;
    }
  }

  /** The archive of a chart directory that can be read throughout, entry by entry: one for each path, in
      walk order, of a directory or of a file with its data. */
  lemma ChartDirectoryIsWalked(at: Path, src: Source)
    requires SourceTree(src) && src[[]].SourceDir? && !IsArchiveName(at)
    requires forall p | p in src :: !Locked(src[p])
    ensures var archive := ChartArchive(Some(at), Some(src)); var order := Walk(src.Keys);
            && archive.Some? && archive.value.Built?
            && EntriesFor(archive.value.items, at, order, src)
  {
    var items := EntriesInOrder(Walk(src.Keys), at, src);
  }

  /** Archiving a chart directory of any depth: it succeeds exactly when every file in reach can be
      read, every entry name then begins with the directory's base name, and dropping it from the
      regular entries recovers exactly the files and contents. */
  lemma ChartDirectoryIsRecovered(at: Path, src: Source)
    requires SourceTree(src) && IsDirectory(src[[]])
    requires at != [] && GoodName(at[|at| - 1]) && !IsArchiveName(at)
    ensures var archive := ChartArchive(Some(at), Some(src));
            && (archive.Some? <==> forall p | p in src :: !src[p].LockedFile?)
            && (archive.Some? ==>
                  && archive.value.Built?
                  && AllUnder(archive.value.items, at[|at| - 1])
                  && Recovered(archive.value.items) == FilesOf(TreeOf(src)))
  {
    WalkedChart(at, src);
    FilesOfWalk(src);
  }

  /** A directory tree as a walk sees it when the directory `d` cannot be listed. */
  function Hiding(src: Source, d: Path): Source {
    map p | p in src && !(d < p) :: if p == d then LockedDir else src[p]
  }

  /** Some files without those below `d`. */
  function NotBelow(files: map<Path, Bytes>, d: Path): map<Path, Bytes> {
    map p | p in files && !(d < p) :: files[p]
  }

  lemma HidingIsATree(src: Source, d: Path)
    requires SourceTree(src) && d in src && src[d].SourceDir?
    ensures SourceTree(Hiding(src, d))
  {
    var seen := Hiding(src, d);
    forall p | p in seen && p != []
      ensures Parent(p) in seen && seen[Parent(p)] == SourceDir
    {
      UpToParent(p, d);
    }
  }

  lemma HidingFiles(src: Source, d: Path)
    requires d in src && src[d].SourceDir?
    ensures FilesOf(TreeOf(Hiding(src, d))) == NotBelow(FilesOf(TreeOf(src)), d)
  {
  }

  /** The error passed over shows: a directory in the chart, or the chart's own, that cannot be listed
      does not fail the archiving, and the archive lacks every file below it and no other. Packing gets
      that far exactly when helm, which reads the directory first, skips it, as it cannot the chart's
      own. */
  lemma HiddenFilesAreDropped(at: Path, src: Source, d: Path, helm: Helm)
    requires SourceTree(src) && src[[]].SourceDir? && d in src && src[d].SourceDir?
    requires forall p | p in src :: !Locked(src[p])
    requires at != [] && GoodName(at[|at| - 1]) && !IsArchiveName(at)
    ensures var archive := ChartArchive(Some(at), Some(Hiding(src, d)));
            && archive.Some? && archive.value.Built?
            && Recovered(archive.value.items) == NotBelow(FilesOf(TreeOf(src)), d)
    ensures DiskFiles(Hiding(src, d), helm).Some? <==> Skipped(Hiding(src, d), d, helm)
  {
    HidingIsATree(src, d);
    HidingFiles(src, d);
    ChartDirectoryIsRecovered(at, Hiding(src, d));
  }

  // ---------- What helm reads back ----------

  /** The files of a chart's archive. No ignore rules apply. */
  function ChartFiles(chart: ChartData, helm: Helm): Option<map<Path, Bytes>> {
    match chart
    case Stored(data) => helm.open(data)
    case Built(items) => Some(Recovered(items))
  }

  /** The chart in an archive, as the files it is made of. */
  function ArchivedChart(chart: ChartData, helm: Helm): Option<map<Path, Bytes>> {
    var files :- ChartFiles(chart, helm);
    if helm.loads(files) then Some(files) else None
  }

  /** `files` are just the files of a directory that no ignore rule skips, itself or a directory it is
      in. */
  ghost predicate JustUnskipped(src: Source, helm: Helm, files: map<Path, Bytes>) {
    && (forall p | p in files :: && p in src && src[p] == SourceFile(files[p])
                                 && forall k | 1 <= k <= |p| :: !helm.skips(src, p[..k]))
    && (forall p | p in src && src[p].SourceFile? && (forall k | 1 <= k <= |p| :: !helm.skips(src, p[..k])) ::
          p in files)
  }

  /** What helm reads at a path on disk, exactly: the files of an archive, or the unskipped files of a
      directory that can be listed and read but for what is skipped, provided that they make a chart. */
  lemma DiskChartExactly(src: Source, helm: Helm, files: map<Path, Bytes>)
    requires [] in src
    ensures DiskChart(src, helm) == Some(files) <==>
              && helm.loads(files)
              && (|| (src[[]].SourceFile? && helm.open(src[[]].data) == Some(files))
                  || (&& src[[]].SourceDir? && JustUnskipped(src, helm, files)
                      && forall p | p in src && Locked(src[p]) :: exists k | 1 <= k <= |p| :: helm.skips(src, p[..k])))
  {
    if src[[]].SourceDir? && DiskFiles(src, helm).Some? && JustUnskipped(src, helm, files) {
      var kept := DiskFiles(src, helm).value;
      forall p ensures p in files <==> p in kept {
        assert Skipped(src, p, helm) <==> exists k | 1 <= k <= |p| :: helm.skips(src, p[..k]);
      }
      assert files == kept;
    }
  }

  /** No file of a chart directory is skipped. */
  ghost predicate NothingSkipped(src: Source, helm: Helm) {
    [] in src && src[[]].SourceDir? ==> forall p | p in src && src[p].SourceFile? :: !Skipped(src, p, helm)
  }

  lemma KeptFiles(src: Source, helm: Helm)
    requires [] in src && src[[]].SourceDir? && DiskFiles(src, helm).Some?
    ensures DiskFiles(src, helm).value == FilesOf(TreeOf(src)) <==> NothingSkipped(src, helm)
  {
    var kept, all := DiskFiles(src, helm).value, FilesOf(TreeOf(src));
    if kept == all {
      forall p | p in src && src[p].SourceFile? ensures !Skipped(src, p, helm) {
        assert p in all;
      }
    }
  }

  lemma UnskippedFiles(src: Source, helm: Helm)
    requires [] in src && src[[]].SourceDir? && DiskFiles(src, helm).Some? && NothingSkipped(src, helm)
    ensures DiskFiles(src, helm) == Some(SourceFiles(src))
  {
    KeptFiles(src, helm);
    assert FilesOf(TreeOf(src)) == SourceFiles(src);
  }

  /** The transport of a chart: from the archive made of a chart that loads, helm reads the very
      files it read from disk if and only if its ignore rules skip none of them. An archive that was
      stored as it is always gives the same. */
  lemma ChartsAreReadBack(at: Path, src: Source, helm: Helm)
    requires SourceTree(src) && at != [] && GoodPath(at)
    requires DiskChart(src, helm).Some? && ChartArchive(Some(at), Some(src)).Some?
    ensures var archive := ChartArchive(Some(at), Some(src)).value;
            && ChartFiles(archive, helm).Some?
            && (ChartFiles(archive, helm) == DiskChart(src, helm) <==> NothingSkipped(src, helm))
            && (NothingSkipped(src, helm) ==> ArchivedChart(archive, helm) == DiskChart(src, helm))
  {
    if src[[]].SourceDir? {
      ChartDirectoryIsRecovered(at, src);
      KeptFiles(src, helm);
    }
  }

  /** The second archive suffix is never met, an extension having one dot: a chart file is stored
      exactly when it is named `.tgz`, and one named `.tar.gz` is refused. */
  lemma OnlyTgzFilesAreStored(at: Path, src: Source)
    requires at != [] && [] in src && src[[]].SourceFile?
    ensures ChartArchive(Some(at), Some(src)) ==
            if EndsIn(at[|at| - 1], ".tgz") then Some(Stored(src[[]].data)) else None
  {
    assert ".tgz"[1..] == "tgz" && Lacks(".tgz", '/');
    ExtIsSuffix(at[|at| - 1], ".tgz");
    ExtHasOneDot(at[|at| - 1]);
    TwoDots();
  }

  lemma TwoDots()
    ensures !Lacks(".tar.gz"[1..], '.')
  {
    assert ".tar.gz"[1..][3] == '.';
  }
}
