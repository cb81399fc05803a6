/** Packages of manifests: a directory read into an in-memory file system, a root kustomization
    generated when there is none, the kustomize build, and the archive of the file system. */
module Manifests {
  import opened Strs
  import opened Paths
  import opened Files
  import opened Archives

  // ---------- Reading a directory ----------

  /** What stands at a path of the local file system; what is locked cannot be read. */
  datatype SourceNode = SourceDir | SourceFile(data: Bytes) | LockedDir | LockedFile

  predicate Locked(n: SourceNode) { n.LockedDir? || n.LockedFile? }

  predicate IsDirectory(n: SourceNode) { n.SourceDir? || n.LockedDir? }

  type Source = map<Path, SourceNode>

  /** The shape of any real directory tree; the root itself may be a file. */
  ghost predicate SourceTree(src: Source) {
    && [] in src
    && (forall p | p in src :: GoodPath(p))
    && (forall p {:trigger Parent(p)} | p in src && p != [] :: Parent(p) in src && src[Parent(p)] == SourceDir)
  }

  /** What can be packed: a directory, readable throughout, with legal names. */
  ghost predicate Packable(src: Source, legal: string -> bool) {
    [] in src && src[[]].SourceDir? && forall p | p in src :: !Locked(src[p]) && Legal(p, legal)
  }

  function NodeOf(n: SourceNode): Node {
    if n.SourceFile? then File(n.data) else Dir
  }

  /** The directory as a tree. */
  function TreeOf(src: Source): Tree { map p | p in src :: NodeOf(src[p]) }

  ghost predicate PartOf(t: Tree, src: Source) {
    forall p | p in t :: p in src && !Locked(src[p]) && t[p] == NodeOf(src[p])
  }

  lemma {:induction false} SourceAncestors(src: Source, p: Path, q: Path)
    requires SourceTree(src) && p in src && q < p
    ensures q in src && src[q] == SourceDir
    decreases |p|
  {
    var parent := Parent(p);
    if q != parent {
      assert q < parent;
      SourceAncestors(src, parent, q);
    }
  }

  lemma MkdirOfSource(t: Tree, src: Source, p: Path, legal: string -> bool)
    requires SourceTree(src) && PartOf(t, src) && p in src && src[p].SourceDir?
    ensures Mkdir(t, p, legal).Some? <==> Legal(p, legal)
    ensures Mkdir(t, p, legal).Some? ==>
              && PartOf(Mkdir(t, p, legal).value, src) && t.Keys + {p} <= Mkdir(t, p, legal).value.Keys
  {
    UpwardIsPrefixes(p);
    forall q | q in Upward(p)
      ensures q in src && src[q] == SourceDir
    {
      if q != p { SourceAncestors(src, p, q); }
    }
    assert p <= p;
  }

  lemma WriteOfSource(t: Tree, src: Source, p: Path, legal: string -> bool)
    requires SourceTree(src) && PartOf(t, src) && p in src && src[p].SourceFile?
    ensures Write(t, p, src[p].data, legal).Some? <==> p != [] && Legal(p, legal)
    ensures var w := Write(t, p, src[p].data, legal);
            w.Some? ==> PartOf(w.value, src) && t.Keys + {p} <= w.value.Keys
  {
    if p != [] {
      var parent := Parent(p);
      assert p == parent + [p[|p| - 1]];
      MkdirOfSource(t, src, parent, legal);
      assert Legal(p, legal) <==> Legal(parent, legal) && legal(p[|p| - 1]) && GoodName(p[|p| - 1]);
    }
  }

  /** One step of the walk. */
  function ReadEntry(t: Tree, p: Path, n: SourceNode, legal: string -> bool): Option<Tree> {
    match n
    case SourceDir => if p == [] then Some(t) else Mkdir(t, p, legal)
    case SourceFile(data) => Write(t, p, data, legal)
    case LockedDir => None
    case LockedFile => None
  }

  ghost predicate Loadable(src: Source, p: Path, legal: string -> bool)
    requires p in src
  {
    !Locked(src[p]) && Legal(p, legal) && (p == [] ==> src[p].SourceDir?)
  }

  lemma LoadStep(t: Tree, src: Source, p: Path, legal: string -> bool)
    requires SourceTree(src) && p in src && [] in t && (src[[]].SourceDir? ==> PartOf(t, src))
    ensures ReadEntry(t, p, src[p], legal).Some? <==> Loadable(src, p, legal)
    ensures var w := ReadEntry(t, p, src[p], legal);
            w.Some? ==> src[[]].SourceDir? && PartOf(w.value, src) && t.Keys + {p} <= w.value.Keys
  {
    if p != [] {
      SourceAncestors(src, p, []);
      match src[p] {
        case SourceDir => MkdirOfSource(t, src, p, legal);
        case SourceFile(_) => WriteOfSource(t, src, p, legal);
        case LockedDir =>
        case LockedFile =>
      }
    }
  }

  lemma LoadedAll(t: Tree, src: Source, order: seq<Path>, legal: string -> bool)
    requires [] in src && PartOf(t, src) && src[[]].SourceDir?
    requires forall p :: p in order <==> p in src
    requires forall k | 0 <= k < |order| :: order[k] in t && Loadable(src, order[k], legal)
    ensures t == TreeOf(src) && Packable(src, legal)
  {
    forall p | p in src ensures p in t && Loadable(src, p, legal) {
      assert p in order;
    }
  }

  lemma StuckMeansUnpackable(src: Source, p: Path, legal: string -> bool)
    requires p in src && !Loadable(src, p, legal)
    ensures !Packable(src, legal)
  {
  }

  /** `generateFS`: reads a local directory; `root` is None when nothing is there. Succeeds
      exactly on packable directories, and then holds exactly their tree. */
  method GenerateFS(root: Option<Source>, legal: string -> bool) returns (ok: bool, fs: FileSystem)
    requires root.Some? ==> SourceTree(root.value)
    ensures fresh(fs) && fs.legal == legal && fs.Valid()
    ensures ok <==> root.Some? && Packable(root.value, legal)
    ensures ok ==> fs.nodes == TreeOf(root.value)
  {
    fs := new FileSystem(legal);
    if root.None? {
      return false, fs;
    }
    var src := root.value;
    var order := Walk(src.Keys);
    for i := 0 to |order|
      invariant fresh(fs) && fs.legal == legal && fs.Valid()
      invariant i > 0 ==> src[[]].SourceDir?
      invariant src[[]].SourceDir? ==> PartOf(fs.nodes, src)
      invariant forall k | 0 <= k < i :: order[k] in fs.nodes && Loadable(src, order[k], legal)
    {
      var p := order[i];
      LoadStep(fs.nodes, src, p, legal);
      if !Loadable(src, p, legal) {
        StuckMeansUnpackable(src, p, legal);
      }
      var done := true;
      match src[p] {
        case SourceDir =>
          if p != [] {
            done := fs.MkdirAll(p);
          }
        case SourceFile(data) =>
          done := fs.WriteFile(p, data);
        case LockedDir =>
          done := false;
        case LockedFile =>
          done := false;
      }
      if !done {
        return false, fs;
      }
    }
    WalkIsSorted(src.Keys);
    assert [] in order;
    LoadedAll(fs.nodes, src, order, legal);
    ok := true;
  }

  // ---------- The root kustomization ----------

  /** What kustomize and its codecs decide: which file names may be created, which contents
      parse as resources, how a list of resources is written down, and what a set of files
      builds to. */
  datatype Kustomize = Kustomize(
    legal: string -> bool,
    parses: Bytes -> bool,
    marshal: seq<string> -> Bytes,
    build: map<Path, Bytes> -> Option<Bytes>)

  const ROOT_FILE := "kustomization.yaml"
  const RECOGNISED := [ROOT_FILE, "kustomization.yml", "Kustomization"]

  predicate HasRootFile(t: Tree) { exists i | 0 <= i < |RECOGNISED| :: FileAt(t, RECOGNISED[i]) }

  predicate FileAt(t: Tree, name: string) { [name] in t && t[[name]].File? }

  predicate IsYaml(name: string) { Ext(name) == ".yaml" || Ext(name) == ".yml" }

  /** A file that the generated root must list. */
  predicate Candidate(t: Tree, p: Path) { p in t && t[p].File? && p != [] && IsYaml(p[|p| - 1]) }

  /** A file of a tree whose name ends in `.yaml` or `.yml`. */
  predicate YamlFile(t: Tree, p: Path) {
    && p in t && t[p].File? && p != []
    && (EndsIn(p[|p| - 1], ".yaml") || EndsIn(p[|p| - 1], ".yml"))
  }

  lemma CandidatesAreYamlFiles(t: Tree, p: Path)
    requires WellFormed(t)
    ensures Candidate(t, p) <==> YamlFile(t, p)
  {
    if p in t && p != [] {
      var name := p[|p| - 1];
      assert GoodName(name);
      assert ".yaml"[1..] == "yaml" && ".yml"[1..] == "yml" && Lacks(".yaml", '/') && Lacks(".yml", '/');
      ExtIsSuffix(name, ".yaml");
      ExtIsSuffix(name, ".yml");
    }
  }

  predicate YamlParses(t: Tree, k: Kustomize) {
    forall p | p in t && YamlFile(t, p) :: k.parses(t[p].data)
  }

  lemma YamlParsesExactly(t: Tree, k: Kustomize)
    requires WellFormed(t)
    ensures CandidatesParse(t, k) <==> YamlParses(t, k)
  {
    forall p ensures Candidate(t, p) <==> YamlFile(t, p) {
      CandidatesAreYamlFiles(t, p);
    }
  }

  /** A root file stands in the tree, by any of the three names kustomize knows it by. */
  predicate RootStands(t: Tree) {
    FileAt(t, "kustomization.yaml") || FileAt(t, "kustomization.yml") || FileAt(t, "Kustomization")
  }

  lemma RootStandsExactly(t: Tree)
    ensures HasRootFile(t) <==> RootStands(t)
  {
    assert RECOGNISED[0] == "kustomization.yaml" && RECOGNISED[1] == "kustomization.yml";
    assert RECOGNISED[2] == "Kustomization" && |RECOGNISED| == 3;
  }

  /** The in-memory file system prints its paths from "/". */
  function Spelled(p: Path): string { ['/'] + Join(p) }

  function Candidates(order: seq<Path>, t: Tree): seq<Path> {
    if order == [] then []
    else
      var last := order[|order| - 1];
      Candidates(order[..|order| - 1], t) + if Candidate(t, last) then [last] else []
  }

  function AllSpelled(ps: seq<Path>): seq<string> {
    seq(|ps|, i requires 0 <= i < |ps| => Spelled(ps[i]))
  }

  function Resources(t: Tree): seq<string> { AllSpelled(Candidates(Walk(t.Keys), t)) }

  predicate CandidatesParse(t: Tree, k: Kustomize) {
    forall p | p in t && Candidate(t, p) :: k.parses(t[p].data)
  }

  /** The tree with a root kustomization, or None when one cannot be made. */
  function Rooted(t: Tree, k: Kustomize): Option<Tree> {
    if HasRootFile(t) then Some(t)
    else if !CandidatesParse(t, k) then None
    else Write(t, [ROOT_FILE], k.marshal(Resources(t)), k.legal)
  }

  /** What the walk adds to the resources at one path; None when it stops there. */
  function Visit(p: Path, n: Node, k: Kustomize): Option<seq<string>>
    requires n.File? ==> p != []
  {
    if n.Dir? || !IsYaml(p[|p| - 1]) then Some([])
    else if !k.parses(n.data) then None
    else Some([Spelled(p)])
  }

  predicate Rootless(t: Tree) { [] !in t || t[[]].Dir? }

  /** The resources collected over the first paths of a walk. */
  function Collected(order: seq<Path>, t: Tree, k: Kustomize): Option<seq<string>>
    requires Rootless(t) && forall i | 0 <= i < |order| :: order[i] in t
  {
    if order == [] then Some([])
    else
      var p := order[|order| - 1];
      Extended(Collected(order[..|order| - 1], t, k), Visit(p, t[p], k))
  }

  function Extended(front: Option<seq<string>>, last: Option<seq<string>>): Option<seq<string>> {
    if front.None? || last.None? then None else Some(front.value + last.value)
  }

  lemma CollectedStep(order: seq<Path>, i: nat, t: Tree, k: Kustomize)
    requires Rootless(t) && i < |order| && forall i | 0 <= i < |order| :: order[i] in t
    ensures Collected(order[..i + 1], t, k) == Extended(Collected(order[..i], t, k), Visit(order[i], t[order[i]], k))
  {
    assert order[..i + 1][..i] == order[..i];
  }

  lemma {:induction false} CollectedStops(order: seq<Path>, i: nat, t: Tree, k: Kustomize)
    requires Rootless(t) && i <= |order| && forall i | 0 <= i < |order| :: order[i] in t
    requires Collected(order[..i], t, k).None?
    ensures Collected(order, t, k).None?
    decreases |order| - i
  {
    if i < |order| {
      CollectedStep(order, i, t, k);
      CollectedStops(order, i + 1, t, k);
    } else {
      assert order[..i] == order;
    }
  }

  /** The function called at each path of the walk. */
  method VisitFile(p: Path, n: Node, k: Kustomize) returns (added: Option<seq<string>>)
    requires n.File? ==> p != []
    ensures added == Visit(p, n, k)
  {
    if n.Dir? {
      return Some([]);
    }
    if !IsYaml(p[|p| - 1]) {
      return Some([]);
    }
    if !k.parses(n.data) {
      return None;
    }
    added := Some([Spelled(p)]);
  }

  /** The walk that collects the resources of the root file and stops at one that does not
      parse. */
  method CollectResources(t: Tree, k: Kustomize) returns (resources: Option<seq<string>>)
    requires Rootless(t)
    ensures resources == Collected(Walk(t.Keys), t, k)
  {
    var order := Walk(t.Keys);
    var listed := [];
    for i := 0 to |order|
      invariant Collected(order[..i], t, k) == Some(listed)
    {
      CollectedStep(order, i, t, k);
      var added := VisitFile(order[i], t[order[i]], k);
      if added.None? {
        CollectedStops(order, i + 1, t, k);
        return None;
      }
      listed := listed + added.value;
    }
    assert order[..|order|] == order;
    resources := Some(listed);
  }

  predicate AllParse(order: seq<Path>, t: Tree, k: Kustomize) {
    forall i | 0 <= i < |order| :: ParsesIfCandidate(t, order[i], k)
  }

  lemma VisitIsALine(p: Path, t: Tree, k: Kustomize)
    requires Rootless(t) && p in t
    ensures Visit(p, t[p], k) ==
            if ParsesIfCandidate(t, p, k) then Some(AllSpelled(if Candidate(t, p) then [p] else [])) else None
  {
    assert AllSpelled([p]) == [Spelled(p)];
    assert AllSpelled([]) == [];
  }

  lemma SpelledConcat(a: seq<Path>, b: seq<Path>)
    ensures AllSpelled(a + b) == AllSpelled(a) + AllSpelled(b)
  {
  }

  lemma {:induction false} CollectedAreCandidates(order: seq<Path>, t: Tree, k: Kustomize)
    requires Rootless(t) && forall i | 0 <= i < |order| :: order[i] in t
    ensures Collected(order, t, k) ==
            if AllParse(order, t, k) then Some(AllSpelled(Candidates(order, t))) else None
  {
    if order == [] {
      assert AllSpelled([]) == [];
    } else {
      var front, last := order[..|order| - 1], order[|order| - 1];
      CollectedAreCandidates(front, t, k);
      VisitIsALine(last, t, k);
      SpelledConcat(Candidates(front, t), if Candidate(t, last) then [last] else []);
      AllParseSplit(order, t, k);
    }
  }

  lemma AllParseSplit(order: seq<Path>, t: Tree, k: Kustomize)
    requires order != []
    ensures AllParse(order, t, k) <==>
            AllParse(order[..|order| - 1], t, k) && ParsesIfCandidate(t, order[|order| - 1], k)
  {
    var front := order[..|order| - 1];
    assert forall i | 0 <= i < |front| :: front[i] == order[i];
    if AllParse(front, t, k) && ParsesIfCandidate(t, order[|order| - 1], k) {
      forall i | 0 <= i < |order| ensures ParsesIfCandidate(t, order[i], k) {
        if i < |front| { assert ParsesIfCandidate(t, front[i], k); }
      }
    }
    if AllParse(order, t, k) {
      forall i | 0 <= i < |front| ensures ParsesIfCandidate(t, front[i], k) {
        assert ParsesIfCandidate(t, order[i], k);
      }
    }
  }

  /** The walk collects the printed candidates, unless one does not parse. */
  lemma CollectedOverWalk(t: Tree, k: Kustomize)
    requires Rootless(t)
    ensures Collected(Walk(t.Keys), t, k) == if CandidatesParse(t, k) then Some(Resources(t)) else None
  {
    var order := Walk(t.Keys);
    CollectedAreCandidates(order, t, k);
    WalkIsSorted(t.Keys);
    if AllParse(order, t, k) {
      AllCandidatesParse(t, order, k);
    } else {
      var i :| 0 <= i < |order| && !ParsesIfCandidate(t, order[i], k);
      assert order[i] in t && Candidate(t, order[i]);
    }
  }

  /** `generateRootKustomizationIfDNE` */
  method GenerateRootKustomizationIfDNE(fs: FileSystem, k: Kustomize) returns (ok: bool)
    requires fs.Valid() && fs.legal == k.legal
    modifies fs
    ensures fs.Valid()
    ensures ok <==> Rooted(old(fs.nodes), k).Some?
    ensures fs.nodes == if ok then Rooted(old(fs.nodes), k).value else old(fs.nodes)
  {
    for i := 0 to |RECOGNISED|
      modifies {}
      invariant forall j | 0 <= j < i :: !FileAt(fs.nodes, RECOGNISED[j])
    {
      if FileAt(fs.nodes, RECOGNISED[i]) {
        return true;
      }
    }
    var resources := CollectResources(fs.nodes, k);
    CollectedOverWalk(fs.nodes, k);
    if resources.None? {
      return false;
    }
    NothingToMake(fs.nodes, k.legal);
    ok := fs.WriteFile([ROOT_FILE], k.marshal(resources.value));
  }

  /** A file at the root needs no directories, so failing to write it changes nothing. */
  lemma NothingToMake(t: Tree, legal: string -> bool)
    requires Sound(t, legal)
    ensures forall u :: PartlyMade(t, u, Parent([ROOT_FILE]), legal) ==> u == t
  {
    var root: Path := [];
    MkdirAgain(t, root, legal);
    assert Parent([ROOT_FILE]) == root && root[..0] == root;
  }

  lemma AllCandidatesParse(t: Tree, order: seq<Path>, k: Kustomize)
    requires forall p :: p in order <==> p in t
    requires AllParse(order, t, k)
    ensures CandidatesParse(t, k)
  {
    forall p | p in t && Candidate(t, p) ensures k.parses(t[p].data) {
      assert p in order;
      assert ParsesIfCandidate(t, p, k);
    }
  }

  predicate ParsesIfCandidate(t: Tree, p: Path, k: Kustomize) {
    Candidate(t, p) ==> k.parses(t[p].data)
  }

  lemma {:induction false} CandidatesAreSorted(order: seq<Path>, t: Tree)
    requires Sorted(order)
    ensures Sorted(Candidates(order, t))
    ensures forall p :: p in Candidates(order, t) <==> p in order && Candidate(t, p)
  {
    if order != [] {
      var front, last := order[..|order| - 1], order[|order| - 1];
      CandidatesAreSorted(front, t);
      forall j | 0 <= j < |Candidates(front, t)|
        ensures PathLe(Candidates(front, t)[j], last) && Candidates(front, t)[j] != last
      {
        assert Candidates(front, t)[j] in front;
        var i :| 0 <= i < |front| && front[i] == Candidates(front, t)[j];
        assert PathLe(order[i], order[|order| - 1]);
      }
      assert order == front + [last];
    }
  }

  lemma SpelledHasNoRepeats(ps: seq<Path>)
    requires Sorted(ps) && forall i | 0 <= i < |ps| :: ps[i] != [] && GoodPath(ps[i])
    ensures forall i, j | 0 <= i < j < |ps| :: AllSpelled(ps)[i] != AllSpelled(ps)[j]
  {
    forall i, j | 0 <= i < j < |ps| ensures Spelled(ps[i]) != Spelled(ps[j]) {
      if Spelled(ps[i]) == Spelled(ps[j]) {
        SpelledIsInjective(ps[i], ps[j]);
      }
    }
  }

  /** The generated root lists every `.yaml` and `.yml` file of the tree exactly once, in walk order, by
      its path from "/". */
  lemma ResourcesAreTheYamlFiles(t: Tree) returns (ps: seq<Path>)
    requires WellFormed(t)
    ensures Sorted(ps) && forall p :: p in ps <==> YamlFile(t, p)
    ensures |Resources(t)| == |ps| && forall i | 0 <= i < |ps| :: Resources(t)[i] == "/" + Join(ps[i])
    ensures forall i, j | 0 <= i < j < |Resources(t)| :: Resources(t)[i] != Resources(t)[j]
  {
    ps := Candidates(Walk(t.Keys), t);
    WalkIsSorted(t.Keys);
    CandidatesAreSorted(Walk(t.Keys), t);
    forall p ensures p in ps <==> YamlFile(t, p) {
      CandidatesAreYamlFiles(t, p);
    }
    assert forall i | 0 <= i < |ps| :: ps[i] in ps;
    SpelledHasNoRepeats(ps);
  }

  /** So a path stands in it if and only if it is that of such a file. */
  lemma ListedIsYaml(t: Tree, p: Path)
    requires WellFormed(t) && p != [] && GoodPath(p)
    ensures "/" + Join(p) in Resources(t) <==> YamlFile(t, p)
  {
    var ps := ResourcesAreTheYamlFiles(t);
    if "/" + Join(p) in Resources(t) {
      var i :| 0 <= i < |ps| && Resources(t)[i] == "/" + Join(p);
      assert ps[i] in ps;
      SpelledIsInjective(p, ps[i]);
    }
    if p in ps {
      var i :| 0 <= i < |ps| && ps[i] == p;
      assert Resources(t)[i] == "/" + Join(p);
    }
  }

  lemma SpelledIsInjective(p: Path, q: Path)
    requires p != [] && q != [] && GoodPath(p) && GoodPath(q) && Spelled(p) == Spelled(q)
    ensures p == q
  {
    assert Spelled(p)[1..] == Join(p) && Spelled(q)[1..] == Join(q);
    SplitJoin(p);
    SplitJoin(q);
  }

  lemma WriteAtRoot(t: Tree, name: string, data: Bytes, legal: string -> bool)
    requires Sound(t, legal)
    ensures Write(t, [name], data, legal) ==
            if legal(name) && GoodName(name) && !([name] in t && t[[name]].Dir?)
            then Some(t[[name] := File(data)]) else None
  {
    assert [name][..0] == [];
    MkdirAgain(t, [], legal);
  }

  lemma AddedFile(t: Tree, p: Path, data: Bytes)
    requires p !in t
    ensures FilesOf(t[p := File(data)]) == FilesOf(t)[p := data]
    ensures DirsOf(t[p := File(data)]) == DirsOf(t)
  {
  }

  lemma RootFileIsRecognised(t: Tree)
    requires FileAt(t, ROOT_FILE)
    ensures HasRootFile(t)
  {
    assert RECOGNISED[0] == ROOT_FILE;
  }

  /** Root generation is conservative and idempotent: nothing is written when a root file stands, by
      any of its names; otherwise the one root file is added, listing the resources, and nothing else
      changes; and a second run adds nothing. */
  lemma RootingIsConservative(t: Tree, k: Kustomize)
    requires Sound(t, k.legal) && Rooted(t, k).Some?
    ensures var t' := Rooted(t, k).value;
            && Sound(t', k.legal)
            && RootStands(t') && Rooted(t', k) == Some(t')
            && (RootStands(t) ==> t' == t)
            && (!RootStands(t) ==>
                  && ["kustomization.yaml"] !in t && YamlParses(t, k)
                  && t' == t[["kustomization.yaml"] := File(k.marshal(Resources(t)))]
                  && FilesOf(t') == FilesOf(t)[["kustomization.yaml"] := k.marshal(Resources(t))]
                  && DirsOf(t') == DirsOf(t))
  {
    RootStandsExactly(t);
    if !HasRootFile(t) {
      var data := k.marshal(Resources(t));
      WriteIsSound(t, [ROOT_FILE], data, k.legal);
      WriteAtRoot(t, ROOT_FILE, data, k.legal);
      if [ROOT_FILE] in t {
        RootFileIsRecognised(t);
        assert false;
      }
      AddedFile(t, [ROOT_FILE], data);
      RootFileIsRecognised(t[[ROOT_FILE] := File(data)]);
      RootStandsExactly(t[[ROOT_FILE] := File(data)]);
      YamlParsesExactly(t, k);
    }
  }

  /** It fails, writing nothing, exactly when no root file stands and a YAML file does not parse or the
      root file cannot be created. */
  lemma RootingFailsExactly(t: Tree, k: Kustomize)
    requires Sound(t, k.legal)
    ensures Rooted(t, k).None? <==>
              && !RootStands(t)
              && (|| !YamlParses(t, k) || !k.legal("kustomization.yaml")
                  || (["kustomization.yaml"] in t && t[["kustomization.yaml"]].Dir?))
  {
    RootStandsExactly(t);
    YamlParsesExactly(t, k);
    WriteAtRoot(t, ROOT_FILE, k.marshal(Resources(t)), k.legal);
    RootNameIsGood();
  }

  lemma RootNameIsGood()
    ensures GoodName(ROOT_FILE)
  {
    assert |ROOT_FILE| == 18;
    assert Lacks(ROOT_FILE, '/');
  }

  // ---------- Packages of manifests ----------

  /** What a package builds to. */
  function Generated(t: Tree, k: Kustomize): Option<Bytes> {
    var rooted :- Rooted(t, k);
    k.build(FilesOf(rooted))
  }

  /** What generating leaves in the file system. */
  function AfterGenerate(t: Tree, k: Kustomize): Tree {
    var rooted := Rooted(t, k);
    if rooted.Some? then rooted.value else t
  }

  /** No root can be made: none stands, and a YAML file does not parse or the root cannot be written. */
  predicate CannotRoot(t: Tree, k: Kustomize) {
    && !RootStands(t)
    && (|| !YamlParses(t, k) || !k.legal("kustomization.yaml")
        || (["kustomization.yaml"] in t && t[["kustomization.yaml"]].Dir?))
  }

  /** Generating from a tree leaves `after` and gives `data`: the build of exactly the files that then
      stand, which are those that stood before, and a root listing the YAML files where none stood. */
  predicate BuiltFrom(t: Tree, k: Kustomize, after: Tree, data: Option<Bytes>) {
    && (CannotRoot(t, k) ==> after == t && data == None)
    && (!CannotRoot(t, k) ==> data == k.build(FilesOf(after)))
    && (RootStands(t) ==> after == t)
    && (!RootStands(t) && !CannotRoot(t, k) ==>
          after == t[["kustomization.yaml"] := File(k.marshal(Resources(t)))])
  }

  lemma GeneratingBuildsTheFiles(t: Tree, k: Kustomize)
    requires Sound(t, k.legal)
    ensures BuiltFrom(t, k, AfterGenerate(t, k), Generated(t, k))
  {
    RootingFailsExactly(t, k);
    if Rooted(t, k).Some? {
      RootingIsConservative(t, k);
    }
  }

  class Manifest {
    const name: string
    const fs: FileSystem

    constructor (name: string, fs: FileSystem)
      ensures this.name == name && this.fs == fs
    {
      this.name := name;
      this.fs := fs;
    }

    method Generate(k: Kustomize) returns (data: Option<Bytes>)
      requires fs.Valid() && fs.legal == k.legal
      modifies fs
      ensures fs.Valid()
      ensures fs.nodes == AfterGenerate(old(fs.nodes), k)
      ensures data == Generated(old(fs.nodes), k)
      ensures BuiltFrom(old(fs.nodes), k, fs.nodes, data)
    {
      GeneratingBuildsTheFiles(fs.nodes, k);
      var ok := GenerateRootKustomizationIfDNE(fs, k);
      if !ok {
        return None;
      }
      data := k.build(FilesOf(fs.nodes));
    }

    /** Archives the file system; making its directories again, as the walk does, neither fails
        nor changes it. */
    method Tgz() returns (items: seq<Item>)
      requires fs.Valid()
      modifies fs
      ensures fs.Valid() && fs.nodes == old(fs.nodes)
      ensures items == Packed(fs.nodes)
    {
      var t := fs.nodes;
      var order := Walk(t.Keys);
      items := [];
      assert order[0..] == order;
      for i := 0 to |order|
        invariant fs.Valid() && fs.nodes == t
        invariant Entries(order, t) == items + Entries(order[i..], t)
      {
        var p := order[i];
        EntriesStep(order, t, i, items);
        if t[p].Dir? {
          MkdirAgain(t, p, fs.legal);
          var made := fs.MkdirAll(p);
          assert made && items + EntryOf(p, t) == items;
        } else {
          items := items + [Next(Entry(Join(p), Regular, t[p].data))];
        }
      }
      assert order[|order|..] == [];
    }
  }

  lemma SourceIsSound(src: Source, legal: string -> bool)
    requires SourceTree(src) && Packable(src, legal)
    ensures Sound(TreeOf(src), legal)
  {
    var t := TreeOf(src);
    forall p | p in t && p != []
      ensures Parent(p) in t && t[Parent(p)] == Dir
    {
    }
  }

  /** The files of a directory. */
  function SourceFiles(src: Source): map<Path, Bytes> { map p | p in src && src[p].SourceFile? :: src[p].data }

  /** What is built of a directory: its own files, and a root listing the YAML files where none stands. */
  function RootedFiles(src: Source, k: Kustomize): map<Path, Bytes> {
    if RootStands(TreeOf(src)) then SourceFiles(src)
    else SourceFiles(src)[["kustomization.yaml"] := k.marshal(Resources(TreeOf(src)))]
  }

  lemma DirectoryBuildsItsFiles(src: Source, k: Kustomize)
    requires SourceTree(src) && Packable(src, k.legal)
    ensures Rooted(TreeOf(src), k).None? <==> CannotRoot(TreeOf(src), k)
    ensures Rooted(TreeOf(src), k).Some? ==> FilesOf(AfterGenerate(TreeOf(src), k)) == RootedFiles(src, k)
    ensures Generated(TreeOf(src), k) ==
            if CannotRoot(TreeOf(src), k) then None else k.build(RootedFiles(src, k))
  {
    var t := TreeOf(src);
    SourceIsSound(src, k.legal);
    GeneratingBuildsTheFiles(t, k);
    RootingFailsExactly(t, k);
    assert FilesOf(t) == SourceFiles(src);
    if Rooted(t, k).Some? {
      RootingIsConservative(t, k);
    }
  }

  lemma RootDependsOnFiles(t: Tree, u: Tree)
    requires FilesOf(t) == FilesOf(u)
    ensures HasRootFile(t) <==> HasRootFile(u)
  {
    forall name ensures FileAt(t, name) <==> FileAt(u, name) {
      assert [name] in FilesOf(t) <==> FileAt(t, name);
      assert [name] in FilesOf(u) <==> FileAt(u, name);
    }
  }

  /** A tree with a root file is generated as it is, and so is what is unpacked of its archive. */
  lemma UnpackedRootStands(t: Tree, k: Kustomize)
    requires Sound(t, k.legal) && HasRootFile(t)
    ensures var loaded := Unpacked(Some(Packed(t)), k.legal);
            && loaded.Some? && FilesOf(loaded.value) == FilesOf(t)
            && (forall q :: q in DirsOf(loaded.value) <==> q == [] || exists p :: p in FilesOf(t) && q < p)
            && AfterGenerate(loaded.value, k) == loaded.value
            && Generated(loaded.value, k) == k.build(FilesOf(t))
  {
    UnpackingWhatWasPacked(t, k.legal);
    RootDependsOnFiles(t, Unpacked(Some(Packed(t)), k.legal).value);
  }

  /** The transport of a package preserves its meaning: for every directory that packs, reading
      it, generating, archiving and unpacking gives exactly the files the package was built from,
      its own and the root, and exactly the directories above files; generating from the result
      writes nothing and gives the build of those files, as it did at first. */
  lemma TransportPreservesMeaning(src: Source, k: Kustomize)
    requires SourceTree(src) && Packable(src, k.legal) && Rooted(TreeOf(src), k).Some?
    ensures var loaded := Unpacked(Some(Packed(AfterGenerate(TreeOf(src), k))), k.legal);
            && loaded.Some?
            && FilesOf(loaded.value) == RootedFiles(src, k)
            && (forall q :: q in DirsOf(loaded.value) <==> q == [] || exists p :: p in RootedFiles(src, k) && q < p)
            && AfterGenerate(loaded.value, k) == loaded.value
            && Generated(loaded.value, k) == Generated(TreeOf(src), k) == k.build(RootedFiles(src, k))
  {
    SourceIsSound(src, k.legal);
    RootingIsConservative(TreeOf(src), k);
    DirectoryBuildsItsFiles(src, k);
    RootStandsExactly(AfterGenerate(TreeOf(src), k));
    UnpackedRootStands(AfterGenerate(TreeOf(src), k), k);
  }
}
