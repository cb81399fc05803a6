/** Packing: the contents of a package, and the store that packages and configurations are
    collected in. */
module Packing {
  import opened Strs
  import opened Paths
  import opened Relocation
  import opened Files
  import opened Archives
  import opened Manifests
  import opened Charts
  import opened Discovery
  import opened Api
  import opened Copying

  /** A chart found on disk, by its absolute path. */
  datatype LocatedChart = LocatedChart(at: Path, src: Source)

  /** What packing finds outside: local directories, charts, registries to pull images from, and
      what the codecs, kustomize and helm make of contents. */
  datatype World = World(
    sources: string -> Option<Source>,
    charts: ChartSpec -> Option<LocatedChart>,
    kustomize: Kustomize,
    helm: Helm,
    documents: Bytes -> seq<Event>,
    show: Json -> string,
    pull: string -> Option<Artifact>)

  ghost predicate Real(w: World) {
    && (forall path :: w.sources(path).Some? ==> SourceTree(w.sources(path).value))
    && (forall spec :: w.charts(spec).Some? ==>
                         SourceTree(w.charts(spec).value.src) && GoodPath(w.charts(spec).value.at))
  }

  // ---------- Contents ----------

  type KeyOf = string -> Option<string>

  /** The images found, by key; None when one does not parse or cannot be pulled. */
  function Pulled(images: seq<string>, keyOf: KeyOf, pull: string -> Option<Artifact>): Option<Store> {
    if images == [] then Some(map[])
    else
      var front :- Pulled(images[..|images| - 1], keyOf, pull);
      var key :- keyOf(images[|images| - 1]);
      var image :- pull(key);
      Some(front[key := image])
  }

  /** The keys of images, as a function value. */
  function Keys(): KeyOf { image => ImageKey(image) }

  lemma {:induction false} PulledStops(images: seq<string>, i: nat, keyOf: KeyOf, pull: string -> Option<Artifact>)
    requires i <= |images| && Pulled(images[..i], keyOf, pull).None?
    ensures Pulled(images, keyOf, pull).None?
    decreases |images| - i
  {
    if i < |images| {
      assert images[..i + 1][..i] == images[..i];
      PulledStops(images, i + 1, keyOf, pull);
    } else {
      assert images[..i] == images;
    }
  }

  /** The loop of `Contents` over the images found. */
  method CollectImages(images: seq<string>, keyOf: KeyOf, pull: string -> Option<Artifact>)
    returns (coll: Option<Store>)
    ensures coll == Pulled(images, keyOf, pull)
  {
    var found: Store := map[];
    for i := 0 to |images|
      invariant Pulled(images[..i], keyOf, pull) == Some(found)
    {
      assert images[..i + 1][..i] == images[..i];
      var key := keyOf(images[i]);
      if key.None? {
        PulledStops(images, i + 1, keyOf, pull);
        return None;
      }
      var image := pull(key.value);
      if image.None? {
        PulledStops(images, i + 1, keyOf, pull);
        return None;
      }
      found := found[key.value := image.value];
    }
    assert images[..|images|] == images;
    coll := Some(found);
  }

  /** What is collected is exactly the keys of the images found, each with what was pulled. */
  lemma {:induction false} PulledIsExact(images: seq<string>, keyOf: KeyOf, pull: string -> Option<Artifact>)
    requires Pulled(images, keyOf, pull).Some?
    ensures var m := Pulled(images, keyOf, pull).value;
            && (forall i | i in images :: keyOf(i).Some? && keyOf(i).value in m)
            && (forall key | key in m :: (exists i :: i in images && keyOf(i) == Some(key))
                                         && pull(key).Some? && m[key] == pull(key).value)
  {
    if images != [] {
      var front, last := images[..|images| - 1], images[|images| - 1];
      PulledIsExact(front, keyOf, pull);
      assert images == front + [last];
      var m := Pulled(images, keyOf, pull).value;
      forall key | key in m
        ensures exists i :: i in images && keyOf(i) == Some(key)
      {
        if Some(key) == keyOf(last) {
          assert last in images;
        } else {
          var i :| i in front && keyOf(i) == Some(key);
          assert i in images;
        }
      }
    }
  }

  predicate CanBePulled(images: seq<string>, keyOf: KeyOf, pull: string -> Option<Artifact>) {
    forall i | i in images :: keyOf(i).Some? && pull(keyOf(i).value).Some?
  }

  /** And nothing else stops it than an image that has no key or cannot be pulled. */
  lemma {:induction false} PulledWhenAllCanBe(images: seq<string>, keyOf: KeyOf, pull: string -> Option<Artifact>)
    ensures Pulled(images, keyOf, pull).Some? <==> CanBePulled(images, keyOf, pull)
  {
    if images != [] {
      var front, last := images[..|images| - 1], images[|images| - 1];
      PulledWhenAllCanBe(front, keyOf, pull);
      assert images == front + [last];
      assert last in images;
    }
  }

  /** What `Generate` yields when the package is read from disk. */
  ghost function Rendered(p: Package, w: World): Option<Bytes> {
    match Identify(p)
    case ManifestType =>
      var src :- w.sources(p.manifestPath);
      if Packable(src, w.kustomize.legal) then Generated(TreeOf(src), w.kustomize) else None
    case ChartType =>
      var chart :- w.charts(p.chart);
      var files :- DiskChart(chart.src, w.helm);
      w.helm.render(files)
    case UnknownType => None
  }

  /** The layer a package is stored as. */
  ghost function PackageArtifact(p: Package, w: World): Option<Artifact>
    requires Real(w)
  {
    match Identify(p)
    case ManifestType =>
      var src :- w.sources(p.manifestPath);
      Some(InMemory(ManifestArchive(Packed(AfterGenerate(TreeOf(src), w.kustomize))), ManifestLayer))
    case ChartType =>
      var chart :- w.charts(p.chart);
      var data :- ChartArchive(Some(chart.at), Some(chart.src));
      Some(InMemory(ChartContent(data), ChartLayer))
    case UnknownType => None
  }

  function FoundImages(data: Bytes, w: World): seq<string> {
    Found(w.documents(data), KNOWN_IMAGE_PATHS, w.show)
  }

  /** Everything a package brings to the store: the images its rendering names, and itself. */
  ghost function Contents(p: Package, w: World): Option<Store>
    requires Real(w)
  {
    var data :- Rendered(p, w);
    var images :- Pulled(FoundImages(data, w), Keys(), w.pull);
    var artifact :- PackageArtifact(p, w);
    Some(images[Reference(p.name) := artifact])
  }

  /** A package brings exactly itself, as one layer, and what is pulled under the keys of the images
      that `data` names. */
  ghost predicate BringsJust(p: Package, w: World, data: Bytes, layer: Layer)
    requires Real(w)
  {
    && Contents(p, w).Some?
    && (forall r :: r in Contents(p, w).value <==>
                      r == Reference(p.name) || exists i | i in FoundImages(data, w) :: ImageKey(i) == Some(r))
    && (forall r | r in Contents(p, w).value ::
          if r == Reference(p.name) then Contents(p, w).value[r] == Artifact([layer])
          else w.pull(r) == Some(Contents(p, w).value[r]))
  }

  predicate AllPull(data: Bytes, w: World) {
    forall i | i in FoundImages(data, w) :: ImageKey(i).Some? && w.pull(ImageKey(i).value).Some?
  }

  lemma BroughtIsJust(p: Package, w: World, data: Bytes, layer: Layer)
    requires Real(w) && Rendered(p, w) == Some(data) && PackageArtifact(p, w) == Some(Artifact([layer]))
    ensures Contents(p, w).Some? <==> AllPull(data, w)
    ensures AllPull(data, w) ==> BringsJust(p, w, data, layer)
  {
    var found := FoundImages(data, w);
    PulledWhenAllCanBe(found, Keys(), w.pull);
    assert CanBePulled(found, Keys(), w.pull) <==> AllPull(data, w);
    if AllPull(data, w) {
      PulledIsExact(found, Keys(), w.pull);
      var images := Pulled(found, Keys(), w.pull).value;
      assert Contents(p, w).value == images[Reference(p.name) := Artifact([layer])];
      forall i | i in found ensures Keys()(i) == ImageKey(i) && ImageKey(i).value in images {
      }
    }
  }

  /** What the packing of a manifest directory needs: that it can be read throughout, that a root stands
      or can be made, that the files then build, and that every image named there can be pulled. */
  ghost predicate ManifestPacks(p: Package, w: World) {
    var src, k := w.sources(p.manifestPath), w.kustomize;
    && src.Some? && Packable(src.value, k.legal) && !CannotRoot(TreeOf(src.value), k)
    && k.build(RootedFiles(src.value, k)).Some? && AllPull(k.build(RootedFiles(src.value, k)).value, w)
  }

  /** A package with a manifest path is packed as a manifest, whatever its chart fields say: exactly
      when its directory packs, with an archive of the files that are built. */
  lemma ManifestsPackExactly(p: Package, w: World) returns (items: seq<Item>)
    requires Real(w) && p.manifestPath != ""
    ensures Contents(p, w).Some? <==> ManifestPacks(p, w)
    ensures ManifestPacks(p, w) ==>
              var files, k := RootedFiles(w.sources(p.manifestPath).value, w.kustomize), w.kustomize;
              && BringsJust(p, w, k.build(files).value, Layer(ManifestLayer, ManifestArchive(items)))
              && Unpacked(Some(items), k.legal).Some? && FilesOf(Unpacked(Some(items), k.legal).value) == files
  {
    items := [];
    var src, k := w.sources(p.manifestPath), w.kustomize;
    if src.Some? && Packable(src.value, k.legal) {
      DirectoryBuildsItsFiles(src.value, k);
      if Rooted(TreeOf(src.value), k).Some? {
        TransportPreservesMeaning(src.value, k);
        items := Packed(AfterGenerate(TreeOf(src.value), k));
        if k.build(RootedFiles(src.value, k)).Some? {
          BroughtIsJust(p, w, k.build(RootedFiles(src.value, k)).value, Layer(ManifestLayer, ManifestArchive(items)));
        }
      }
    }
  }

  predicate IsChart(p: Package) { p.manifestPath == "" && (p.chart.path != "" || p.chart.repoUrl != "") }

  ghost predicate ChartPacks(p: Package, w: World)
    requires Real(w)
  {
    var chart := w.charts(p.chart);
    && chart.Some? && ChartArchive(Some(chart.value.at), Some(chart.value.src)).Some?
    && var files := DiskChart(chart.value.src, w.helm);
       files.Some? && w.helm.render(files.value).Some? && AllPull(w.helm.render(files.value).value, w)
  }

  /** A package without one, but with a chart's path or repository, is packed as a chart: exactly when the
      chart is located, read, rendered and archived, and every image it names can be pulled. */
  lemma ChartsPackExactly(p: Package, w: World)
    requires Real(w) && IsChart(p)
    ensures Contents(p, w).Some? <==> ChartPacks(p, w)
    ensures ChartPacks(p, w) ==>
              var chart := w.charts(p.chart).value;
              var data := w.helm.render(DiskChart(chart.src, w.helm).value).value;
              var archive := ChartArchive(Some(chart.at), Some(chart.src)).value;
              BringsJust(p, w, data, Layer(ChartLayer, ChartContent(archive)))
  {
    if Rendered(p, w).Some? && PackageArtifact(p, w).Some? {
      BroughtIsJust(p, w, Rendered(p, w).value, PackageArtifact(p, w).value.layers[0]);
    }
  }

  /** And one with none of the three cannot be packed. */
  lemma OthersDoNotPack(p: Package, w: World)
    requires Real(w) && p.manifestPath == "" && p.chart.path == "" && p.chart.repoUrl == ""
    ensures Contents(p, w).None?
  {
  }

  method ManifestContents(p: Package, w: World) returns (coll: Option<Store>)
    requires Real(w) && Identify(p) == ManifestType
    ensures coll == Contents(p, w)
  {
    var ok, fs := GenerateFS(w.sources(p.manifestPath), w.kustomize.legal);
    if !ok {
      return None;
    }
    var m := new Manifest(p.name, fs);
    var data := m.Generate(w.kustomize);
    if data.None? {
      return None;
    }
    var found := Find(w.documents(data.value), KNOWN_IMAGE_PATHS, w.show);
    var images := CollectImages(found, Keys(), w.pull);
    if images.None? {
      return None;
    }
    var items := m.Tgz();
    coll := Some(images.value[Reference(m.name) := InMemory(ManifestArchive(items), ManifestLayer)]);
  }

  method ChartContents(p: Package, w: World) returns (coll: Option<Store>)
    requires Real(w) && Identify(p) == ChartType
    ensures coll == Contents(p, w)
  {
    var chart := w.charts(p.chart);
    if chart.None? {
      return None;
    }
    var files := DiskChart(chart.value.src, w.helm);
    if files.None? {
      return None;
    }
    var rendered := w.helm.render(files.value);
    if rendered.None? {
      return None;
    }
    var found := Find(w.documents(rendered.value), KNOWN_IMAGE_PATHS, w.show);
    var images := CollectImages(found, Keys(), w.pull);
    if images.None? {
      return None;
    }
    var data := Charts.Tgz(Some(chart.value.at), Some(chart.value.src));
    if data.None? {
      return None;
    }
    coll := Some(images.value[Reference(p.name) := InMemory(ChartContent(data.value), ChartLayer)]);
  }

  // ---------- The store ----------

  /** The store key of a configuration. */
  function ConfigReference(name: string): string {
    PathJoin([NAMESPACE, CONFIG_PREFIX + name])
  }

  function ConfigArtifact(k: Kevi): Artifact { InMemory(ConfigDoc(k), ConfigLayer) }

  /** Every reference of `before` is kept, and whatever is not as it was comes from `coll`. */
  ghost predicate PartlyAdded(before: Store, after: Store, coll: Store) {
    && before.Keys <= after.Keys
    && forall r | r in after :: (r in before && after[r] == before[r]) || (r in coll && after[r] == coll[r])
  }

  /** One call of `Pack`, successful or not. */
  ghost predicate PackStep(before: Store, after: Store, k: Kevi, w: World)
    requires Real(w)
  {
    JustPacked(before, after, k, w) || exists n: nat :: StoppedAt(before, after, k.packages, n, w)
  }

  /** The store a successful `Pack` leaves. */
  ghost predicate JustPacked(before: Store, store: Store, k: Kevi, w: World)
    requires Real(w)
  {
    && AllContents(k.packages, w).Some?
    && store == (before + AllContents(k.packages, w).value)[ConfigReference(k.name) := ConfigArtifact(k)]
  }

  /** The contents of each package, as a function value. */
  ghost function ContentsOf(w: World): Package -> Option<Store>
    requires Real(w)
  {
    p => Contents(p, w)
  }

  /** The contents of some packages, later ones over earlier ones. */
  function Gathered(ps: seq<Package>, contents: Package -> Option<Store>): Option<Store> {
    if ps == [] then Some(map[])
    else
      var front :- Gathered(ps[..|ps| - 1], contents);
      var last :- contents(ps[|ps| - 1]);
      Some(front + last)
  }

  ghost function AllContents(ps: seq<Package>, w: World): Option<Store>
    requires Real(w)
  {
    Gathered(ps, ContentsOf(w))
  }

  /** Every reference of `before` is kept, and whatever is not as it was comes from a package. */
  ghost predicate PartlyPacked(before: Store, after: Store, ps: seq<Package>, w: World)
    requires Real(w)
  {
    && before.Keys <= after.Keys
    && forall r | r in after ::
         (r in before && after[r] == before[r]) || exists i :: 0 <= i < |ps| && Brings(ps[i], w, r, after[r])
  }

  /** What a packing that stopped after `n` packages has done: added all of them, and some of the
      next one. */
  ghost predicate StoppedAt(before: Store, after: Store, ps: seq<Package>, n: nat, w: World)
    requires Real(w)
  {
    && n <= |ps| && AllContents(ps[..n], w).Some?
    && var mid := before + AllContents(ps[..n], w).value;
       if n < |ps| && Contents(ps[n], w).Some? then PartlyAdded(mid, after, Contents(ps[n], w).value) else after == mid
  }

  ghost predicate Brings(p: Package, w: World, r: string, a: Artifact)
    requires Real(w)
  {
    Contents(p, w).Some? && r in Contents(p, w).value && Contents(p, w).value[r] == a
  }

  class Oci {
    var store: Store

    /** How many additions have failed. */
    var refusals: nat

    constructor ()
      ensures store == map[] && refusals == 0
    {
      store, refusals := map[], 0;
    }

    /** Adding one artifact may fail at any time, and then adds nothing. */
    method AddOCI(a: Artifact, ref: string) returns (ok: bool)
      modifies this
      ensures store == if ok then old(store)[ref := a] else old(store)
      ensures refusals == if ok then old(refusals) else old(refusals) + 1
    {
      ok := *;
      if ok {
        store := store[ref := a];
      } else {
        refusals := refusals + 1;
      }
    }

    /** Adds a collection in any order, stopping at the first failure. */
    method AddOCICollection(coll: Store) returns (ok: bool)
      modifies this
      ensures ok ==> store == old(store) + coll
      ensures PartlyAdded(old(store), store, coll)
      ensures refusals == if ok then old(refusals) else old(refusals) + 1
    {
      var todo := coll.Keys;
      while todo != {}
        invariant todo <= coll.Keys
        invariant store == old(store) + (map r | r in coll && r !in todo :: coll[r])
        invariant refusals == old(refusals)
        decreases todo
      {
        var ref :| ref in todo;
        var added := AddOCI(coll[ref], ref);
        if !added {
          return false;
        }
        todo := todo - {ref};
      }
      ok := true;
    }

    /** `pack`: one package. It fails exactly when the package has no contents or an addition
        fails. */
    method PackOne(p: Package, w: World) returns (ok: bool)
      requires Real(w)
      modifies this
      ensures ok <==> Contents(p, w).Some? && refusals == old(refusals)
      ensures ok ==> store == old(store) + Contents(p, w).value
      ensures Contents(p, w).None? ==> store == old(store) && refusals == old(refusals)
      ensures Contents(p, w).Some? ==> PartlyAdded(old(store), store, Contents(p, w).value)
    {
      var coll: Option<Store>;
      match Identify(p) {
        case ManifestType => coll := ManifestContents(p, w);
        case ChartType => coll := ChartContents(p, w);
        case UnknownType => return false;
      }
      if coll.None? {
        return false;
      }
      ok := AddOCICollection(coll.value);
    }

    /** Packs every package of a configuration in order, and only then writes the configuration. It
        fails exactly when a package has no contents or an addition fails, and `n` is how many
        packages were then packed whole. */
    method Pack(k: Kevi, w: World) returns (ok: bool, ghost n: nat)
      requires Real(w)
      modifies this
      ensures ok <==> AllContents(k.packages, w).Some? && refusals == old(refusals)
      ensures ok ==> JustPacked(old(store), store, k, w)
      ensures PackStep(old(store), store, k, w)
      ensures !ok ==> StoppedAt(old(store), store, k.packages, n, w)
      ensures !ok ==> (refusals == old(refusals) <==> n < |k.packages| && Contents(k.packages[n], w).None?)
    {
      var ps := k.packages;
      n := 0;
      NothingPacked(store, ps, w);
      for i := 0 to |ps|
        invariant n == i && refusals == old(refusals)
        invariant PackedUpTo(old(store), store, ps, i, w)
      {
        ghost var before := store;
        var packed := PackOne(ps[i], w);
        if !packed {
          StopsAt(old(store), before, store, ps, i, w);
          return false, n;
        }
        OneMorePacked(old(store), before, store, ps, i, w);
        n := n + 1;
      }
      AllPacked(old(store), store, ps, w);
      ok := AddOCI(ConfigArtifact(k), ConfigReference(k.name));
    }

    /** Copies every reference to the registry in the order of the walk, stopping at the first
        that does not relocate or cannot be pushed, and for no other reason. Success returns the
        targets; a failure leaves exactly the first `n` of the walk copied. */
    method CopyAll(registry: Registry, relocate: Relocator, order: seq<string>, reachable: bool)
      returns (descs: Option<seq<string>>, ghost n: nat)
      requires IsWalk(order, store)
      modifies registry
      ensures n <= |order| && Copyable(order[..n], store, relocate)
      ensures registry.content == Copied(old(registry.content), store, order[..n], relocate)
      ensures descs.Some? <==> reachable && n == |order|
      ensures descs.Some? ==> JustCopied(old(registry.content), registry.content, store, order, relocate)
      ensures descs.Some? ==> |descs.value| == n && forall i | 0 <= i < n :: relocate(order[i]) == Some(descs.value[i])
      ensures !reachable ==> n == 0
      ensures registry.refusals > old(registry.refusals) <==> reachable && n < |order| && relocate(order[n]).Some?
    {
      n := 0;
      assert order[..0] == [];
      if !reachable {
        return None, n;
      }
      var done: seq<string> := [];
      for i := 0 to |order|
        modifies registry
        invariant n == i && |done| == i && Copyable(order[..i], store, relocate)
        invariant registry.refusals == old(registry.refusals)
        invariant registry.content == Copied(old(registry.content), store, order[..i], relocate)
        invariant forall k | 0 <= k < i :: relocate(order[k]) == Some(done[k])
      {
        assert order[i] in order;
        var to := relocate(order[i]);
        if to.None? {
          return None, n;
        }
        var pushed := registry.Push(to.value, store[order[i]]);
        if !pushed {
          return None, n;
        }
        CopiedStep(old(registry.content), store, order, i, relocate);
        done := done + [to.value];
        n := n + 1;
      }
      assert order[..|order|] == order;
      descs := Some(done);
    }
  }

  /** `after` is `start` with the contents of the first `i` packages. */
  ghost predicate PackedUpTo(start: Store, after: Store, ps: seq<Package>, i: nat, w: World)
    requires Real(w) && i <= |ps|
  {
    AllContents(ps[..i], w).Some? && after == start + AllContents(ps[..i], w).value
  }

  lemma NothingPacked(start: Store, ps: seq<Package>, w: World)
    requires Real(w)
    ensures PackedUpTo(start, start, ps, 0, w)
  {
    assert ps[..0] == [];
  }

  lemma OneMorePacked(start: Store, before: Store, after: Store, ps: seq<Package>, i: nat, w: World)
    requires Real(w) && i < |ps| && PackedUpTo(start, before, ps, i, w)
    requires Contents(ps[i], w).Some? && after == before + Contents(ps[i], w).value
    ensures PackedUpTo(start, after, ps, i + 1, w)
  {
    AllContentsStep(ps, i, w);
    OverlayTwice(start, AllContents(ps[..i], w).value, Contents(ps[i], w).value);
  }

  lemma AllContentsStep(ps: seq<Package>, i: nat, w: World)
    requires Real(w) && i < |ps| && AllContents(ps[..i], w).Some? && Contents(ps[i], w).Some?
    ensures AllContents(ps[..i + 1], w) == Some(AllContents(ps[..i], w).value + Contents(ps[i], w).value)
  {
    assert ps[..i + 1][..i] == ps[..i];
  }

  lemma StopsAt(start: Store, before: Store, after: Store, ps: seq<Package>, i: nat, w: World)
    requires Real(w) && i < |ps| && PackedUpTo(start, before, ps, i, w)
    requires Contents(ps[i], w).Some? ==> PartlyAdded(before, after, Contents(ps[i], w).value)
    requires Contents(ps[i], w).None? ==> after == before
    ensures StoppedAt(start, after, ps, i, w)
    ensures Contents(ps[i], w).None? ==> AllContents(ps, w).None?
  {
    if Contents(ps[i], w).None? {
      AllContentsStops(ps, i, w);
    }
  }

  lemma AllPacked(start: Store, after: Store, ps: seq<Package>, w: World)
    requires Real(w) && PackedUpTo(start, after, ps, |ps|, w)
    ensures AllContents(ps, w).Some? && after == start + AllContents(ps, w).value
    ensures StoppedAt(start, after, ps, |ps|, w)
  {
    assert ps[..|ps|] == ps;
  }

  /** When one package has no contents, all of them have none. */
  lemma {:induction false} AllContentsStops(ps: seq<Package>, i: nat, w: World)
    requires Real(w) && i < |ps| && Contents(ps[i], w).None?
    ensures AllContents(ps, w).None?
    decreases |ps|
  {
    if i < |ps| - 1 {
      AllContentsStops(ps[..|ps| - 1], i, w);
    }
  }

  /** What it is to bring something at `r`. */
  function Bringing(contents: Package -> Option<Store>, r: string): Package -> bool {
    p => contents(p).Some? && r in contents(p).value
  }

  /** `all` holds at `r` what the last of some packages that brings something there brings. */
  ghost predicate HoldsLast(all: Store, ps: seq<Package>, contents: Package -> Option<Store>, r: string) {
    && (forall i: nat | LastWhere(ps, Bringing(contents, r), i) ::
          contents(ps[i]).Some? && r in contents(ps[i]).value && r in all && all[r] == contents(ps[i]).value[r])
    && (r in all ==> exists i: nat :: LastWhere(ps, Bringing(contents, r), i))
  }

  lemma HoldsOneMore(all: Store, ps: seq<Package>, p: Package, contents: Package -> Option<Store>, r: string)
    requires HoldsLast(all, ps, contents, r) && contents(p).Some?
    ensures HoldsLast(all + contents(p).value, ps + [p], contents, r)
  {
    var brings, more := Bringing(contents, r), ps + [p];
    forall i: nat ensures LastWhere(more, brings, i) <==> if brings(p) then i == |ps| else LastWhere(ps, brings, i) {
      LastWhereOneMore(ps, p, brings, i);
    }
    if brings(p) {
      assert LastWhere(more, brings, |ps|);
    } else if r in all {
      var i: nat :| LastWhere(ps, brings, i);
      assert LastWhere(more, brings, i);
    }
  }

  lemma {:induction false} LastBroughtStays(ps: seq<Package>, contents: Package -> Option<Store>, r: string)
    requires Gathered(ps, contents).Some?
    ensures HoldsLast(Gathered(ps, contents).value, ps, contents, r)
  {
    if ps != [] {
      var n := |ps| - 1;
      LastBroughtStays(ps[..n], contents, r);
      HoldsOneMore(Gathered(ps[..n], contents).value, ps[..n], ps[n], contents, r);
      assert ps[..n] + [ps[n]] == ps;
    }
  }

  /** What some packages, and then one artifact, leave in a store. */
  lemma GatheredOver(before: Store, ps: seq<Package>, contents: Package -> Option<Store>, key: string, a: Artifact,
                     r: string)
    requires Gathered(ps, contents).Some?
    ensures var store := (before + Gathered(ps, contents).value)[key := a];
            && (r == key ==> store[r] == a)
            && (r != key ==> forall i: nat | LastWhere(ps, Bringing(contents, r), i) ::
                               var coll := contents(ps[i]);
                               coll.Some? && r in coll.value && r in store && store[r] == coll.value[r])
            && (r != key && !(exists i: nat :: LastWhere(ps, Bringing(contents, r), i)) ==>
                  (r in store <==> r in before) && (r in store ==> store[r] == before[r]))
  {
    LastBroughtStays(ps, contents, r);
  }

  /** Exactly what a successful packing leaves at a reference: at the configuration's own, the
      configuration, as one layer of its type; at any other, what the last package that brings it brings,
      or what was there. */
  lemma PackLeavesExactly(before: Store, store: Store, k: Kevi, w: World, r: string)
    requires Real(w) && JustPacked(before, store, k, w)
    ensures r == ConfigReference(k.name) ==>
              r in store && store[r] == Artifact([Layer(ConfigLayer, ConfigDoc(k))])
    ensures r != ConfigReference(k.name) ==>
              forall i: nat | LastWhere(k.packages, Bringing(ContentsOf(w), r), i) ::
                r in store && Brings(k.packages[i], w, r, store[r])
    ensures r != ConfigReference(k.name) && !(exists i: nat :: LastWhere(k.packages, Bringing(ContentsOf(w), r), i)) ==>
              (r in store <==> r in before) && (r in store ==> store[r] == before[r])
  {
    var contents := ContentsOf(w);
    GatheredOver(before, k.packages, contents, ConfigReference(k.name), ConfigArtifact(k), r);
    if r != ConfigReference(k.name) {
      forall i: nat | LastWhere(k.packages, Bringing(contents, r), i)
        ensures r in store && Brings(k.packages[i], w, r, store[r])
      {
        assert contents(k.packages[i]) == Contents(k.packages[i], w);
      }
    }
  }

  lemma OverlayTwice(s: Store, a: Store, b: Store)
    ensures s + (a + b) == (s + a) + b
  {
  }

  lemma StillPartlyPacked(start: Store, before: Store, after: Store, ps: seq<Package>, i: nat, w: World)
    requires Real(w) && i < |ps| && PartlyPacked(start, before, ps, w)
    requires Contents(ps[i], w).Some? ==> PartlyAdded(before, after, Contents(ps[i], w).value)
    requires Contents(ps[i], w).None? ==> after == before
    ensures PartlyPacked(start, after, ps, w)
  {
    forall r | r in after
      ensures (r in start && after[r] == start[r]) || exists j :: 0 <= j < |ps| && Brings(ps[j], w, r, after[r])
    {
      if r in before && after[r] == before[r] {
      } else {
        assert Brings(ps[i], w, r, after[r]);
      }
    }
  }
}
