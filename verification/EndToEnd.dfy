/** From a package on disk to a pod and a sync in the cluster: what packing, copying, the webhook
    and loading guarantee together. */
module EndToEnd {
  import opened Strs
  import opened Names
  import opened Paths
  import opened Relocation
  import opened Webhook
  import opened Discovery
  import opened Files
  import opened Manifests
  import opened Charts
  import opened Api
  import opened Copying
  import opened Packing
  import opened Stores
  import opened Installing
  import opened Deploying
  import opened Histories
  import opened Loading
  import opened Reconciling

  predicate UniqueNames(k: Kevi) {
    forall i, j | 0 <= i < j < |k.packages| :: k.packages[i].name != k.packages[j].name
  }

  // ---------- What a packing leaves at one reference ----------

  ghost predicate BringsOnly(p: Package, w: World, key: string, a: Artifact)
    requires Real(w)
  {
    Contents(p, w).Some? && key in Contents(p, w).value ==> Contents(p, w).value[key] == a
  }

  /** Some stores, later ones over earlier ones. */
  function Merged(cs: seq<Store>): Store {
    if cs == [] then map[] else Merged(cs[..|cs| - 1]) + cs[|cs| - 1]
  }

  lemma {:induction false} MergedAt(cs: seq<Store>, key: string, a: Artifact, i: nat)
    requires i < |cs| && key in cs[i]
    requires forall j | 0 <= j < |cs| :: key in cs[j] ==> cs[j][key] == a
    ensures key in Merged(cs) && Merged(cs)[key] == a
  {
    if i < |cs| - 1 {
      MergedAt(cs[..|cs| - 1], key, a, i);
    }
  }

  lemma {:induction false} GatheredEach(ps: seq<Package>, contents: Package -> Option<Store>) returns (cs: seq<Store>)
    requires Gathered(ps, contents).Some?
    ensures |cs| == |ps| && Gathered(ps, contents) == Some(Merged(cs))
    ensures forall j | 0 <= j < |ps| :: contents(ps[j]) == Some(cs[j])
  {
    cs := [];
    if ps != [] {
      var front := GatheredEach(ps[..|ps| - 1], contents);
      var last := contents(ps[|ps| - 1]).value;
      assert (front + [last])[..|front|] == front;
      cs := front + [last];
    }
  }

  lemma ContentsOfEach(ps: seq<Package>, w: World) returns (cs: seq<Store>)
    requires Real(w) && AllContents(ps, w).Some?
    ensures |cs| == |ps| && AllContents(ps, w) == Some(Merged(cs))
    ensures forall j | 0 <= j < |ps| :: Contents(ps[j], w) == Some(cs[j])
  {
    cs := GatheredEach(ps, ContentsOf(w));
    forall j | 0 <= j < |ps| ensures Contents(ps[j], w) == Some(cs[j]) {
      assert ContentsOf(w)(ps[j]) == Some(cs[j]);
    }
  }

  lemma AllContentsAt(ps: seq<Package>, w: World, key: string, a: Artifact, i: nat)
    requires Real(w) && AllContents(ps, w).Some? && i < |ps|
    requires forall j | 0 <= j < |ps| :: BringsOnly(ps[j], w, key, a)
    requires Brings(ps[i], w, key, a)
    ensures key in AllContents(ps, w).value && AllContents(ps, w).value[key] == a
  {
    var cs := ContentsOfEach(ps, w);
    forall j | 0 <= j < |cs| ensures key in cs[j] ==> cs[j][key] == a {
      assert BringsOnly(ps[j], w, key, a);
    }
    MergedAt(cs, key, a, i);
  }

  lemma EachHasContents(ps: seq<Package>, w: World, i: nat)
    requires Real(w) && AllContents(ps, w).Some? && i < |ps|
    ensures Contents(ps[i], w).Some?
  {
    var cs := ContentsOfEach(ps, w);
  }

  // ---------- Images ----------

  /** A configuration whose own keys, its packages' and its own, are not some image's key. */
  predicate Spares(k: Kevi, key: string) {
    ConfigReference(k.name) != key && forall j | 0 <= j < |k.packages| :: Reference(k.packages[j].name) != key
  }

  predicate SparesImage(k: Kevi, image: string) {
    ImageKey(image).Some? ==> Spares(k, ImageKey(image).value)
  }

  /** Every name stored under the namespace, as every clean one is. */
  predicate NamesInNamespace(k: Kevi) {
    && StoredInNamespace(CONFIG_PREFIX + k.name)
    && forall j | 0 <= j < |k.packages| :: StoredInNamespace(k.packages[j].name)
  }

  /** Such a configuration spares every image. */
  lemma StoredNamesSpareImages(k: Kevi, image: string)
    requires NamesInNamespace(k)
    ensures SparesImage(k, image)
  {
    if ImageKey(image).Some? {
      ImageKeysAreNotPackageKeys(image, CONFIG_PREFIX + k.name);
      forall j | 0 <= j < |k.packages| ensures Reference(k.packages[j].name) != ImageKey(image).value {
        ImageKeysAreNotPackageKeys(image, k.packages[j].name);
      }
    }
  }

  lemma GoodNamesAreInNamespace(k: Kevi, c: Setting)
    requires GoodConfig(k, c)
    ensures NamesInNamespace(k)
  {
    CleanNamesAreStoredInNamespace(CONFIG_PREFIX + k.name);
    forall j | 0 <= j < |k.packages| ensures StoredInNamespace(k.packages[j].name) {
      assert GoodPackage(k.packages[j], c);
      CleanNamesAreStoredInNamespace(k.packages[j].name);
    }
  }

  /** An image found in a package is in the store under its key, with what was pulled. */
  lemma FoundImageIsStored(before: Store, store: Store, k: Kevi, w: World, i: nat, image: string) returns (key: string)
    requires Real(w) && SparesImage(k, image) && JustPacked(before, store, k, w)
    requires i < |k.packages| && Rendered(k.packages[i], w).Some?
    requires image in FoundImages(Rendered(k.packages[i], w).value, w)
    ensures ImageKey(image) == Some(key) && w.pull(key).Some?
    ensures key in store && store[key] == w.pull(key).value
  {
    var ps := k.packages;
    EachHasContents(ps, w, i);
    key := ImageIsBrought(k, w, i, image);
    var a := w.pull(key).value;
    forall j | 0 <= j < |ps| ensures BringsOnly(ps[j], w, key, a) {
      ImageIsBroughtOnly(ps[j], w, key);
    }
    AllContentsAt(ps, w, key, a, i);
  }

  lemma ImageIsBrought(k: Kevi, w: World, i: nat, image: string) returns (key: string)
    requires Real(w) && SparesImage(k, image) && i < |k.packages|
    requires Contents(k.packages[i], w).Some? && Rendered(k.packages[i], w).Some?
    requires image in FoundImages(Rendered(k.packages[i], w).value, w)
    ensures ImageKey(image) == Some(key) && Spares(k, key)
    ensures w.pull(key).Some? && Brings(k.packages[i], w, key, w.pull(key).value)
  {
    var images, artifact := ContentsShape(k.packages[i], w);
    key := PulledImageKey(FoundImages(Rendered(k.packages[i], w).value, w), w, images, image);
  }

  lemma PulledImageKey(found: seq<string>, w: World, images: Store, image: string) returns (key: string)
    requires Pulled(found, Keys(), w.pull) == Some(images) && image in found
    ensures ImageKey(image) == Some(key) && w.pull(key).Some? && key in images && images[key] == w.pull(key).value
  {
    PulledIsExact(found, Keys(), w.pull);
    assert Keys()(image).Some?;
    key := ImageKey(image).value;
  }

  lemma ImageIsBroughtOnly(p: Package, w: World, key: string)
    requires Real(w) && Reference(p.name) != key && w.pull(key).Some?
    ensures BringsOnly(p, w, key, w.pull(key).value)
  {
    if Contents(p, w).Some? && key in Contents(p, w).value {
      WhatIsBrought(p, w, key, Contents(p, w).value[key]);
    }
  }

  /** An image of a generated package, at one of the known paths. */
  ghost predicate ImageOf(p: Package, w: World, image: string)
    requires Real(w)
  {
    Rendered(p, w).Some? && NamesImage(w.documents(Rendered(p, w).value), Str(image)) && Word(image)
  }

  /** End to end for images. Once a configuration has been packed and the store, whatever was
      packed into it since, copied without error to a self-delimiting host, the webhook rewrites
      each dotless, space-free image at a known path of a generated package to a reference of that
      host which the registry holds. The packing stored the image's own content under its key, if only
      the configuration's own keys are not that key; and what the registry holds is what the store
      holds there when no other of its references relocates to the same target. (On Docker Hub as a
      target, long one-segment images are refused instead.) */
  lemma RewrittenImagesAreHeld(before: Store, packed: Store, store: Store, k: Kevi, w: World,
                               registry0: Store, registry: Store, order: seq<string>, host: string,
                               i: nat, image: string)
    requires Real(w) && JustPacked(before, packed, k, w) && packed.Keys <= store.Keys
    requires SelfDelimiting(host) && JustCopied(registry0, registry, store, order, ToHost(host))
    requires i < |k.packages| && ImageOf(k.packages[i], w, image) && SparesImage(k, image)
    ensures Parse(image).Some? && ImageKey(image).Some?
    ensures var key := ImageKey(image).value; w.pull(key).Some? && key in packed && packed[key] == w.pull(key).value
    ensures var r := Parse(image).value; var key := ImageKey(image).value;
            Dotless(r) && !Overflows(r, host) ==>
              && Rewrite(image, host) == Some(Name(Ref(Repo(Normal(host), RepoStr(r.repo)), r.kind, r.id)))
              && Rewrite(image, host).value in registry
              && (Alone(key, store, ToHost(host)) ==> registry[Rewrite(image, host).value] == store[key])
    ensures Overflows(Parse(image).value, host) ==> Rewrite(image, host).None?
  {
    ImageIsFound(w.documents(Rendered(k.packages[i], w).value), image, w.show);
    var key := FoundImageIsStored(before, packed, k, w, i, image);
    var relocate := ToHost(host);
    assert key in order;
    TargetsAreHeld(registry0, store, order, relocate, key);
    KeyRelocatesAlike(image, host);
    RewriteIsRelocate(image, host);
    DotlessTarget(image, host);
    if Alone(key, store, relocate) {
      AloneIsKept(registry0, store, order, relocate, key);
    }
  }

  lemma DotlessTarget(image: string, host: string)
    requires SelfDelimiting(host) && Parse(image).Some? && Relocate(image, host).Some?
    ensures var r := Parse(image).value;
            Dotless(r) ==> Relocate(image, host).value == Name(Ref(Repo(Normal(host), RepoStr(r.repo)), r.kind, r.id))
  {
    RelocateParsed(image, host);
    LandingShape(image, host);
  }

  /** An image the admitted pod can run: what its rewriting asks for is in the registry, with the
      content pulled for the image when it was packed. */
  ghost predicate Served(image: string, admitted: string, w: World, registry: Store) {
    && ImageKey(image).Some? && w.pull(ImageKey(image).value).Some?
    && admitted in registry && registry[admitted] == w.pull(ImageKey(image).value).value
  }

  /** An image of the configuration that the webhook handles, and that shares its target with no other
      reference of the store. */
  ghost predicate PackedImage(image: string, k: Kevi, w: World, store: Store, host: string)
    requires Real(w)
  {
    && (exists i :: 0 <= i < |k.packages| && ImageOf(k.packages[i], w, image))
    && (Parse(image).Some? ==> Dotless(Parse(image).value) && !Overflows(Parse(image).value, host))
    && (ImageKey(image).Some? ==> Alone(ImageKey(image).value, store, ToHost(host)))
  }

  lemma PackedImageIsServed(before: Store, store: Store, k: Kevi, w: World,
                            registry0: Store, registry: Store, order: seq<string>, host: string, image: string)
    requires Real(w) && JustPacked(before, store, k, w)
    requires SelfDelimiting(host) && JustCopied(registry0, registry, store, order, ToHost(host))
    requires PackedImage(image, k, w, store, host) && SparesImage(k, image)
    ensures Served(image, RewriteOrKeep(image, Rewriter(host)), w, registry)
  {
    var i :| 0 <= i < |k.packages| && ImageOf(k.packages[i], w, image);
    RewrittenImagesAreHeld(before, store, store, k, w, registry0, registry, order, host, i, image);
  }

  /** The same, of a pod: when each of its images is such an image of some package of the
      configuration just packed, every container of the admitted pod, of either list, asks for what
      the registry holds as that image. */
  lemma AdmittedPodsAreServed(before: Store, store: Store, k: Kevi, w: World,
                              registry0: Store, registry: Store, order: seq<string>, host: string, pod: Pod)
    requires Real(w) && JustPacked(before, store, k, w)
    requires SelfDelimiting(host) && JustCopied(registry0, registry, store, order, ToHost(host))
    requires forall i | 0 <= i < |pod.initContainers| ::
               && PackedImage(pod.initContainers[i].image, k, w, store, host)
               && SparesImage(k, pod.initContainers[i].image)
    requires forall i | 0 <= i < |pod.containers| ::
               && PackedImage(pod.containers[i].image, k, w, store, host)
               && SparesImage(k, pod.containers[i].image)
    ensures var admitted := Admitted(pod, host);
            && |admitted.initContainers| == |pod.initContainers| && |admitted.containers| == |pod.containers|
            && (forall i | 0 <= i < |pod.initContainers| ::
                  Served(pod.initContainers[i].image, admitted.initContainers[i].image, w, registry))
            && (forall i | 0 <= i < |pod.containers| ::
                  Served(pod.containers[i].image, admitted.containers[i].image, w, registry))
  {
    forall image | PackedImage(image, k, w, store, host) && SparesImage(k, image)
      ensures Served(image, RewriteOrKeep(image, Rewriter(host)), w, registry)
    {
      PackedImageIsServed(before, store, k, w, registry0, registry, order, host, image);
    }
  }

  // ---------- Packages ----------

  /** A package whose key is its own, and read where it is written: its name does not climb above the
      parent of the namespace, its key has several segments and names no registry, and neither another
      package nor the configuration is stored under it. */
  predicate OwnsItsKey(k: Kevi, i: nat)
    requires i < |k.packages|
  {
    var name := k.packages[i].name;
    && Contained(NAMESPACE, name) && Undelimited(Reference(name))
    && ConfigReference(k.name) != Reference(name)
    && forall j | 0 <= j < |k.packages| && j != i :: Reference(k.packages[j].name) != Reference(name)
  }

  /** As every package of a good configuration with unique names does. */
  lemma GoodPackagesOwnTheirKeys(k: Kevi, c: Setting, i: nat)
    requires GoodConfig(k, c) && UniqueNames(k) && i < |k.packages|
    ensures OwnsItsKey(k, i)
  {
    var name := k.packages[i].name;
    assert GoodPackage(k.packages[i], c);
    CleanNamesAreTidy(name);
    InsideNamesAreUndelimited(name);
    ConfigIsNoPackage(k.name, name);
    forall j | 0 <= j < |k.packages| && j != i ensures Reference(k.packages[j].name) != Reference(name) {
      assert GoodPackage(k.packages[j], c);
      assert k.packages[j].name != name;
      if Reference(k.packages[j].name) == Reference(name) {
        ReferenceIsInjective(k.packages[j].name, name);
      }
    }
  }

  lemma NoImageAt(key: string)
    requires Undelimited(key)
    ensures !IsImageKey(key)
  {
    if image :| ImageKey(image) == Some(key) {
      ImageKeysAreDelimited(image);
    }
  }

  lemma PackageIsBroughtOnly(p: Package, w: World, key: string, a: Artifact)
    requires Real(w) && !IsImageKey(key)
    requires Reference(p.name) == key ==> PackageArtifact(p, w) == Some(a)
    ensures BringsOnly(p, w, key, a)
  {
    if Contents(p, w).Some? && key in Contents(p, w).value {
      var images, artifact := ContentsShape(p, w);
      WhatIsBrought(p, w, key, Contents(p, w).value[key]);
    }
  }

  /** A packed package is in the store under its reference, as it was made. */
  lemma PackageIsStored(before: Store, store: Store, k: Kevi, w: World, i: nat) returns (a: Artifact)
    requires Real(w) && JustPacked(before, store, k, w) && i < |k.packages| && OwnsItsKey(k, i)
    ensures Contents(k.packages[i], w).Some? && PackageArtifact(k.packages[i], w) == Some(a)
    ensures Reference(k.packages[i].name) in store && store[Reference(k.packages[i].name)] == a
  {
    var ps, key := k.packages, Reference(k.packages[i].name);
    EachHasContents(ps, w, i);
    var images, artifact := ContentsShape(ps[i], w);
    a := artifact;
    NoImageAt(key);
    forall j | 0 <= j < |ps| ensures BringsOnly(ps[j], w, key, a) {
      PackageIsBroughtOnly(ps[j], w, key, a);
    }
    AllContentsAt(ps, w, key, a, i);
  }

  /** The store still holds a package as it was packed: nothing has been packed under its name
      since. */
  predicate StillThere(p: Package, packed: Store, store: Store) {
    var key := Reference(p.name);
    key in packed && key in store && store[key] == packed[key]
  }

  /** And in the registry at the address it is read from, when no other reference relocates there. */
  lemma PackageIsLocated(before: Store, packed: Store, store: Store, k: Kevi, w: World,
                         registry0: Store, registry: Store, order: seq<string>, host: string, i: nat)
    returns (a: Artifact)
    requires Real(w) && JustPacked(before, packed, k, w) && i < |k.packages| && OwnsItsKey(k, i)
    requires GoodHost(host) && JustCopied(registry0, registry, store, order, ToHost(host))
    requires StillThere(k.packages[i], packed, store) && Alone(Reference(k.packages[i].name), store, ToHost(host))
    ensures Contents(k.packages[i], w).Some? && PackageArtifact(k.packages[i], w) == Some(a)
    ensures var at := Locate(host, k.packages[i].name); at in registry && registry[at] == a
  {
    a := PackageIsStored(before, packed, k, w, i);
    AloneIsKept(registry0, store, order, ToHost(host), Reference(k.packages[i].name));
    UndelimitedNamesAreFound(k.packages[i].name, host);
  }

  /** Helm skips nothing of a package that is a chart directory. */
  ghost predicate Unskipped(p: Package, w: World) {
    Identify(p) == ChartType && w.charts(p.chart).Some? ==> NothingSkipped(w.charts(p.chart).value.src, w.helm)
  }

  /** No chart stands at the root of the file system. */
  predicate NotAtRoot(p: Package, w: World) {
    Identify(p) == ChartType && w.charts(p.chart).Some? ==> w.charts(p.chart).value.at != []
  }

  lemma PackedManifestMeansTheSame(p: Package, w: World, r: Reader, a: Artifact)
    requires Real(w) && Identify(p) == ManifestType && Contents(p, w).Some? && PackageArtifact(p, w) == Some(a)
    requires TheLayer(r.registry, r.host, p) == Some(a.layers[0].payload) && r.kustomize == w.kustomize
    ensures LoadedTree(r.registry, r.host, p, r.kustomize.legal).Some? && Rendered(p, w).Some?
    ensures LoadedData(p, r) == Rendered(p, w)
  {
    var images, artifact := ContentsShape(p, w);
    TransportPreservesMeaning(w.sources(p.manifestPath).value, w.kustomize);
  }

  lemma PackedChartMeansTheSame(p: Package, w: World, r: Reader, a: Artifact)
    requires Real(w) && Identify(p) == ChartType && Contents(p, w).Some? && PackageArtifact(p, w) == Some(a)
    requires TheLayer(r.registry, r.host, p) == Some(a.layers[0].payload) && r.helm == w.helm && NotAtRoot(p, w)
    ensures w.charts(p.chart).Some? && DiskChart(w.charts(p.chart).value.src, w.helm).Some?
    ensures a.layers[0].payload.ChartContent?
    ensures ChartFiles(a.layers[0].payload.chart, r.helm) == DiskChart(w.charts(p.chart).value.src, w.helm)
            <==> Unskipped(p, w)
    ensures Unskipped(p, w) ==>
              && LoadedFiles(r.registry, r.host, p, r.helm) == DiskChart(w.charts(p.chart).value.src, w.helm)
              && LoadedData(p, r) == Rendered(p, w)
  {
    var images, artifact := ContentsShape(p, w);
    var chart := w.charts(p.chart).value;
    ChartsAreReadBack(chart.at, chart.src, w.helm);
  }

  /** What a package on disk is built of, and gives: a directory of manifests its own files with a root,
      a chart the files of its directory, or those of its archive. */
  ghost function DiskBuild(p: Package, w: World): Option<Bytes> {
    if p.manifestPath != "" then
      var src :- w.sources(p.manifestPath);
      w.kustomize.build(RootedFiles(src, w.kustomize))
    else
      var chart :- w.charts(p.chart);
      if [] !in chart.src then None
      else if chart.src[[]].SourceFile? then
        var files :- w.helm.open(chart.src[[]].data);
        w.helm.render(files)
      else w.helm.render(SourceFiles(chart.src))
  }

  lemma RenderedIsBuilt(p: Package, w: World)
    requires Real(w) && Contents(p, w).Some? && Unskipped(p, w)
    ensures Rendered(p, w) == DiskBuild(p, w) && DiskBuild(p, w).Some?
  {
    if p.manifestPath != "" {
      DirectoryBuildsItsFiles(w.sources(p.manifestPath).value, w.kustomize);
    } else {
      var src := w.charts(p.chart).value.src;
      if src[[]].SourceDir? {
        assert DiskFiles(src, w.helm) == Some(SourceFiles(src)) by {
          UnskippedFiles(src, w.helm);
        }
      }
    }
  }

  /** What the theorems on packages ask of the `i`-th: its key is its own, nothing has been packed over
      it since, no other reference relocates to its target, and it is no chart at the root. */
  ghost predicate CanBeFound(k: Kevi, i: nat, packed: Store, store: Store, w: World, host: string)
    requires i < |k.packages|
  {
    && OwnsItsKey(k, i) && StillThere(k.packages[i], packed, store) && NotAtRoot(k.packages[i], w)
    && Alone(Reference(k.packages[i].name), store, ToHost(host))
  }

  /** A reader in the cluster, with the kustomize and the helm that packed. */
  ghost predicate ReadsFrom(r: Reader, registry: Store, host: string, w: World) {
    r.registry == registry && r.host == host && r.kustomize == w.kustomize && r.helm == w.helm
  }

  /** End to end for packages. Once a configuration has been packed and the store, while it still
      holds a package of it, copied without error, the package is found in the registry as its one
      layer. A package of manifests then loads and builds, byte for byte, what it built when it was
      packed. Of a chart helm finds the very files it found on disk if and only if its ignore rules
      skip none of them, and then the chart loads and builds the same. */
  lemma LoadedPackagesMeanTheSame(before: Store, packed: Store, store: Store, k: Kevi, w: World,
                                  registry0: Store, order: seq<string>, r: Reader, i: nat)
    requires Real(w) && JustPacked(before, packed, k, w) && ReadsFrom(r, r.registry, r.host, w)
    requires GoodHost(r.host) && JustCopied(registry0, r.registry, store, order, ToHost(r.host))
    requires i < |k.packages| && CanBeFound(k, i, packed, store, w, r.host)
    ensures var p := k.packages[i];
            && Rendered(p, w).Some?
            && (Unskipped(p, w) ==> LoadedData(p, r) == Rendered(p, w) == DiskBuild(p, w))
            && (Identify(p) == ManifestType ==> LoadedTree(r.registry, r.host, p, r.kustomize.legal).Some?)
            && (Identify(p) == ChartType ==>
                  && w.charts(p.chart).Some?
                  && var layer := TheLayer(r.registry, r.host, p);
                     && layer.Some? && layer.value.ChartContent?
                     && (ChartFiles(layer.value.chart, r.helm) == DiskChart(w.charts(p.chart).value.src, w.helm)
                         <==> Unskipped(p, w)))
            && Identify(p) != UnknownType
  {
    var p := k.packages[i];
    var a := PackageIsLocated(before, packed, store, k, w, registry0, r.registry, order, r.host, i);
    var images, artifact := ContentsShape(p, w);
    if Unskipped(p, w) {
      RenderedIsBuilt(p, w);
    }
    LayerOfPackage(p, r.registry, r.host, a);
    if Identify(p) == ManifestType {
      PackedManifestMeansTheSame(p, w, r, a);
    } else {
      PackedChartMeansTheSame(p, w, r, a);
    }
  }

  /** So a reconcile in the cluster works on the objects that the packages on disk build to. */
  lemma ReconciledObjectsAreThePackedOnes(before: Store, packed: Store, store: Store, k: Kevi, w: World,
                                          registry0: Store, order: seq<string>, r: Reader, i: nat)
    requires Real(w) && JustPacked(before, packed, k, w) && ReadsFrom(r, r.registry, r.host, w)
    requires GoodHost(r.host) && JustCopied(registry0, r.registry, store, order, ToHost(r.host))
    requires i < |k.packages| && CanBeFound(k, i, packed, store, w, r.host) && Unskipped(k.packages[i], w)
    ensures DiskBuild(k.packages[i], w).Some?
    ensures ObjectsOf(k.packages[i], r) == r.split(DiskBuild(k.packages[i], w).value)
  {
    LoadedPackagesMeanTheSame(before, packed, store, k, w, registry0, order, r, i);
  }

  /** The objects a package on disk builds to. */
  ghost function BuiltOnDisk(w: World, split: Bytes -> Option<seq<Object>>): Objectify {
    p => if DiskBuild(p, w).Some? then split(DiskBuild(p, w).value) else None
  }

  /** And what a successful reconcile leaves in the cluster is decided by the packages on disk: all the
      objects they build to, applied in order, less the managed ones that the last does not list. */
  lemma ReconciledClusterIsThePackedOne(before: Store, packed: Store, store: Store, k: Kevi, w: World,
                                        registry0: Store, order: seq<string>, r: Reader, live: Objects, after: Objects)
    requires Real(w) && JustPacked(before, packed, k, w) && ReadsFrom(r, r.registry, r.host, w)
    requires GoodHost(r.host) && JustCopied(registry0, r.registry, store, order, ToHost(r.host))
    requires k.packages != []
    requires forall i | 0 <= i < |k.packages| ::
               CanBeFound(k, i, packed, store, w, r.host) && Unskipped(k.packages[i], w)
    requires Outcome(live, after, k.packages, r, |k.packages|, false)
    ensures var lists := AllOf(k.packages, BuiltOnDisk(w, r.split));
            && lists.Some?
            && after == Kept(Overlay(live, Concat(lists.value)), LastOf(lists.value))
  {
    AllObjectsAreThePackedOnes(before, packed, store, k, w, registry0, order, r);
    SuccessLeavesExactly(live, after, k.packages, r);
  }

  lemma AllObjectsAreThePackedOnes(before: Store, packed: Store, store: Store, k: Kevi, w: World,
                                   registry0: Store, order: seq<string>, r: Reader)
    requires Real(w) && JustPacked(before, packed, k, w) && ReadsFrom(r, r.registry, r.host, w)
    requires GoodHost(r.host) && JustCopied(registry0, r.registry, store, order, ToHost(r.host))
    requires forall i | 0 <= i < |k.packages| ::
               CanBeFound(k, i, packed, store, w, r.host) && Unskipped(k.packages[i], w)
    ensures AllObjects(k.packages, r) == AllOf(k.packages, BuiltOnDisk(w, r.split))
  {
    var ps := k.packages;
    forall i | 0 <= i < |ps| ensures ReadBy(r)(ps[i]) == BuiltOnDisk(w, r.split)(ps[i]) {
      assert CanBeFound(k, i, packed, store, w, r.host) && Unskipped(ps[i], w);
      ReconciledObjectsAreThePackedOnes(before, packed, store, k, w, registry0, order, r, i);
    }
    AllOfAlike(ps, ReadBy(r), BuiltOnDisk(w, r.split));
  }

  // ---------- The whole way ----------

  /** Every package of a configuration that shares its target with no other reference builds, for every
      such reader, what it built on disk. */
  ghost predicate AllMeanTheSame(k: Kevi, w: World, store: Store, registry: Store, host: string)
    requires Real(w)
  {
    forall r: Reader, i | && ReadsFrom(r, registry, host, w) && 0 <= i < |k.packages|
                          && NotAtRoot(k.packages[i], w) && Unskipped(k.packages[i], w)
                          && Alone(Reference(k.packages[i].name), store, ToHost(host)) ::
      DiskBuild(k.packages[i], w).Some? && LoadedData(k.packages[i], r) == DiskBuild(k.packages[i], w)
  }

  /** And every image of it that the webhook handles is rewritten to what is held as that image. */
  ghost predicate AllServed(k: Kevi, w: World, store: Store, registry: Store, host: string)
    requires Real(w)
  {
    forall image | PackedImage(image, k, w, store, host) ::
      Served(image, RewriteOrKeep(image, Rewriter(host)), w, registry)
  }

  lemma CopiedPackagesMeanTheSame(before: Store, store: Store, k: Kevi, w: World,
                                  registry0: Store, registry: Store, order: seq<string>, host: string)
    requires Real(w) && JustPacked(before, store, k, w) && forall i | 0 <= i < |k.packages| :: OwnsItsKey(k, i)
    requires GoodHost(host) && JustCopied(registry0, registry, store, order, ToHost(host))
    ensures AllMeanTheSame(k, w, store, registry, host)
  {
    forall r: Reader, i | && ReadsFrom(r, registry, host, w) && 0 <= i < |k.packages|
                          && NotAtRoot(k.packages[i], w) && Unskipped(k.packages[i], w)
                          && Alone(Reference(k.packages[i].name), store, ToHost(host))
      ensures DiskBuild(k.packages[i], w).Some? && LoadedData(k.packages[i], r) == DiskBuild(k.packages[i], w)
    {
      var a := PackageIsStored(before, store, k, w, i);
      LoadedPackagesMeanTheSame(before, store, store, k, w, registry0, order, r, i);
    }
  }

  lemma CopiedImagesAreServed(before: Store, store: Store, k: Kevi, w: World,
                              registry0: Store, registry: Store, order: seq<string>, host: string)
    requires Real(w) && JustPacked(before, store, k, w) && NamesInNamespace(k)
    requires SelfDelimiting(host) && JustCopied(registry0, registry, store, order, ToHost(host))
    ensures AllServed(k, w, store, registry, host)
  {
    forall image | PackedImage(image, k, w, store, host)
      ensures Served(image, RewriteOrKeep(image, Rewriter(host)), w, registry)
    {
      StoredNamesSpareImages(k, image);
      PackedImageIsServed(before, store, k, w, registry0, registry, order, host, image);
    }
  }

  lemma WhatIsCopiedServes(before: Store, store: Store, k: Kevi, w: World, c: Setting,
                           registry0: Store, registry: Store, order: seq<string>, host: string)
    requires Real(w) && GoodConfig(k, c) && UniqueNames(k) && JustPacked(before, store, k, w)
    requires GoodHost(host) && JustCopied(registry0, registry, store, order, ToHost(host))
    ensures AllMeanTheSame(k, w, store, registry, host) && AllServed(k, w, store, registry, host)
  {
    forall i | 0 <= i < |k.packages| ensures OwnsItsKey(k, i) {
      GoodPackagesOwnTheirKeys(k, c, i);
    }
    CopiedPackagesMeanTheSame(before, store, k, w, registry0, registry, order, host);
    GoodNamesAreInNamespace(k, c);
    CopiedImagesAreServed(before, store, k, w, registry0, registry, order, host);
  }

  /** Every configuration of a store has been applied, as it was packed. */
  ghost predicate AllApplied(store: Store, applied: seq<Kevi>) {
    forall n | GoodConfigName(n) && ConfigReference(n) in store ::
      exists k :: k in applied && k.name == n && store[ConfigReference(n)] == ConfigArtifact(k)
  }

  lemma ConfigsAreApplied(store: Store, order: seq<string>, before: seq<Kevi>, applied: seq<Kevi>, c: Setting)
    requires StoreOk(store, c) && IsWalk(order, store) && Applies(order, store, c.decoder).Some?
    requires applied == before + Applies(order, store, c.decoder).value
    ensures AllApplied(store, applied)
  {
    var ks := Applies(order, store, c.decoder).value;
    DeployingAppliesEveryConfig(order, store, c);
    forall n | GoodConfigName(n) && ConfigReference(n) in store
      ensures exists k :: k in applied && k.name == n && store[ConfigReference(n)] == ConfigArtifact(k)
    {
      assert IsAmong(n, ks);
      var i :| 0 <= i < |ks| && ks[i].name == n;
      assert ks[i] in applied;
    }
  }

  lemma PackedConfigIsApplied(store: Store, k: Kevi, applied: seq<Kevi>)
    requires AllApplied(store, applied) && GoodConfigName(k.name)
    requires ConfigReference(k.name) in store && store[ConfigReference(k.name)] == ConfigArtifact(k)
    ensures k in applied
  {
    var other :| other in applied && other.name == k.name && store[ConfigReference(k.name)] == ConfigArtifact(other);
    assert ConfigArtifact(other) == ConfigArtifact(k);
  }

  /** The way kevi is used: a configuration is packed, and the store deployed. When both succeed every
      configuration of the store has been applied, this one included; each of its packages builds in the
      cluster what it built on disk and each of its images is served, unless another reference of the
      store shares the target. */
  method PackAndDeploy(oci: Oci, registry: Registry, cluster: Cluster, k: Kevi, w: World, start: Start,
                       host: string, decoder: Decoder, ghost c: Setting)
    returns (ok: bool)
    requires GoodWorld(w, c) && GoodConfig(k, c) && UniqueNames(k) && GoodHost(host)
    requires StoreOk(oci.store, c) && decoder == c.decoder
    modifies oci, registry, cluster
    ensures StoreOk(oci.store, c) && old(oci.store).Keys <= oci.store.Keys
    ensures ok ==> AllApplied(oci.store, cluster.applied) && k in cluster.applied
    ensures ok ==> AllMeanTheSame(k, w, oci.store, registry.content, host)
    ensures ok ==> AllServed(k, w, oci.store, registry.content, host)
  {
    ghost var before := oci.store;
    var packed, n := oci.Pack(k, w);
    PackKeepsStoreOk(before, oci.store, k, w, c);
    if !packed {
      return false;
    }
    var order := WalkOf(oci.store);
    var order2 := WalkOf(oci.store);
    ghost var base := registry.content;
    ghost var wrote, installed, copied, visited;
    ok, wrote, installed, copied, visited := Deploy(oci, registry, cluster, host, start, order, order2, decoder);
    if ok {
      base := if wrote then WithController(base, host, start.image.value) else base;
      assert order[..|order|] == order;
      ConfigsAreApplied(oci.store, order2, old(cluster.applied), cluster.applied, c);
      PackedConfigIsApplied(oci.store, k, cluster.applied);
      WhatIsCopiedServes(before, oci.store, k, w, c, base, registry.content, order, host);
    }
  }
}
