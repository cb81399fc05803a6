/** Reading a package back from a registry. */
module Loading {
  import opened Strs
  import opened Relocation
  import opened Files
  import opened Archives
  import opened Manifests
  import opened Charts
  import opened Api

  function LayersOf(layers: seq<Layer>, mediaType: MediaType): seq<Layer> {
    if layers == [] then []
    else
      var last := layers[|layers| - 1];
      LayersOf(layers[..|layers| - 1], mediaType) + if last.mediaType == mediaType then [last] else []
  }

  /** The layers of the type asked for, in the artifact at the package's address. */
  function Fetched(registry: Store, host: string, p: Package): Option<seq<Layer>> {
    var mediaType :- MediaOf(Identify(p));
    if Locate(host, p.name) !in registry then None
    else Some(LayersOf(registry[Locate(host, p.name)].layers, mediaType))
  }

  /** `Fetch`: copies the allowed layers and collects them. */
  method Fetch(registry: Store, host: string, p: Package) returns (ldescs: Option<seq<Layer>>)
    ensures ldescs == Fetched(registry, host, p)
  {
    var ref := Locate(host, p.name);
    var mediaType := MediaOf(Identify(p));
    if mediaType.None? || ref !in registry {
      return None;
    }
    var allowed := KeepLayers(registry[ref].layers, mediaType.value);
    ldescs := Some(allowed);
  }

  /** The layers the copy passes to its callback. */
  method KeepLayers(layers: seq<Layer>, mediaType: MediaType) returns (kept: seq<Layer>)
    ensures kept == LayersOf(layers, mediaType)
  {
    kept := [];
    for i := 0 to |layers|
      invariant kept == LayersOf(layers[..i], mediaType)
    {
      LayersStep(layers, i, mediaType);
      if layers[i].mediaType == mediaType {
        kept := kept + [layers[i]];
      }
    }
    assert layers[..|layers|] == layers;
  }

  lemma LayersStep(layers: seq<Layer>, i: nat, mediaType: MediaType)
    requires i < |layers|
    ensures LayersOf(layers[..i + 1], mediaType) ==
            if layers[i].mediaType == mediaType then LayersOf(layers[..i], mediaType) + [layers[i]]
            else LayersOf(layers[..i], mediaType)
  {
    assert layers[..i + 1][..i] == layers[..i];
  }

  /** A loaded package: a manifest over a file system of its own, or a chart, as its files. */
  datatype Loaded = LoadedManifest(manifest: Manifest) | LoadedChart(files: map<Path, Bytes>)

  /** The single layer of a package's type, when there is exactly one. */
  function TheLayer(registry: Store, host: string, p: Package): Option<Payload> {
    var layers :- Fetched(registry, host, p);
    if |layers| != 1 then None else Some(layers[0].payload)
  }

  /** The archive a payload is read as. */
  function AsArchive(payload: Payload): Archive {
    if payload.ManifestArchive? then Some(payload.items) else None
  }

  /** The tree a manifest package is loaded as. */
  function LoadedTree(registry: Store, host: string, p: Package, legal: string -> bool): Option<Tree> {
    var payload :- TheLayer(registry, host, p);
    Unpacked(AsArchive(payload), legal)
  }

  /** The chart a payload is read as: a chart's archive, or one that kevi did not make. */
  function AsChart(payload: Payload, helm: Helm): Option<map<Path, Bytes>> {
    match payload
    case ChartContent(chart) => ArchivedChart(chart, helm)
    case Blob(data) => ArchivedChart(Stored(data), helm)
    case _ => None
  }

  /** The chart a chart package is loaded as. */
  function LoadedFiles(registry: Store, host: string, p: Package, helm: Helm): Option<map<Path, Bytes>> {
    var payload :- TheLayer(registry, host, p);
    AsChart(payload, helm)
  }

  /** `Load` */
  method Load(registry: Store, host: string, p: Package, legal: string -> bool, helm: Helm)
    returns (loaded: Option<Loaded>)
    ensures Identify(p) == ManifestType ==>
              && (loaded.Some? <==> LoadedTree(registry, host, p, legal).Some?)
              && (loaded.Some? ==> && loaded.value.LoadedManifest? && loaded.value.manifest.name == ""
                                   && fresh(loaded.value.manifest.fs) && loaded.value.manifest.fs.Valid()
                                   && loaded.value.manifest.fs.legal == legal
                                   && loaded.value.manifest.fs.nodes == LoadedTree(registry, host, p, legal).value)
    ensures Identify(p) == ChartType ==>
              && (loaded.Some? <==> LoadedFiles(registry, host, p, helm).Some?)
              && (loaded.Some? ==> loaded.value == LoadedChart(LoadedFiles(registry, host, p, helm).value))
    ensures Identify(p) == UnknownType ==> loaded.None?
  {
    var layers := Fetch(registry, host, p);
    if layers.None? {
      return None;
    }
    match Identify(p) {
      case ManifestType =>
        if |layers.value| != 1 {
          return None;
        }
        var ok, fs := Utgz(AsArchive(layers.value[0].payload), legal);
        if !ok {
          return None;
        }
        var m := new Manifest("", fs);
        loaded := Some(LoadedManifest(m));
      case ChartType =>
        if |layers.value| != 1 {
          return None;
        }
        var files := AsChart(layers.value[0].payload, helm);
        if files.None? {
          return None;
        }
        loaded := Some(LoadedChart(files.value));
      case UnknownType =>
        return None;
    }
  }

  /** An artifact with one layer, of the package's type, is read as that layer. */
  lemma LayerOfPackage(p: Package, registry: Store, host: string, a: Artifact)
    requires |a.layers| == 1 && MediaOf(Identify(p)) == Some(a.layers[0].mediaType)
    requires Locate(host, p.name) in registry && registry[Locate(host, p.name)] == a
    ensures TheLayer(registry, host, p) == Some(a.layers[0].payload)
  {
    OneLayer(a.layers[0], a.layers[0].mediaType);
    assert a.layers == [a.layers[0]];
  }

  lemma OneLayer(layer: Layer, mediaType: MediaType)
    ensures LayersOf([layer], mediaType) == if layer.mediaType == mediaType then [layer] else []
  {
    assert [layer][..0] == [];
  }

  // ---------- What is read, from the fields alone ----------

  lemma {:induction false} LayersArePicked(layers: seq<Layer>, mediaType: MediaType) returns (at: seq<nat>)
    ensures Picked(layers, (l: Layer) => l.mediaType == mediaType, at, LayersOf(layers, mediaType))
  {
    if layers == [] {
      at := [];
    } else {
      var n := |layers| - 1;
      at := LayersArePicked(layers[..n], mediaType);
      PickedOneMore(layers[..n], layers[n], (l: Layer) => l.mediaType == mediaType, at,
                    LayersOf(layers[..n], mediaType));
      assert layers[..n] + [layers[n]] == layers;
      if layers[n].mediaType == mediaType {
        at := at + [n];
      } else {
        assert LayersOf(layers[..n], mediaType) + [] == LayersOf(layers[..n], mediaType);
      }
    }
  }

  /** The media type the reader asks for: that of manifests for a package with a manifest path, that of
      charts for one without but with a chart's path or repository, and none for others. */
  predicate AsksFor(p: Package, mediaType: MediaType) {
    if p.manifestPath != "" then mediaType == ManifestLayer
    else (p.chart.path != "" || p.chart.repoUrl != "") && mediaType == ChartLayer
  }

  /** What is fetched is exactly the layers of that type at the package's address, in order. */
  lemma FetchedExactly(registry: Store, host: string, p: Package) returns (at: seq<nat>)
    ensures Fetched(registry, host, p).Some? <==>
              Locate(host, p.name) in registry && exists mediaType :: AsksFor(p, mediaType)
    ensures Fetched(registry, host, p).Some? ==>
              forall mediaType | AsksFor(p, mediaType) ::
                Picked(registry[Locate(host, p.name)].layers, (l: Layer) => l.mediaType == mediaType, at,
                       Fetched(registry, host, p).value)
  {
    at := [];
    var asked := MediaOf(Identify(p));
    assert asked.Some? ==> AsksFor(p, asked.value);
    if Fetched(registry, host, p).Some? {
      at := LayersArePicked(registry[Locate(host, p.name)].layers, asked.value);
    }
  }

  /** The one layer of a type, and what it holds. */
  predicate OnlyOne(layers: seq<Layer>, i: nat, mediaType: MediaType, payload: Payload) {
    && i < |layers| && layers[i].mediaType == mediaType && layers[i].payload == payload
    && forall j | 0 <= j < |layers| && layers[j].mediaType == mediaType :: j == i
  }

  /** A package is read as a layer exactly when that is the only one of the type asked for. */
  lemma ReadAsTheOnlyLayer(registry: Store, host: string, p: Package, payload: Payload)
    ensures TheLayer(registry, host, p) == Some(payload) <==>
              && Locate(host, p.name) in registry
              && exists mediaType, i: nat :: AsksFor(p, mediaType)
                                             && OnlyOne(registry[Locate(host, p.name)].layers, i, mediaType, payload)
  {
    var at := FetchedExactly(registry, host, p);
    var found := Fetched(registry, host, p);
    if found.Some? {
      var layers, mediaType := registry[Locate(host, p.name)].layers, MediaOf(Identify(p)).value;
      assert AsksFor(p, mediaType);
      if |found.value| == 1 {
        OnlyPicked(layers, mediaType, at, found.value);
      }
      if i: nat :| OnlyOne(layers, i, mediaType, payload) {
        OneIsPicked(layers, mediaType, at, found.value, i, payload);
      }
    }
  }

  lemma OnlyPicked(layers: seq<Layer>, mediaType: MediaType, at: seq<nat>, picked: seq<Layer>)
    requires Picked(layers, (l: Layer) => l.mediaType == mediaType, at, picked) && |picked| == 1
    ensures OnlyOne(layers, at[0], mediaType, picked[0].payload)
  {
    assert at[0] in at;
    forall j | 0 <= j < |layers| && layers[j].mediaType == mediaType ensures j == at[0] {
      assert j in at;
    }
  }

  lemma OneIsPicked(layers: seq<Layer>, mediaType: MediaType, at: seq<nat>, picked: seq<Layer>, i: nat,
                    payload: Payload)
    requires Picked(layers, (l: Layer) => l.mediaType == mediaType, at, picked)
    requires OnlyOne(layers, i, mediaType, payload)
    ensures picked == [layers[i]]
  {
    assert i in at;
    assert forall j | 0 <= j < |at| :: at[j] in at;
    var n := |at| - 1;
    assert at[0] == i && at[n] == i;
    assert n == 0;
  }

  /** What the only layer of a type at a package's address holds. */
  ghost predicate HoldsOnly(registry: Store, host: string, p: Package, mediaType: MediaType, payload: Payload) {
    && Locate(host, p.name) in registry
    && exists i: nat :: OnlyOne(registry[Locate(host, p.name)].layers, i, mediaType, payload)
  }

  lemma ReadsWhatIsAskedFor(registry: Store, host: string, p: Package, mediaType: MediaType, payload: Payload)
    requires AsksFor(p, mediaType)
    ensures TheLayer(registry, host, p) == Some(payload) <==> HoldsOnly(registry, host, p, mediaType, payload)
  {
    ReadAsTheOnlyLayer(registry, host, p, payload);
  }

  /** What a package of manifests is loaded as, exactly: what the archive in the one layer of its type
      unpacks to. */
  lemma ManifestsLoadExactly(registry: Store, host: string, p: Package, legal: string -> bool, t: Tree)
    requires p.manifestPath != ""
    ensures LoadedTree(registry, host, p, legal) == Some(t) <==>
              exists items :: HoldsOnly(registry, host, p, ManifestLayer, ManifestArchive(items))
                              && Unpacked(Some(items), legal) == Some(t)
  {
    var found := TheLayer(registry, host, p);
    if found.Some? {
      ReadsWhatIsAskedFor(registry, host, p, ManifestLayer, found.value);
      assert found.value.ManifestArchive? ==> found.value == ManifestArchive(found.value.items);
    }
    if items :| HoldsOnly(registry, host, p, ManifestLayer, ManifestArchive(items))
                && Unpacked(Some(items), legal) == Some(t) {
      ReadsWhatIsAskedFor(registry, host, p, ManifestLayer, ManifestArchive(items));
    }
  }

  /** An archive, made by kevi or not, that helm reads as a chart of some files. */
  predicate ReadsAs(payload: Payload, helm: Helm, files: map<Path, Bytes>) {
    && helm.loads(files)
    && match payload
       case ChartContent(Built(items)) => files == Recovered(items)
       case ChartContent(Stored(data)) => helm.open(data) == Some(files)
       case Blob(data) => helm.open(data) == Some(files)
       case _ => false
  }

  lemma AsChartExactly(payload: Payload, helm: Helm, files: map<Path, Bytes>)
    ensures AsChart(payload, helm) == Some(files) <==> ReadsAs(payload, helm, files)
  {
  }

  /** What a chart is loaded as, exactly: what helm reads from the one layer of its type. */
  lemma ChartsLoadExactly(registry: Store, host: string, p: Package, helm: Helm, files: map<Path, Bytes>)
    requires p.manifestPath == "" && (p.chart.path != "" || p.chart.repoUrl != "")
    ensures LoadedFiles(registry, host, p, helm) == Some(files) <==>
              exists payload :: HoldsOnly(registry, host, p, ChartLayer, payload) && ReadsAs(payload, helm, files)
  {
    var found := TheLayer(registry, host, p);
    if found.Some? {
      ReadsWhatIsAskedFor(registry, host, p, ChartLayer, found.value);
      AsChartExactly(found.value, helm, files);
    }
    if payload :| HoldsOnly(registry, host, p, ChartLayer, payload) && ReadsAs(payload, helm, files) {
      ReadsWhatIsAskedFor(registry, host, p, ChartLayer, payload);
    }
  }
}
