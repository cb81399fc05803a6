/** What a store holds after any sequence of packings, and how configurations are recognised in
    it. */
module Stores {
  import opened Strs
  import opened Paths
  import opened Relocation
  import opened Files
  import opened Archives
  import opened Manifests
  import opened Api
  import opened Copying
  import opened Packing
  import opened Runs

  // ---------- Recognising configurations ----------

  const MARK := "/kevi-"

  predicate OccursAt(s: string, sep: string, i: nat) {
    i + |sep| <= |s| && s[i..i + |sep|] == sep
  }

  function Occurrence(s: string, sep: string, from: nat): (i: int)
    requires from <= |s|
    ensures i == -1 || (from <= i && OccursAt(s, sep, i))
    ensures i == -1 ==> forall k | from <= k :: !OccursAt(s, sep, k)
    decreases |s| - from
  {
    if OccursAt(s, sep, from) then from
    else if from == |s| then -1
    else Occurrence(s, sep, from + 1)
  }

  /** `strings.Split(s, sep)` */
  function SplitOn(s: string, sep: string): seq<string>
    requires sep != ""
    decreases |s|
  {
    var i := Occurrence(s, sep, 0);
    if i == -1 then [s] else [s[..i]] + SplitOn(s[i + |sep|..], sep)
  }

  /** The test deploying puts a reference to. */
  predicate Detected(ref: string) { |SplitOn(ref, MARK)| > 1 }

  lemma SplitOnIsNotEmpty(s: string, sep: string)
    requires sep != ""
    ensures |SplitOn(s, sep)| > 0
  {
  }

  /** A reference is detected exactly when it contains the mark. */
  lemma DetectedIsContaining(ref: string)
    ensures Detected(ref) <==> exists i: nat :: OccursAt(ref, MARK, i)
  {
    var i := Occurrence(ref, MARK, 0);
    if i >= 0 {
      SplitOnIsNotEmpty(ref[i + |MARK|..], MARK);
      assert OccursAt(ref, MARK, i);
    }
  }

  /** A configuration name that path cleaning leaves alone. */
  predicate GoodConfigName(name: string) { CleanName(CONFIG_PREFIX + name) }

  lemma ConfigReferenceIsPlain(name: string)
    requires GoodConfigName(name)
    ensures ConfigReference(name) == NAMESPACE + ['/'] + (CONFIG_PREFIX + name)
    ensures ConfigReference(name) == Reference(CONFIG_PREFIX + name)
  {
    ReferenceUnderNamespace(CONFIG_PREFIX + name);
  }

  /** That is, spelled out. */
  lemma ConfigKeyIsSpelled(name: string)
    requires GoodConfigName(name)
    ensures ConfigReference(name) == "kevi/kevi-" + name
  {
    ConfigReferenceIsPlain(name);
    assert NAMESPACE + ['/'] + CONFIG_PREFIX == "kevi/kevi-";
    assert NAMESPACE + ['/'] + (CONFIG_PREFIX + name) == (NAMESPACE + ['/'] + CONFIG_PREFIX) + name;
  }

  /** Detection is complete: every reference a configuration is written under is detected. */
  lemma ConfigsAreDetected(name: string)
    requires GoodConfigName(name)
    ensures Detected(ConfigReference(name))
  {
    ConfigReferenceIsPlain(name);
    NamespaceIsPlain();
    var ref := NAMESPACE + ['/'] + (CONFIG_PREFIX + name);
    assert ref[4..10] == MARK;
    assert OccursAt(ref, MARK, 4);
    DetectedIsContaining(ref);
  }

  /** `j` is the place of a segment, not the first, that begins as a configuration's does. */
  predicate MarkedAt(segs: seq<string>, j: nat) { 1 <= j < |segs| && CONFIG_PREFIX <= segs[j] }

  lemma MarkIsPrefixed()
    ensures MARK == ['/'] + CONFIG_PREFIX && Lacks(CONFIG_PREFIX, '/') && |CONFIG_PREFIX| == 5
  {
  }

  lemma MarkBeginsWithSlash(s: string, i: nat)
    requires OccursAt(s, MARK, i)
    ensures i < |s| && s[i] == '/'
  {
    assert s[i] == s[i..i + |MARK|][0];
  }

  lemma NoSlashNoMark(s: string)
    requires Lacks(s, '/')
    ensures forall i: nat :: !OccursAt(s, MARK, i)
  {
    forall i: nat | OccursAt(s, MARK, i) ensures false {
      MarkBeginsWithSlash(s, i);
    }
  }

  lemma OccursAfter(a: string, rest: string, whole: string, i: nat)
    requires whole == a + ['/'] + rest && Lacks(a, '/')
    ensures OccursAt(whole, MARK, i) <==>
              (i == |a| && CONFIG_PREFIX <= rest) || (i > |a| && OccursAt(rest, MARK, i - |a| - 1))
  {
    MarkIsPrefixed();
    Glue(a, '/', rest);
    if i < |a| {
      assert whole[i] == a[i];
      if OccursAt(whole, MARK, i) {
        MarkBeginsWithSlash(whole, i);
      }
    } else if i == |a| {
      if OccursAt(whole, MARK, i) {
        assert whole[i..i + |MARK|][1..] == rest[..5];
      }
      if CONFIG_PREFIX <= rest {
        assert whole[i..i + |MARK|] == ['/'] + rest[..5];
      }
    } else if i + |MARK| <= |whole| {
      assert whole[i..i + |MARK|] == rest[i - |a| - 1..i - |a| - 1 + |MARK|];
    }
  }

  lemma PrefixHasNoSlash(s: string, k: nat)
    requires CONFIG_PREFIX <= s && k < |CONFIG_PREFIX|
    ensures s[k] != '/'
  {
    MarkIsPrefixed();
    assert s[k] == CONFIG_PREFIX[k];
  }

  lemma PrefixOfJoin(segs: seq<string>)
    requires segs != [] && Proper(segs)
    ensures CONFIG_PREFIX <= Join(segs) <==> CONFIG_PREFIX <= segs[0]
  {
    MarkIsPrefixed();
    if |segs| > 1 {
      var a, rest := segs[0], Join(segs[1..]);
      Glue(a, '/', rest);
      if |a| >= 5 {
        assert Join(segs)[..5] == a[..5];
      } else if CONFIG_PREFIX <= Join(segs) {
        PrefixHasNoSlash(Join(segs), |a|);
      }
    }
  }

  ghost predicate Occurs(s: string) { exists i: nat :: OccursAt(s, MARK, i) }

  ghost predicate Marked(segs: seq<string>) { exists j: nat :: MarkedAt(segs, j) }

  lemma OccursStep(a: string, rest: string, whole: string)
    requires whole == a + ['/'] + rest && Lacks(a, '/')
    ensures Occurs(whole) <==> CONFIG_PREFIX <= rest || Occurs(rest)
  {
    if i: nat :| OccursAt(whole, MARK, i) {
      OccursAfter(a, rest, whole, i);
      assert i > |a| ==> OccursAt(rest, MARK, i - |a| - 1);
    }
    if CONFIG_PREFIX <= rest {
      OccursAfter(a, rest, whole, |a|);
    }
    if i: nat :| OccursAt(rest, MARK, i) {
      OccursAfter(a, rest, whole, i + |a| + 1);
    }
  }

  lemma MarkedStep(segs: seq<string>)
    requires |segs| > 1
    ensures Marked(segs) <==> CONFIG_PREFIX <= segs[1] || Marked(segs[1..])
  {
    var rest := segs[1..];
    if j: nat :| MarkedAt(segs, j) {
      assert j > 1 ==> MarkedAt(rest, j - 1);
    }
    if CONFIG_PREFIX <= segs[1] {
      assert MarkedAt(segs, 1);
    }
    if j: nat :| MarkedAt(rest, j) {
      assert MarkedAt(segs, j + 1);
    }
  }

  /** The mark occurs in joined segments exactly where a segment begins with the prefix. */
  lemma {:induction false} MarkInJoin(segs: seq<string>)
    requires segs != [] && Proper(segs)
    ensures Occurs(Join(segs)) <==> Marked(segs)
    decreases |segs|
  {
    if |segs| == 1 {
      NoSlashNoMark(segs[0]);
    } else {
      MarkInJoin(segs[1..]);
      PrefixOfJoin(segs[1..]);
      OccursStep(segs[0], Join(segs[1..]), Join(segs));
      MarkedStep(segs);
    }
  }

  lemma DetectedJoin(segs: seq<string>)
    requires Proper(segs)
    ensures Detected(Rejoined(segs)) <==> Marked(segs)
  {
    DetectedIsContaining(Rejoined(segs));
    if segs == [] {
      NoSlashNoMark(".");
    } else {
      MarkInJoin(segs);
    }
  }

  /** Exactly which names are stored where deploying sees them, of packages and, with the prefix in
      front, of configurations: those of which cleaning leaves a segment, not the first of the
      reference, that begins with the prefix. */
  lemma DetectedExactly(name: string)
    ensures Detected(Reference(name)) <==> Marked(Cleaned(NAMESPACE + ['/'] + name))
  {
    NamespaceIsPlain();
    PathJoinOfTwo(NAMESPACE, name);
    DetectedJoin(Cleaned(NAMESPACE + ['/'] + name));
  }

  lemma ConfigsDetectedExactly(name: string)
    ensures Detected(ConfigReference(name)) <==> Marked(Cleaned(NAMESPACE + ['/'] + (CONFIG_PREFIX + name)))
  {
    DetectedExactly(CONFIG_PREFIX + name);
  }

  lemma MarkedUnder(dir: string, segs: seq<string>)
    ensures Marked([dir] + segs) <==> exists k | 0 <= k < |segs| :: CONFIG_PREFIX <= segs[k]
  {
    var whole := [dir] + segs;
    if k :| 0 <= k < |segs| && CONFIG_PREFIX <= segs[k] {
      assert MarkedAt(whole, k + 1);
    }
    if j: nat :| MarkedAt(whole, j) {
      assert segs[j - 1] == whole[j];
    }
  }

  /** For a clean package name: exactly when one of its segments begins with the prefix. */
  lemma CleanPackagesDetectedExactly(name: string)
    requires CleanName(name)
    ensures Detected(Reference(name)) <==> exists k | 0 <= k < |Split(name)| :: CONFIG_PREFIX <= Split(name)[k]
  {
    DetectedExactly(name);
    NamespaceIsPlain();
    CleanNamesAreTidy(name);
    CleanedUnder(NAMESPACE, name);
    CleanedBelow([NAMESPACE], Split(name), []);
    assert [NAMESPACE] + [] == [NAMESPACE];
    MarkedUnder(NAMESPACE, Split(name));
  }

  /** Every undetected package reference is reached by a configuration name. */
  lemma UncleanConfigsCanBeMissed(name: string)
    requires CleanName(name) && !Detected(Reference(name))
    ensures ConfigReference("x/../" + name) == Reference(name)
  {
    var first, rest := CONFIG_PREFIX + "x", ".." + ['/'] + name;
    assert CONFIG_PREFIX + ("x/../" + name) == first + ['/'] + rest;
    assert Lacks(first, '/') && Lacks("..", '/') && first[0] == 'k';
    NamespaceIsPlain();
    SplitUnder("..", name);
    SplitUnder(first, rest);
    SplitUnder(NAMESPACE, first + ['/'] + rest);
    NonEmptyOfTwo(NAMESPACE, first + ['/'] + rest);
    StepsBack(NAMESPACE, first, Split(name));
    JoinSplit(name);
    JoinIsNotEmpty(Split(name));
    JoinCons(NAMESPACE, Split(name));
    ReferenceUnderNamespace(name);
    assert (NAMESPACE + ['/'] + (first + ['/'] + rest))[0] == NAMESPACE[0];
  }

  lemma StepsBack(a: string, b: string, rest: seq<string>)
    requires Plain(a) && Plain(b) && AllPlain(rest)
    ensures CleanSegments([a] + ([b] + ([".."] + rest)), false, []) == [a] + rest
  {
    var up := [".."] + rest;
    var down := [b] + up;
    assert ([a] + down)[1..] == down && down[1..] == up && up[1..] == rest;
    assert [] + [a] == [a] && ([a] + [b])[..1] == [a];
    assert CleanSegments([a] + down, false, []) == CleanSegments(down, false, [a]);
    assert CleanSegments(down, false, [a]) == CleanSegments(up, false, [a] + [b]);
    assert CleanSegments(up, false, [a] + [b]) == CleanSegments(rest, false, [a]);
    CleanKeepsPlain(rest, false, [a]);
  }

  // ---------- What is kept ----------

  /** The type every package of a name has, in every configuration packed. Package names that are
      unique always have one. */
  type Kinds = string -> PackageType

  /** What a blob decodes to as a configuration, if it does. */
  type Decoder = Bytes -> Option<Kevi>

  /** How a target is addressed: where the copy puts a reference, where the reader looks for a
      package, and where installing writes the operator's image of some digest. */
  datatype Route = Route(relocate: Relocator, locate: string -> string, controller: string -> string)

  /** What a history of packings and deployments is about: how the target is addressed, the type every
      package name has, what blobs decode to, and the file names kustomize accepts. */
  datatype Setting = Setting(route: Route, kinds: Kinds, decoder: Decoder, legal: string -> bool)

  /** Compressed archives do not decode. */
  function Decode(p: Payload, decoder: Decoder): Option<Kevi> {
    match p
    case ConfigDoc(k) => Some(k)
    case Blob(data) => decoder(data)
    case ManifestArchive(_) => None
    case ChartContent(_) => None
    case Missing => None
  }

  predicate Inert(a: Artifact, decoder: Decoder) {
    forall i | 0 <= i < |a.layers| :: Decode(a.layers[i].payload, decoder).None?
  }

  predicate GoodPackageName(name: string) { CleanName(name) && !(CONFIG_PREFIX <= name) }

  predicate GoodPackage(p: Package, c: Setting) { GoodPackageName(p.name) && Identify(p) == c.kinds(p.name) }

  predicate GoodConfig(k: Kevi, c: Setting) {
    GoodConfigName(k.name) && forall i | 0 <= i < |k.packages| :: GoodPackage(k.packages[i], c)
  }

  /** No image pulled under a reference that looks like a configuration's decodes as one. */
  ghost predicate GoodWorld(w: World, c: Setting) {
    && Real(w) && w.kustomize.legal == c.legal
    && forall key :: Detected(key) && w.pull(key).Some? ==> Inert(w.pull(key).value, c.decoder)
  }

  /** An artifact with exactly one layer, of the type the reader of such a package asks for, whose
      archive unpacks when it is one of manifests. */
  predicate TypedAs(a: Artifact, t: PackageType, legal: string -> bool) {
    && |a.layers| == 1
    && MediaOf(t) == Some(a.layers[0].mediaType)
    && match a.layers[0].payload
       case ManifestArchive(items) => t == ManifestType && Unpacked(Some(items), legal).Some?
       case ChartContent(_) => t == ChartType
       case _ => false
  }

  predicate PackagesPresent(k: Kevi, store: Store) {
    forall i | 0 <= i < |k.packages| :: Reference(k.packages[i].name) in store
  }

  ghost predicate ConfigsComplete(store: Store, c: Setting) {
    forall n | GoodConfigName(n) && ConfigReference(n) in store ::
      exists k :: store[ConfigReference(n)] == ConfigArtifact(k) && k.name == n
                  && GoodConfig(k, c) && PackagesPresent(k, store)
  }

  ghost predicate PackagesTyped(store: Store, c: Setting) {
    forall n | GoodPackageName(n) && Reference(n) in store :: TypedAs(store[Reference(n)], c.kinds(n), c.legal)
  }

  ghost predicate DetectedAreConfigs(store: Store, c: Setting) {
    forall r | r in store && Detected(r) ::
      Inert(store[r], c.decoder) || exists n :: GoodConfigName(n) && r == ConfigReference(n)
  }

  ghost predicate StoreOk(store: Store, c: Setting) {
    ConfigsComplete(store, c) && PackagesTyped(store, c) && DetectedAreConfigs(store, c)
  }

  lemma ReferenceIsInjective(a: string, b: string)
    requires CleanName(a) && CleanName(b) && Reference(a) == Reference(b)
    ensures a == b
  {
    ReferenceUnderNamespace(a);
    ReferenceUnderNamespace(b);
    Glue(NAMESPACE, '/', a);
    Glue(NAMESPACE, '/', b);
  }

  lemma ConfigIsNoPackage(name: string, package: string)
    requires GoodConfigName(name) && GoodPackageName(package)
    ensures ConfigReference(name) != Reference(package)
  {
    ConfigReferenceIsPlain(name);
    assert CONFIG_PREFIX <= CONFIG_PREFIX + name;
    if ConfigReference(name) == Reference(package) {
      ReferenceIsInjective(CONFIG_PREFIX + name, package);
      assert false;
    }
  }

  lemma ConfigNamesAreKept(a: string, b: string)
    requires GoodConfigName(a) && GoodConfigName(b) && ConfigReference(a) == ConfigReference(b)
    ensures a == b
  {
    ConfigReferenceIsPlain(a);
    ConfigReferenceIsPlain(b);
    ReferenceIsInjective(CONFIG_PREFIX + a, CONFIG_PREFIX + b);
    assert (CONFIG_PREFIX + a)[|CONFIG_PREFIX|..] == a && (CONFIG_PREFIX + b)[|CONFIG_PREFIX|..] == b;
  }

  lemma ImageKeyIsNoPackage(r: string, name: string)
    requires IsImageKey(r) && CleanName(name)
    ensures r != Reference(name)
  {
    var image :| ImageKey(image) == Some(r);
    CleanNamesAreStoredInNamespace(name);
    ImageKeysAreNotPackageKeys(image, name);
  }

  /** The parts of a package's contents. */
  lemma ContentsShape(p: Package, w: World) returns (images: Store, artifact: Artifact)
    requires Real(w) && Contents(p, w).Some?
    ensures Rendered(p, w).Some?
    ensures Pulled(FoundImages(Rendered(p, w).value, w), Keys(), w.pull) == Some(images)
    ensures PackageArtifact(p, w) == Some(artifact)
    ensures Contents(p, w).value == images[Reference(p.name) := artifact]
    ensures TypedAs(artifact, Identify(p), w.kustomize.legal)
  {
    images := Pulled(FoundImages(Rendered(p, w).value, w), Keys(), w.pull).value;
    artifact := PackageArtifact(p, w).value;
    ArtifactIsTyped(p, w);
  }

  lemma ArtifactIsTyped(p: Package, w: World)
    requires Real(w) && Rendered(p, w).Some? && PackageArtifact(p, w).Some?
    ensures TypedAs(PackageArtifact(p, w).value, Identify(p), w.kustomize.legal)
  {
    if Identify(p) == ManifestType {
      TransportPreservesMeaning(w.sources(p.manifestPath).value, w.kustomize);
    }
  }

  /** What a package brings is itself, under its own reference, or an image under its key. */
  lemma WhatIsBrought(p: Package, w: World, r: string, a: Artifact)
    requires Real(w) && Brings(p, w, r, a)
    ensures if r == Reference(p.name) then TypedAs(a, Identify(p), w.kustomize.legal)
            else IsImageKey(r) && w.pull(r) == Some(a)
  {
    var images, artifact := ContentsShape(p, w);
    if r != Reference(p.name) {
      PulledIsImage(FoundImages(Rendered(p, w).value, w), w, images, r);
    }
  }

  lemma PulledIsImage(found: seq<string>, w: World, images: Store, r: string)
    requires Pulled(found, Keys(), w.pull) == Some(images) && r in images
    ensures IsImageKey(r) && w.pull(r) == Some(images[r])
  {
    PulledIsExact(found, Keys(), w.pull);
    var image :| image in found && Keys()(image) == Some(r);
    assert ImageKey(image) == Some(r);
  }

  lemma BroughtIsNoConfig(p: Package, w: World, r: string, a: Artifact, n: string)
    requires Real(w) && GoodPackageName(p.name) && Brings(p, w, r, a) && GoodConfigName(n)
    ensures r != ConfigReference(n)
  {
    WhatIsBrought(p, w, r, a);
    ConfigReferenceIsPlain(n);
    if r == Reference(p.name) {
      ConfigIsNoPackage(n, p.name);
    } else {
      ImageKeyIsNoPackage(r, CONFIG_PREFIX + n);
    }
  }

  lemma ConfigsSurvive(before: Store, after: Store, ps: seq<Package>, w: World, c: Setting)
    requires Real(w) && PartlyPacked(before, after, ps, w)
    requires forall i | 0 <= i < |ps| :: GoodPackage(ps[i], c)
    requires ConfigsComplete(before, c)
    ensures ConfigsComplete(after, c)
  {
    forall n | GoodConfigName(n) && ConfigReference(n) in after
      ensures exists k :: after[ConfigReference(n)] == ConfigArtifact(k) && k.name == n
                          && GoodConfig(k, c) && PackagesPresent(k, after)
    {
      var r := ConfigReference(n);
      if i :| 0 <= i < |ps| && Brings(ps[i], w, r, after[r]) {
        BroughtIsNoConfig(ps[i], w, r, after[r], n);
      } else {
        var k :| before[r] == ConfigArtifact(k) && k.name == n && GoodConfig(k, c) && PackagesPresent(k, before);
        assert PackagesPresent(k, after);
      }
    }
  }

  lemma BroughtIsTyped(p: Package, w: World, n: string, a: Artifact, c: Setting)
    requires Real(w) && GoodPackage(p, c) && GoodPackageName(n) && Brings(p, w, Reference(n), a)
    ensures TypedAs(a, c.kinds(n), w.kustomize.legal)
  {
    WhatIsBrought(p, w, Reference(n), a);
    if Reference(n) == Reference(p.name) {
      ReferenceIsInjective(n, p.name);
    } else {
      ImageKeyIsNoPackage(Reference(n), n);
    }
  }

  lemma TypesSurvive(before: Store, after: Store, ps: seq<Package>, w: World, c: Setting)
    requires Real(w) && w.kustomize.legal == c.legal && PartlyPacked(before, after, ps, w)
    requires forall i | 0 <= i < |ps| :: GoodPackage(ps[i], c)
    requires PackagesTyped(before, c)
    ensures PackagesTyped(after, c)
  {
    forall n | GoodPackageName(n) && Reference(n) in after
      ensures TypedAs(after[Reference(n)], c.kinds(n), c.legal)
    {
      var r := Reference(n);
      if i :| 0 <= i < |ps| && Brings(ps[i], w, r, after[r]) {
        BroughtIsTyped(ps[i], w, n, after[r], c);
      }
    }
  }

  lemma TypedIsInert(a: Artifact, t: PackageType, decoder: Decoder, legal: string -> bool)
    requires TypedAs(a, t, legal)
    ensures Inert(a, decoder)
  {
  }

  lemma DetectionSurvives(before: Store, after: Store, ps: seq<Package>, w: World, c: Setting)
    requires GoodWorld(w, c) && PartlyPacked(before, after, ps, w)
    requires forall i | 0 <= i < |ps| :: GoodPackage(ps[i], c)
    requires DetectedAreConfigs(before, c)
    ensures DetectedAreConfigs(after, c)
  {
    forall r | r in after && Detected(r)
      ensures Inert(after[r], c.decoder) || exists n :: GoodConfigName(n) && r == ConfigReference(n)
    {
      if i :| 0 <= i < |ps| && Brings(ps[i], w, r, after[r]) {
        WhatIsBrought(ps[i], w, r, after[r]);
        if r == Reference(ps[i].name) {
          TypedIsInert(after[r], Identify(ps[i]), c.decoder, w.kustomize.legal);
        }
      }
    }
  }

  lemma PartlyPackedKeepsStoreOk(before: Store, after: Store, ps: seq<Package>, w: World, c: Setting)
    requires GoodWorld(w, c) && PartlyPacked(before, after, ps, w)
    requires forall i | 0 <= i < |ps| :: GoodPackage(ps[i], c)
    requires StoreOk(before, c)
    ensures StoreOk(after, c)
  {
    ConfigsSurvive(before, after, ps, w, c);
    TypesSurvive(before, after, ps, w, c);
    DetectionSurvives(before, after, ps, w, c);
  }

  /** Writing a configuration whose packages are all present keeps the store as it should be. */
  lemma ConfigWriteKeepsStoreOk(store: Store, k: Kevi, c: Setting)
    requires StoreOk(store, c) && GoodConfig(k, c) && PackagesPresent(k, store)
    ensures StoreOk(store[ConfigReference(k.name) := ConfigArtifact(k)], c)
  {
    var after := store[ConfigReference(k.name) := ConfigArtifact(k)];
    forall n | GoodConfigName(n) && ConfigReference(n) in after
      ensures exists other :: after[ConfigReference(n)] == ConfigArtifact(other) && other.name == n
                              && GoodConfig(other, c) && PackagesPresent(other, after)
    {
      if ConfigReference(n) == ConfigReference(k.name) {
        ConfigNamesAreKept(n, k.name);
        assert PackagesPresent(k, after);
      } else {
        var other :| store[ConfigReference(n)] == ConfigArtifact(other) && other.name == n
                     && GoodConfig(other, c) && PackagesPresent(other, store);
        assert PackagesPresent(other, after);
      }
    }
    forall n | GoodPackageName(n) && Reference(n) in after
      ensures TypedAs(after[Reference(n)], c.kinds(n), c.legal)
    {
      ConfigIsNoPackage(k.name, n);
    }
  }

  lemma {:induction false} ContentsPresent(before: Store, ps: seq<Package>, w: World)
    requires Real(w) && AllContents(ps, w).Some?
    ensures var after := before + AllContents(ps, w).value;
            && PartlyPacked(before, after, ps, w)
            && forall i | 0 <= i < |ps| :: Reference(ps[i].name) in after
  {
    if ps == [] {
      assert before + map[] == before;
    } else {
      var front, n := ps[..|ps| - 1], |ps| - 1;
      ContentsPresent(before, front, w);
      ContentsPresentStep(before, front, ps[n], ps, before + AllContents(front, w).value, w);
      OverlayTwice(before, AllContents(front, w).value, Contents(ps[n], w).value);
    }
  }

  lemma ContentsPresentStep(before: Store, front: seq<Package>, last: Package, ps: seq<Package>, mid: Store, w: World)
    requires Real(w) && ps != [] && front == ps[..|ps| - 1] && last == ps[|ps| - 1]
    requires PartlyPacked(before, mid, front, w) && forall i | 0 <= i < |front| :: Reference(front[i].name) in mid
    requires Contents(last, w).Some?
    ensures var after := mid + Contents(last, w).value;
            && PartlyPacked(before, after, ps, w)
            && forall i | 0 <= i < |ps| :: Reference(ps[i].name) in after
  {
    var images, artifact := ContentsShape(last, w);
    var coll := Contents(last, w).value;
    PartlyPackedFront(before, mid, ps, |ps| - 1, w);
    StillPartlyPacked(before, mid, mid + coll, ps, |ps| - 1, w);
    NamesPresent(front, last, ps, mid, coll);
  }

  lemma NamesPresent(front: seq<Package>, last: Package, ps: seq<Package>, mid: Store, coll: Store)
    requires ps != [] && front == ps[..|ps| - 1] && last == ps[|ps| - 1]
    requires Reference(last.name) in coll && forall i | 0 <= i < |front| :: Reference(front[i].name) in mid
    ensures forall i | 0 <= i < |ps| :: Reference(ps[i].name) in mid + coll
  {
    forall i | 0 <= i < |ps| ensures Reference(ps[i].name) in mid + coll {
      if i < |front| { assert front[i] == ps[i]; }
    }
  }

  lemma PartlyPackedFront(before: Store, after: Store, ps: seq<Package>, n: nat, w: World)
    requires Real(w) && n <= |ps| && PartlyPacked(before, after, ps[..n], w)
    ensures PartlyPacked(before, after, ps, w)
  {
    var front := ps[..n];
    forall r | r in after
      ensures (r in before && after[r] == before[r]) || exists i :: 0 <= i < |ps| && Brings(ps[i], w, r, after[r])
    {
      if !(r in before && after[r] == before[r]) {
        var i :| 0 <= i < |front| && Brings(front[i], w, r, after[r]);
        assert Brings(ps[i], w, r, after[r]);
      }
    }
  }

  lemma StoppedIsPartly(before: Store, after: Store, ps: seq<Package>, n: nat, w: World)
    requires Real(w) && StoppedAt(before, after, ps, n, w)
    ensures PartlyPacked(before, after, ps, w)
  {
    var mid := before + AllContents(ps[..n], w).value;
    ContentsPresent(before, ps[..n], w);
    PartlyPackedFront(before, mid, ps, n, w);
    if n < |ps| && Contents(ps[n], w).Some? {
      StillPartlyPacked(before, mid, after, ps, n, w);
    }
  }

  /** Every call of `Pack`, failing ones included, keeps what a store should be and drops no
      reference: the configuration is written only after every package it lists. */
  lemma PackKeepsStoreOk(before: Store, after: Store, k: Kevi, w: World, c: Setting)
    requires GoodWorld(w, c) && GoodConfig(k, c) && PackStep(before, after, k, w)
    requires StoreOk(before, c)
    ensures StoreOk(after, c) && before.Keys <= after.Keys
  {
    if n: nat :| StoppedAt(before, after, k.packages, n, w) {
      StoppedIsPartly(before, after, k.packages, n, w);
      PartlyPackedKeepsStoreOk(before, after, k.packages, w, c);
    } else {
      var mid := before + AllContents(k.packages, w).value;
      ContentsPresent(before, k.packages, w);
      PartlyPackedKeepsStoreOk(before, mid, k.packages, w, c);
      ConfigWriteKeepsStoreOk(mid, k, c);
    }
  }

  lemma EmptyStoreIsOk(c: Setting)
    ensures StoreOk(map[], c)
  {
  }

  ghost predicate GoodPackStep(before: Store, after: Store, k: Kevi, w: World, c: Setting) {
    GoodWorld(w, c) && GoodConfig(k, c) && PackStep(before, after, k, w)
  }

  /** A call of `Pack`, of some configuration in some state of the world. */
  ghost function Packings(c: Setting): Relation<Store> {
    (before, after) => exists k, w :: GoodPackStep(before, after, k, w, c)
  }

  /** The stores of a sequence of packings, each with its own configuration and its own state of
      the world, starting empty. */
  ghost predicate PackRun(stores: seq<Store>, c: Setting) {
    Chain(stores, Packings(c)) && stores[0] == map[]
  }

  /** Over every sequence of packings of good configurations, failing ones included, every
      configuration in the store has every package it lists in the store under its reference, as one
      layer of its type. */
  lemma StoresStayTyped(stores: seq<Store>, c: Setting, i: nat)
    requires PackRun(stores, c) && i < |stores|
    ensures StoreOk(stores[i], c)
  {
    EmptyStoreIsOk(c);
    PackingsKeepStoreOk(c);
    Throughout(stores, Packings(c), s => StoreOk(s, c), 0, i);
  }

  // ---------- What every packing keeps, whatever the names ----------

  /** Some call of `Pack`, of any configuration in any state of the world. */
  ghost predicate AnyPackStep(before: Store, after: Store, k: Kevi, w: World) {
    Real(w) && PackStep(before, after, k, w)
  }

  ghost function AnyPackings(): Relation<Store> {
    (before, after) => exists k, w :: AnyPackStep(before, after, k, w)
  }

  /** No call drops a reference. */
  lemma PackDropsNothing(before: Store, after: Store, k: Kevi, w: World)
    requires AnyPackStep(before, after, k, w)
    ensures before.Keys <= after.Keys
  {
    if n: nat :| StoppedAt(before, after, k.packages, n, w) {
      StoppedIsPartly(before, after, k.packages, n, w);
    }
  }

  /** Over every sequence of packings, of any configurations, no reference ever leaves the store. */
  lemma ReferencesStay(stores: seq<Store>, from: nat, i: nat)
    requires Chain(stores, AnyPackings()) && from <= i < |stores|
    ensures stores[from].Keys <= stores[i].Keys
  {
    forall s: Store, t: Store | stores[from].Keys <= s.Keys && AnyPackings()(s, t) ensures stores[from].Keys <= t.Keys {
      var k, w :| AnyPackStep(s, t, k, w);
      PackDropsNothing(s, t, k, w);
    }
    Throughout(stores, AnyPackings(), (s: Store) => stores[from].Keys <= s.Keys, from, i);
  }

  /** Under the reference of every configuration there is one, with every package it lists in the
      store. */
  ghost predicate ConfigsPresent(store: Store) {
    forall n | GoodConfigName(n) && ConfigReference(n) in store ::
      exists k :: store[ConfigReference(n)] == ConfigArtifact(k) && PackagesPresent(k, store)
  }

  predicate GoodNames(k: Kevi) { forall i | 0 <= i < |k.packages| :: GoodPackageName(k.packages[i].name) }

  lemma PartlyPackedKeepsConfigsPresent(before: Store, after: Store, k: Kevi, w: World)
    requires Real(w) && GoodNames(k) && PartlyPacked(before, after, k.packages, w) && ConfigsPresent(before)
    ensures ConfigsPresent(after)
  {
    forall n | GoodConfigName(n) && ConfigReference(n) in after
      ensures exists other :: after[ConfigReference(n)] == ConfigArtifact(other) && PackagesPresent(other, after)
    {
      var r := ConfigReference(n);
      if i :| 0 <= i < |k.packages| && Brings(k.packages[i], w, r, after[r]) {
        BroughtIsNoConfig(k.packages[i], w, r, after[r], n);
      } else {
        var other :| before[r] == ConfigArtifact(other) && PackagesPresent(other, before);
        assert PackagesPresent(other, after);
      }
    }
  }

  lemma ConfigWriteKeepsConfigsPresent(store: Store, k: Kevi)
    requires ConfigsPresent(store) && PackagesPresent(k, store)
    ensures ConfigsPresent(store[ConfigReference(k.name) := ConfigArtifact(k)])
  {
    var after := store[ConfigReference(k.name) := ConfigArtifact(k)];
    forall n | GoodConfigName(n) && ConfigReference(n) in after
      ensures exists other :: after[ConfigReference(n)] == ConfigArtifact(other) && PackagesPresent(other, after)
    {
      if ConfigReference(n) == ConfigReference(k.name) {
        assert PackagesPresent(k, after);
      } else {
        var other :| store[ConfigReference(n)] == ConfigArtifact(other) && PackagesPresent(other, store);
        assert PackagesPresent(other, after);
      }
    }
  }

  /** Every call whose package names are clean and do not begin as a configuration's, failing ones
      included, keeps the configurations complete, whatever is pulled and whatever the types. */
  lemma PackKeepsConfigsPresent(before: Store, after: Store, k: Kevi, w: World)
    requires AnyPackStep(before, after, k, w) && GoodNames(k) && ConfigsPresent(before)
    ensures ConfigsPresent(after)
  {
    if n: nat :| StoppedAt(before, after, k.packages, n, w) {
      StoppedIsPartly(before, after, k.packages, n, w);
      PartlyPackedKeepsConfigsPresent(before, after, k, w);
    } else {
      var mid := before + AllContents(k.packages, w).value;
      ContentsPresent(before, k.packages, w);
      PartlyPackedKeepsConfigsPresent(before, mid, k, w);
      ConfigWriteKeepsConfigsPresent(mid, k);
    }
  }

  ghost predicate NamedStep(before: Store, after: Store, k: Kevi, w: World) {
    AnyPackStep(before, after, k, w) && GoodNames(k)
  }

  ghost function NamedPackings(): Relation<Store> {
    (before, after) => exists k, w :: NamedStep(before, after, k, w)
  }

  /** Over every sequence of packings with such names, failing ones included, every configuration in
      the store has every package it lists in the store under its reference. */
  lemma StoresStayComplete(stores: seq<Store>, i: nat)
    requires Chain(stores, NamedPackings()) && stores[0] == map[] && i < |stores|
    ensures ConfigsPresent(stores[i])
  {
    forall s, t | ConfigsPresent(s) && NamedPackings()(s, t) ensures ConfigsPresent(t) {
      var k, w :| NamedStep(s, t, k, w);
      PackKeepsConfigsPresent(s, t, k, w);
    }
    Throughout(stores, NamedPackings(), s => ConfigsPresent(s), 0, i);
  }

  // ---------- And without a condition on names ----------

  predicate IsConfigArtifact(a: Artifact) {
    |a.layers| == 1 && a.layers[0].payload.ConfigDoc? && a == ConfigArtifact(a.layers[0].payload.config)
  }

  /** No image that can be pulled is a configuration. */
  ghost predicate PullsNoConfig(w: World) {
    forall key :: w.pull(key).Some? ==> !IsConfigArtifact(w.pull(key).value)
  }

  /** Every configuration in a store, under whatever reference, has every package it lists there. */
  ghost predicate AllPresent(store: Store) {
    forall r, k | r in store && store[r] == ConfigArtifact(k) :: PackagesPresent(k, store)
  }

  lemma ConfigArtifactIsOne(k: Kevi)
    ensures IsConfigArtifact(ConfigArtifact(k))
  {
  }

  lemma PartlyPackedKeepsPresent(before: Store, after: Store, ps: seq<Package>, w: World)
    requires Real(w) && PullsNoConfig(w) && PartlyPacked(before, after, ps, w) && AllPresent(before)
    ensures AllPresent(after)
  {
    forall r, k | r in after && after[r] == ConfigArtifact(k) ensures PackagesPresent(k, after) {
      ConfigArtifactIsOne(k);
      if i :| 0 <= i < |ps| && Brings(ps[i], w, r, after[r]) {
        WhatIsBrought(ps[i], w, r, after[r]);
      }
      assert PackagesPresent(k, before);
    }
  }

  lemma ConfigWriteKeepsPresent(store: Store, k: Kevi)
    requires AllPresent(store) && PackagesPresent(k, store)
    ensures AllPresent(store[ConfigReference(k.name) := ConfigArtifact(k)])
  {
    var after := store[ConfigReference(k.name) := ConfigArtifact(k)];
    forall r, other | r in after && after[r] == ConfigArtifact(other) ensures PackagesPresent(other, after) {
      if r == ConfigReference(k.name) {
        assert other == k;
      }
      assert PackagesPresent(other, store);
    }
  }

  /** Every call, failing ones included, keeps every configuration complete, whatever the names and
      types of its packages. */
  lemma PackKeepsPresent(before: Store, after: Store, k: Kevi, w: World)
    requires AnyPackStep(before, after, k, w) && PullsNoConfig(w) && AllPresent(before)
    ensures AllPresent(after)
  {
    if n: nat :| StoppedAt(before, after, k.packages, n, w) {
      StoppedIsPartly(before, after, k.packages, n, w);
      PartlyPackedKeepsPresent(before, after, k.packages, w);
    } else {
      var mid := before + AllContents(k.packages, w).value;
      ContentsPresent(before, k.packages, w);
      PartlyPackedKeepsPresent(before, mid, k.packages, w);
      ConfigWriteKeepsPresent(mid, k);
    }
  }

  ghost predicate PullingStep(before: Store, after: Store, k: Kevi, w: World) {
    AnyPackStep(before, after, k, w) && PullsNoConfig(w)
  }

  ghost function PullingPackings(): Relation<Store> {
    (before, after) => exists k, w :: PullingStep(before, after, k, w)
  }

  /** Over every sequence of packings, of any configurations with any names, failing ones included,
      every configuration in the store, under whatever reference, has every package it lists there,
      provided that no image pulled is a configuration itself. */
  lemma AnyStoresStayComplete(stores: seq<Store>, i: nat)
    requires Chain(stores, PullingPackings()) && stores[0] == map[] && i < |stores|
    ensures AllPresent(stores[i])
  {
    forall s, t | AllPresent(s) && PullingPackings()(s, t) ensures AllPresent(t) {
      var k, w :| PullingStep(s, t, k, w);
      PackKeepsPresent(s, t, k, w);
    }
    Throughout(stores, PullingPackings(), s => AllPresent(s), 0, i);
  }

  // ---------- The `pack` command ----------

  /** One document packed, from one store to the next. */
  ghost predicate Turn(before: Store, after: Store, doc: Option<Kevi>, w: World)
    requires Real(w)
  {
    doc.Some? && PackStep(before, after, doc.value, w)
  }

  ghost predicate WholeTurn(before: Store, after: Store, doc: Option<Kevi>, w: World)
    requires Real(w)
  {
    doc.Some? && JustPacked(before, after, doc.value, w)
  }

  /** The packings of one run of `pack`: the documents in order, from one store to the next. */
  ghost predicate InTurn(trace: seq<Store>, docs: seq<Option<Kevi>>, w: World)
    requires Real(w)
  {
    0 < |trace| <= |docs| + 1 && forall i | 0 <= i < |trace| - 1 :: Turn(trace[i], trace[i + 1], docs[i], w)
  }

  ghost predicate AllWhole(trace: seq<Store>, docs: seq<Option<Kevi>>, w: World)
    requires Real(w)
  {
    0 < |trace| <= |docs| + 1 && forall i | 0 <= i < |trace| - 1 :: WholeTurn(trace[i], trace[i + 1], docs[i], w)
  }

  /** A document that can be packed. */
  ghost predicate CanBePacked(doc: Option<Kevi>, w: World)
    requires Real(w)
  {
    doc.Some? && AllContents(doc.value.packages, w).Some?
  }

  lemma NextTurn(trace: seq<Store>, docs: seq<Option<Kevi>>, w: World, after: Store)
    requires Real(w) && InTurn(trace, docs, w) && |trace| <= |docs|
    requires Turn(Last(trace), after, docs[|trace| - 1], w)
    ensures InTurn(trace + [after], docs, w) && Last(trace + [after]) == after && (trace + [after])[0] == trace[0]
  {
    var longer := trace + [after];
    forall i | 0 <= i < |longer| - 1 ensures Turn(longer[i], longer[i + 1], docs[i], w) {
      if i < |trace| - 1 { assert Turn(trace[i], trace[i + 1], docs[i], w); }
    }
  }

  lemma NextWholeTurn(trace: seq<Store>, docs: seq<Option<Kevi>>, w: World, after: Store)
    requires Real(w) && AllWhole(trace, docs, w) && |trace| <= |docs|
    requires WholeTurn(Last(trace), after, docs[|trace| - 1], w)
    ensures AllWhole(trace + [after], docs, w)
  {
    var longer := trace + [after];
    forall i | 0 <= i < |longer| - 1 ensures WholeTurn(longer[i], longer[i + 1], docs[i], w) {
      if i < |trace| - 1 { assert WholeTurn(trace[i], trace[i + 1], docs[i], w); }
    }
  }

  /** The loop of the `pack` command. `docs` are the documents of all its files, None standing for a
      file that cannot be read or a document that does not decode. It ends at the first of these and
      at the first packing that fails; `trace` is the stores it went through. */
  method PackAll(oci: Oci, docs: seq<Option<Kevi>>, w: World) returns (ok: bool, ghost trace: seq<Store>)
    requires Real(w)
    modifies oci
    ensures InTurn(trace, docs, w) && trace[0] == old(oci.store) && Last(trace) == oci.store
    ensures ok <==> (forall i | 0 <= i < |docs| :: CanBePacked(docs[i], w)) && oci.refusals == old(oci.refusals)
    ensures ok ==> |trace| == |docs| + 1 && AllWhole(trace, docs, w)
  {
    trace := [oci.store];
    for i := 0 to |docs|
      invariant InTurn(trace, docs, w) && AllWhole(trace, docs, w) && |trace| == i + 1
      invariant trace[0] == old(oci.store) && Last(trace) == oci.store && oci.refusals == old(oci.refusals)
      invariant forall j | 0 <= j < i :: CanBePacked(docs[j], w)
    {
      if docs[i].None? {
        assert !CanBePacked(docs[i], w);
        return false, trace;
      }
      var packed, n := oci.Pack(docs[i].value, w);
      NextTurn(trace, docs, w, oci.store);
      if packed {
        NextWholeTurn(trace, docs, w, oci.store);
      }
      trace := trace + [oci.store];
      assert packed <==> CanBePacked(docs[i], w) && oci.refusals == old(oci.refusals);
      if !packed {
        return false, trace;
      }
    }
    ok := true;
  }

  /** Such a run is a sequence of packings, so all that is proved of those holds of it. */
  lemma PackAllIsASequence(trace: seq<Store>, docs: seq<Option<Kevi>>, w: World, c: Setting)
    requires GoodWorld(w, c) && InTurn(trace, docs, w)
    requires forall i | 0 <= i < |docs| && docs[i].Some? :: GoodConfig(docs[i].value, c)
    ensures Chain(trace, Packings(c))
    ensures StoreOk(trace[0], c) ==> StoreOk(Last(trace), c) && trace[0].Keys <= Last(trace).Keys
  {
    forall i | 0 <= i < |trace| - 1 ensures Linked(trace, i, Packings(c)) {
      assert Turn(trace[i], trace[i + 1], docs[i], w);
      assert GoodPackStep(trace[i], trace[i + 1], docs[i].value, w, c);
    }
    if StoreOk(trace[0], c) {
      PackingsKeepStoreOk(c);
      Throughout(trace, Packings(c), s => StoreOk(s, c) && trace[0].Keys <= s.Keys, 0, |trace| - 1);
    }
  }

  lemma PackingsKeepStoreOk(c: Setting)
    ensures forall s, t | StoreOk(s, c) && Packings(c)(s, t) ::
              StoreOk(t, c) && s.Keys <= t.Keys
  {
    forall s, t | StoreOk(s, c) && Packings(c)(s, t)
      ensures StoreOk(t, c) && s.Keys <= t.Keys
    {
      var k, w :| GoodPackStep(s, t, k, w, c);
      PackKeepsStoreOk(s, t, k, w, c);
    }
  }
}
