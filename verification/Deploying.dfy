/** Deploying a store: kevi is installed, everything is copied to the target registry, and then every
    configuration found is applied to the cluster. */
module Deploying {
  import opened Strs
  import opened Relocation
  import opened Api
  import opened Copying
  import opened Packing
  import opened Stores
  import opened Installing

  // ---------- Reading configurations back ----------

  /** The first layer that decodes, unless one that cannot be fetched comes before it. */
  function FirstConfig(layers: seq<Layer>, decoder: Decoder): Option<Kevi> {
    if layers == [] || layers[0].payload.Missing? then None
    else
      var k := Decode(layers[0].payload, decoder);
      if k.Some? then k else FirstConfig(layers[1..], decoder)
  }

  /** `fetchKevi` */
  method FetchKevi(store: Store, reference: string, decoder: Decoder) returns (k: Option<Kevi>)
    ensures k == if reference in store then FirstConfig(store[reference].layers, decoder) else None
  {
    if reference !in store {
      return None;
    }
    var layers := store[reference].layers;
    assert layers[0..] == layers;
    for i := 0 to |layers|
      invariant FirstConfig(layers, decoder) == FirstConfig(layers[i..], decoder)
    {
      assert layers[i..][0] == layers[i] && layers[i..][1..] == layers[i + 1..];
      if layers[i].payload.Missing? {
        return None;
      }
      k := Decode(layers[i].payload, decoder);
      if k.Some? {
        return;
      }
    }
    assert layers[|layers|..] == [];
    k := None;
  }

  lemma {:induction false} InertHasNoConfig(layers: seq<Layer>, decoder: Decoder)
    requires forall i | 0 <= i < |layers| :: Decode(layers[i].payload, decoder).None?
    ensures FirstConfig(layers, decoder).None?
  {
    if layers != [] {
      assert forall i | 0 <= i < |layers[1..]| :: layers[1..][i] == layers[i + 1];
      InertHasNoConfig(layers[1..], decoder);
    }
  }

  /** What is read back, exactly: the first layer that decodes, if none that cannot be fetched stands
      before it. */
  lemma {:induction false} FirstConfigExactly(layers: seq<Layer>, decoder: Decoder, k: Kevi)
    ensures FirstConfig(layers, decoder) == Some(k) <==> exists i: nat :: DecodesFirst(layers, i, decoder, k)
  {
    if layers != [] {
      var rest := layers[1..];
      FirstConfigExactly(rest, decoder, k);
      assert forall j | 0 <= j < |rest| :: rest[j] == layers[j + 1];
      if i: nat :| DecodesFirst(layers, i, decoder, k) {
        if i > 0 {
          assert IsPassedOver(layers[0].payload, decoder);
          assert DecodesFirst(rest, i - 1, decoder, k);
        }
      }
      if FirstConfig(layers, decoder) == Some(k) {
        if Decode(layers[0].payload, decoder).Some? {
          assert DecodesFirst(layers, 0, decoder, k);
        } else {
          var i: nat :| DecodesFirst(rest, i, decoder, k);
          DecodesLater(layers, i, decoder, k);
        }
      }
    }
  }

  /** What can be fetched and decodes as a configuration: one that was packed, or any bytes that do. */
  predicate DecodesAs(p: Payload, decoder: Decoder, k: Kevi) {
    p == ConfigDoc(k) || (p.Blob? && decoder(p.data) == Some(k))
  }

  predicate IsPassedOver(p: Payload, decoder: Decoder) {
    p.ManifestArchive? || p.ChartContent? || (p.Blob? && decoder(p.data) == None)
  }

  predicate DecodesFirst(layers: seq<Layer>, i: nat, decoder: Decoder, k: Kevi) {
    && i < |layers| && DecodesAs(layers[i].payload, decoder, k)
    && forall j | 0 <= j < i :: IsPassedOver(layers[j].payload, decoder)
  }

  lemma DecodesLater(layers: seq<Layer>, i: nat, decoder: Decoder, k: Kevi)
    requires layers != [] && IsPassedOver(layers[0].payload, decoder) && DecodesFirst(layers[1..], i, decoder, k)
    ensures DecodesFirst(layers, i + 1, decoder, k)
  {
    forall j | 0 <= j < i + 1 ensures IsPassedOver(layers[j].payload, decoder) {
      if j > 0 { assert layers[j] == layers[1..][j - 1]; }
    }
  }

  // ---------- Applying configurations ----------

  /** What a walk applies: the configuration at each detected reference, None when one of them
      cannot be read back. */
  function Applies(order: seq<string>, store: Store, decoder: Decoder): Option<seq<Kevi>> {
    if order == [] then Some([])
    else
      var front :- Applies(order[..|order| - 1], store, decoder);
      var last := order[|order| - 1];
      if !Detected(last) then Some(front)
      else if last !in store then None
      else
        var k :- FirstConfig(store[last].layers, decoder);
        Some(front + [k])
  }

  /** The walk that applies configurations. It stops at a detected reference that is not read back
      or not applied, and for no other reason; `visited` is how far it got. */
  method ApplyAll(oci: Oci, cluster: Cluster, order: seq<string>, decoder: Decoder)
    returns (ok: bool, ghost visited: nat)
    requires IsWalk(order, oci.store)
    modifies cluster
    ensures visited <= |order| && (ok <==> visited == |order|)
    ensures Applies(order[..visited], oci.store, decoder).Some?
    ensures cluster.applied == old(cluster.applied) + Applies(order[..visited], oci.store, decoder).value
    ensures cluster.installed == old(cluster.installed)
    ensures cluster.refusals > old(cluster.refusals) <==> !ok && Applies(order[..visited + 1], oci.store, decoder).Some?
  {
    visited := 0;
    assert order[..0] == [];
    for i := 0 to |order|
      modifies cluster
      invariant visited == i && cluster.refusals == old(cluster.refusals) && cluster.installed == old(cluster.installed)
      invariant Applies(order[..i], oci.store, decoder).Some?
      invariant cluster.applied == old(cluster.applied) + Applies(order[..i], oci.store, decoder).value
    {
      var reference := order[i];
      assert reference in order;
      AppliesStep(order, i, oci.store, decoder);
      if Detected(reference) {
        var k := FetchKevi(oci.store, reference, decoder);
        if k.None? {
          return false, visited;
        }
        var done := cluster.Apply(k.value);
        if !done {
          return false, visited;
        }
      }
      visited := visited + 1;
    }
    ok := true;
  }

  // ---------- Deploying ----------

  /** What a deployment starts from: whether registry and cluster are reached, the operator's image and
      objects, whether the archives unpack and the store opens, and whether the registry client can be
      made. */
  datatype Start = Start(
    reaches: bool,
    image: Option<Image>,
    generate: string -> Option<seq<InstallObject>>,
    opens: bool,
    connects: bool)

  /** The `deploy` sequence. `wrote` and `installed` say whether the operator's image was written and
      whether installing succeeded; `copied` and `visited` are how far the copy and the walk that
      applies configurations got, and each gets as far as it can: nothing is copied before the
      operator is installed, and nothing is visited, so no configuration is applied, before the whole
      store has been copied. */
  method Deploy(oci: Oci, registry: Registry, cluster: Cluster, host: string, start: Start,
                order: seq<string>, order2: seq<string>, decoder: Decoder)
    returns (ok: bool, ghost wrote: bool, ghost installed: bool, ghost copied: nat, ghost visited: nat)
    requires IsWalk(order, oci.store) && IsWalk(order2, oci.store)
    modifies registry, cluster
    ensures copied <= |order| && visited <= |order2| && (wrote ==> start.image.Some?)
    ensures Copyable(order[..copied], oci.store, ToHost(host))
    ensures var base := if wrote then WithController(old(registry.content), host, start.image.value)
                        else old(registry.content);
            registry.content == Copied(base, oci.store, order[..copied], ToHost(host))
    ensures Applies(order2[..visited], oci.store, decoder).Some?
    ensures cluster.applied == old(cluster.applied) + Applies(order2[..visited], oci.store, decoder).value
    ensures visited > 0 ==> copied == |order|
    ensures installed ==> wrote && start.reaches
    ensures var objs := if wrote then start.generate(ControllerAt(host, start.image.value.digest)) else None;
            && (objs.None? ==> !installed && cluster.installed == old(cluster.installed))
            && (objs.Some? ==> exists m ::
                  && 0 <= m <= |InstallOrder(objs.value)| && (installed <==> m == |InstallOrder(objs.value)|)
                  && cluster.installed == old(cluster.installed) + InstallOrder(objs.value)[..m])
    ensures start.reaches && !installed ==>
              || start.image.None? || registry.refusals > old(registry.refusals)
              || cluster.refusals > old(cluster.refusals)
              || start.generate(ControllerAt(host, start.image.value.digest)).None?
    ensures !(installed && start.opens && start.connects) ==> copied == visited == 0
    ensures ok <==> installed && start.opens && start.connects && copied == |order| && visited == |order2|
    ensures installed && start.opens && start.connects && copied < |order| ==>
              ToHost(host)(order[copied]).None? || registry.refusals > old(registry.refusals)
    ensures installed && start.opens && start.connects && copied == |order| && visited < |order2| ==>
              Applies(order2[..visited + 1], oci.store, decoder).None? || cluster.refusals > old(cluster.refusals)
    ensures ok ==> Applies(order2, oci.store, decoder).Some?
                   && cluster.applied == old(cluster.applied) + Applies(order2, oci.store, decoder).value
  {
    wrote, installed, copied, visited := false, false, 0, 0;
    assert order[..0] == [] && order2[..0] == [] && order2[..|order2|] == order2;
    if !start.reaches {
      return false, wrote, installed, copied, visited;
    }
    ghost var m: nat;
    ok, wrote, m := Install(registry, cluster, host, start.image, start.generate);
    installed := ok;
    if !ok || !start.opens {
      return false, wrote, installed, copied, visited;
    }
    var descs;
    descs, copied := oci.CopyAll(registry, ToHost(host), order, start.connects);
    if descs.None? {
      return false, wrote, installed, copied, visited;
    }
    ok, visited := ApplyAll(oci, cluster, order2, decoder);
  }

  lemma AppliesStep(order: seq<string>, i: nat, store: Store, decoder: Decoder)
    requires i < |order| && Applies(order[..i], store, decoder).Some? && order[i] in store
    ensures var k := FirstConfig(store[order[i]].layers, decoder);
            Applies(order[..i + 1], store, decoder) ==
            if !Detected(order[i]) then Applies(order[..i], store, decoder)
            else if k.None? then None
            else Some(Applies(order[..i], store, decoder).value + [k.value])
  {
    assert order[..i + 1][..i] == order[..i];
  }

  /** A reference with the mark somewhere in it. */
  ghost predicate HasMark(r: string) { exists a, b :: r == a + "/kevi-" + b }

  lemma DetectedHasMark(r: string)
    ensures Detected(r) <==> HasMark(r)
  {
    DetectedIsContaining(r);
    if i: nat :| OccursAt(r, MARK, i) {
      assert r == r[..i] + "/kevi-" + r[i + 6..];
    }
    if a, b :| r == a + "/kevi-" + b {
      assert r[|a|..|a| + 6] == "/kevi-";
      assert OccursAt(r, MARK, |a|);
    }
  }

  ghost predicate ReadsBack(r: string, store: Store, decoder: Decoder, k: Kevi) {
    r in store && exists i: nat :: DecodesFirst(store[r].layers, i, decoder, k)
  }

  ghost predicate AllReadBack(marked: seq<string>, store: Store, decoder: Decoder, ks: seq<Kevi>) {
    |ks| == |marked| && forall j | 0 <= j < |marked| :: ReadsBack(marked[j], store, decoder, ks[j])
  }

  lemma AllReadOneMore(marked: seq<string>, r: string, store: Store, decoder: Decoder, ks: seq<Kevi>, k: Kevi)
    requires AllReadBack(marked, store, decoder, ks)
    requires r in store && FirstConfig(store[r].layers, decoder) == Some(k)
    ensures AllReadBack(marked + [r], store, decoder, ks + [k])
  {
    FirstConfigExactly(store[r].layers, decoder, k);
    assert ReadsBack(r, store, decoder, k);
  }

  function DetectedOf(order: seq<string>): seq<string> {
    if order == [] then []
    else
      var last := order[|order| - 1];
      DetectedOf(order[..|order| - 1]) + if Detected(last) then [last] else []
  }

  lemma {:induction false} DetectedArePicked(order: seq<string>) returns (at: seq<nat>)
    ensures Picked(order, HasMark, at, DetectedOf(order))
  {
    if order == [] {
      at := [];
    } else {
      var n := |order| - 1;
      var front, last := order[..n], order[n];
      at := DetectedArePicked(front);
      PickedOneMore(front, last, HasMark, at, DetectedOf(front));
      assert front + [last] == order;
      DetectedHasMark(last);
      if Detected(last) {
        at := at + [n];
      } else {
        assert DetectedOf(front) + [] == DetectedOf(front);
      }
    }
  }

  lemma {:induction false} DetectedAreReadBack(order: seq<string>, store: Store, decoder: Decoder)
    requires Applies(order, store, decoder).Some?
    ensures AllReadBack(DetectedOf(order), store, decoder, Applies(order, store, decoder).value)
  {
    if order != [] {
      var front, last := order[..|order| - 1], order[|order| - 1];
      DetectedAreReadBack(front, store, decoder);
      if Detected(last) {
        var ks, k := Applies(front, store, decoder).value, FirstConfig(store[last].layers, decoder).value;
        AllReadOneMore(DetectedOf(front), last, store, decoder, ks, k);
      } else {
        assert DetectedOf(front) + [] == DetectedOf(front);
      }
    }
  }

  /** Over any store, a walk that is not stopped applies just what the references with the mark read back
      as, in order. */
  lemma AppliesTheMarked(order: seq<string>, store: Store, decoder: Decoder)
    returns (at: seq<nat>, marked: seq<string>)
    requires Applies(order, store, decoder).Some?
    ensures Picked(order, HasMark, at, marked)
    ensures AllReadBack(marked, store, decoder, Applies(order, store, decoder).value)
  {
    marked := DetectedOf(order);
    at := DetectedArePicked(order);
    DetectedAreReadBack(order, store, decoder);
  }

  // ---------- When a store can be deployed ----------

  /** Every reference that looks like a configuration's can be read back as one. */
  ghost predicate Deployable(store: Store, decoder: Decoder) {
    forall r | r in store && Detected(r) :: FirstConfig(store[r].layers, decoder).Some?
  }

  predicate Reads(r: string, store: Store, decoder: Decoder) {
    Detected(r) ==> r in store && FirstConfig(store[r].layers, decoder).Some?
  }

  lemma {:induction false} AppliesAll(order: seq<string>, store: Store, decoder: Decoder)
    ensures Applies(order, store, decoder).Some? <==> forall i | 0 <= i < |order| :: Reads(order[i], store, decoder)
  {
    if order != [] {
      var n := |order| - 1;
      AppliesAll(order[..n], store, decoder);
      assert forall i | 0 <= i < n :: order[..n][i] == order[i];
      if forall i | 0 <= i < |order| :: Reads(order[i], store, decoder) {
        assert Reads(order[n], store, decoder);
        forall i | 0 <= i < n ensures Reads(order[..n][i], store, decoder) {
          assert Reads(order[i], store, decoder);
        }
      }
      if Applies(order, store, decoder).Some? {
        forall i | 0 <= i < |order| ensures Reads(order[i], store, decoder) {
          if i < n { assert Reads(order[..n][i], store, decoder); }
        }
      }
    }
  }

  /** Whatever the walk, nothing is in its way exactly when every detected reference reads back. */
  lemma DeployableExactly(order: seq<string>, store: Store, decoder: Decoder)
    requires IsWalk(order, store)
    ensures Applies(order, store, decoder).Some? <==> Deployable(store, decoder)
  {
    AppliesAll(order, store, decoder);
    if Deployable(store, decoder) {
      forall i | 0 <= i < |order| ensures Reads(order[i], store, decoder) {
        assert order[i] in order;
      }
    }
    if forall i | 0 <= i < |order| :: Reads(order[i], store, decoder) {
      forall r | r in store && Detected(r) ensures FirstConfig(store[r].layers, decoder).Some? {
        assert r in order;
        var i :| 0 <= i < |order| && order[i] == r;
        assert Reads(order[i], store, decoder);
      }
    }
  }

  /** What a walk finds at a detected reference is a configuration that was packed. */
  lemma FoundConfigIsPacked(r: string, store: Store, c: Setting) returns (k: Kevi)
    requires StoreOk(store, c) && r in store && Detected(r)
    requires FirstConfig(store[r].layers, c.decoder).Some?
    ensures FirstConfig(store[r].layers, c.decoder) == Some(k)
    ensures GoodConfig(k, c) && PackagesPresent(k, store)
    ensures r == ConfigReference(k.name) && store[r] == ConfigArtifact(k)
  {
    if Inert(store[r], c.decoder) {
      InertHasNoConfig(store[r].layers, c.decoder);
      assert false;
    }
    var n :| GoodConfigName(n) && r == ConfigReference(n);
    k :| store[r] == ConfigArtifact(k) && k.name == n && GoodConfig(k, c) && PackagesPresent(k, store);
  }

  lemma PackedConfigIsFound(n: string, store: Store, c: Setting) returns (k: Kevi)
    requires StoreOk(store, c) && GoodConfigName(n) && ConfigReference(n) in store
    ensures k.name == n && store[ConfigReference(n)] == ConfigArtifact(k) && Detected(ConfigReference(n))
    ensures FirstConfig(store[ConfigReference(n)].layers, c.decoder) == Some(k)
  {
    k :| store[ConfigReference(n)] == ConfigArtifact(k) && k.name == n && GoodConfig(k, c) && PackagesPresent(k, store);
    ConfigsAreDetected(n);
  }

  /** A store left by packings can be deployed exactly when its configurations are all that is
      detected in it. */
  lemma StoreDeploysExactly(store: Store, c: Setting)
    requires StoreOk(store, c)
    ensures Deployable(store, c.decoder) <==>
              forall r | r in store && Detected(r) :: exists n :: GoodConfigName(n) && r == ConfigReference(n)
  {
    if Deployable(store, c.decoder) {
      forall r | r in store && Detected(r) ensures exists n :: GoodConfigName(n) && r == ConfigReference(n) {
        var k := FoundConfigIsPacked(r, store, c);
      }
    } else {
      var r :| r in store && Detected(r) && FirstConfig(store[r].layers, c.decoder).None?;
      if n :| GoodConfigName(n) && r == ConfigReference(n) {
        var k := PackedConfigIsFound(n, store, c);
      }
    }
  }

  /** So one detected reference that is not a configuration's stops every deployment: an image with
      the mark in its name, or a package of which a later segment begins with the prefix. */
  lemma StrayReferencesStopDeploying(store: Store, order: seq<string>, r: string, c: Setting)
    requires StoreOk(store, c) && IsWalk(order, store) && r in store && Detected(r)
    requires forall n :: GoodConfigName(n) ==> r != ConfigReference(n)
    ensures Applies(order, store, c.decoder).None?
  {
    DeployableExactly(order, store, c.decoder);
    StoreDeploysExactly(store, c);
  }

  lemma MarkedPackagesStopDeploying(store: Store, order: seq<string>, name: string, k: nat, c: Setting)
    requires StoreOk(store, c) && IsWalk(order, store)
    requires GoodPackageName(name) && Reference(name) in store && k < |Split(name)| && CONFIG_PREFIX <= Split(name)[k]
    ensures Applies(order, store, c.decoder).None?
  {
    CleanPackagesDetectedExactly(name);
    forall n | GoodConfigName(n) ensures Reference(name) != ConfigReference(n) {
      ConfigIsNoPackage(n, name);
    }
    StrayReferencesStopDeploying(store, order, Reference(name), c);
  }

  // ---------- What a successful deployment has applied ----------

  predicate IsAmong(n: string, ks: seq<Kevi>) { exists i | 0 <= i < |ks| :: ks[i].name == n }

  /** The configurations of some references of a store: just those, each once. */
  ghost predicate AppliedJust(ks: seq<Kevi>, order: seq<string>, store: Store) {
    && (forall i | 0 <= i < |ks| :: && GoodConfigName(ks[i].name) && ConfigReference(ks[i].name) in order
                                    && ConfigReference(ks[i].name) in store
                                    && store[ConfigReference(ks[i].name)] == ConfigArtifact(ks[i]))
    && (forall n | GoodConfigName(n) && ConfigReference(n) in order :: IsAmong(n, ks))
    && (forall i, j | 0 <= i < j < |ks| :: ks[i].name != ks[j].name)
  }

  lemma AppliedJustStep(ks: seq<Kevi>, k: Kevi, front: seq<string>, r: string, store: Store)
    requires AppliedJust(ks, front, store) && r !in front
    requires GoodConfigName(k.name) && r == ConfigReference(k.name) && r in store && store[r] == ConfigArtifact(k)
    ensures AppliedJust(ks + [k], front + [r], store)
  {
    var more := ks + [k];
    forall n | GoodConfigName(n) && ConfigReference(n) in front + [r] ensures IsAmong(n, more) {
      if ConfigReference(n) == r {
        ConfigNamesAreKept(n, k.name);
        assert more[|ks|].name == n;
      } else {
        assert IsAmong(n, ks);
        var i :| 0 <= i < |ks| && ks[i].name == n;
        assert more[i].name == n;
      }
    }
  }

  lemma AppliedJustSkip(ks: seq<Kevi>, front: seq<string>, r: string, store: Store)
    requires AppliedJust(ks, front, store) && !Detected(r)
    ensures AppliedJust(ks, front + [r], store)
  {
    forall n | GoodConfigName(n) && ConfigReference(n) in front + [r] ensures IsAmong(n, ks) {
      ConfigsAreDetected(n);
    }
  }

  lemma {:induction false} AppliedSoFar(order: seq<string>, store: Store, c: Setting)
    requires StoreOk(store, c) && Applies(order, store, c.decoder).Some?
    requires forall i | 0 <= i < |order| :: order[i] in store
    requires forall i, j | 0 <= i < j < |order| :: order[i] != order[j]
    ensures AppliedJust(Applies(order, store, c.decoder).value, order, store)
  {
    if order != [] {
      var front, r := order[..|order| - 1], order[|order| - 1];
      AppliedSoFar(front, store, c);
      assert order == front + [r];
      if Detected(r) {
        var k := FoundConfigIsPacked(r, store, c);
        AppliedJustStep(Applies(front, store, c.decoder).value, k, front, r, store);
      } else {
        AppliedJustSkip(Applies(front, store, c.decoder).value, front, r, store);
      }
    }
  }

  /** The configurations of a store: just those, as they were packed, each once. */
  ghost predicate JustTheConfigs(ks: seq<Kevi>, store: Store) {
    && (forall i | 0 <= i < |ks| :: && GoodConfigName(ks[i].name) && ConfigReference(ks[i].name) in store
                                    && store[ConfigReference(ks[i].name)] == ConfigArtifact(ks[i]))
    && (forall n | GoodConfigName(n) && ConfigReference(n) in store :: IsAmong(n, ks))
    && (forall i, j | 0 <= i < j < |ks| :: ks[i].name != ks[j].name)
  }

  /** Deploying a store left by packings applies, when it succeeds, every configuration in the store,
      each once, as it was packed, and nothing else; and nothing stops its walk when the
      configurations are all that is detected. */
  lemma DeployingAppliesEveryConfig(order: seq<string>, store: Store, c: Setting)
    requires StoreOk(store, c) && IsWalk(order, store)
    ensures Applies(order, store, c.decoder).Some? <==>
              forall r | r in store && Detected(r) :: exists n :: GoodConfigName(n) && r == ConfigReference(n)
    ensures Applies(order, store, c.decoder).Some? ==> JustTheConfigs(Applies(order, store, c.decoder).value, store)
  {
    DeployableExactly(order, store, c.decoder);
    StoreDeploysExactly(store, c);
    if Applies(order, store, c.decoder).Some? {
      assert forall i | 0 <= i < |order| :: order[i] in order;
      AppliedSoFar(order, store, c);
    }
  }
}
