/** Histories of packings and deployments, as runs of a state machine in which any step can be the
    last one before a failure. */
module Histories {
  import opened Strs
  import opened Names
  import opened Relocation
  import opened Charts
  import opened Api
  import opened Copying
  import opened Stores
  import opened Installing
  import opened Deploying
  import opened Loading
  import opened Runs

  // ---------- The state machine ----------

  datatype Phase =
    | Idle
    | CopyPhase(order: seq<string>, done: nat)
    | ApplyPhase(order: seq<string>, done: nat)

  datatype State = State(store: Store, registry: Store, applied: seq<Kevi>, phase: Phase)

  ghost predicate PackNext(s: State, t: State, c: Setting) {
    && s.phase.Idle? && t == s.(store := t.store)
    && exists k, w :: GoodPackStep(s.store, t.store, k, w, c)
  }

  /** Installing writes the operator's image, of any digest. */
  ghost predicate InstallNext(s: State, t: State, c: Setting) {
    && s.phase.Idle?
    && exists image: Image :: t == s.(registry := s.registry[c.route.controller(image.digest) := image.artifact])
  }

  /** No reference of a store shares its target with a package. Images may collide. */
  ghost predicate PackagesAlone(store: Store, relocate: Relocator) {
    forall n | GoodPackageName(n) && Reference(n) in store :: Alone(Reference(n), store, relocate)
  }

  /** A copy starts, of a store in which packages have their targets to themselves. */
  ghost predicate StartNext(s: State, t: State, c: Setting) {
    && s.phase.Idle? && t.phase.CopyPhase? && t == s.(phase := t.phase)
    && IsWalk(t.phase.order, s.store) && t.phase.done == 0
    && PackagesAlone(s.store, c.route.relocate)
  }

  ghost predicate PushNext(s: State, t: State, c: Setting) {
    && s.phase.CopyPhase? && s.phase.done < |s.phase.order|
    && var r := s.phase.order[s.phase.done];
       && r in s.store && c.route.relocate(r).Some?
       && t == s.(registry := s.registry[c.route.relocate(r).value := s.store[r]],
                  phase := CopyPhase(s.phase.order, s.phase.done + 1))
  }

  ghost predicate CopiedNext(s: State, t: State) {
    && s.phase.CopyPhase? && s.phase.done == |s.phase.order|
    && t.phase.ApplyPhase? && t == s.(phase := t.phase)
    && IsWalk(t.phase.order, s.store) && t.phase.done == 0
  }

  ghost predicate ApplyNext(s: State, t: State, c: Setting) {
    && s.phase.ApplyPhase? && s.phase.done < |s.phase.order|
    && var r := s.phase.order[s.phase.done];
       && Detected(r) && r in s.store && FirstConfig(s.store[r].layers, c.decoder).Some?
       && t == s.(applied := s.applied + [FirstConfig(s.store[r].layers, c.decoder).value],
                  phase := ApplyPhase(s.phase.order, s.phase.done + 1))
  }

  ghost predicate SkipNext(s: State, t: State) {
    && s.phase.ApplyPhase? && s.phase.done < |s.phase.order| && !Detected(s.phase.order[s.phase.done])
    && t == s.(phase := ApplyPhase(s.phase.order, s.phase.done + 1))
  }

  /** A deployment ends, having finished or failed at any point. */
  ghost predicate StopNext(s: State, t: State) {
    !s.phase.Idle? && t == s.(phase := Idle)
  }

  ghost predicate Next(s: State, t: State, c: Setting) {
    || PackNext(s, t, c) || InstallNext(s, t, c) || StartNext(s, t, c) || PushNext(s, t, c) || CopiedNext(s, t)
    || ApplyNext(s, t, c) || SkipNext(s, t) || StopNext(s, t)
  }

  /** The steps of the machine, as a relation. */
  ghost function Steps(c: Setting): Relation<State> { (s, t) => Next(s, t, c) }

  ghost predicate IsRun(run: seq<State>, c: Setting) { Chain(run, Steps(c)) }

  /** From an empty store, whatever the registry holds already. */
  predicate Initial(s: State) { s.store == map[] && s.applied == [] && s.phase.Idle? }

  // ---------- Safety ----------

  /** Where the copy puts a package is where the reader looks for it, and the operator's image is
      written elsewhere. */
  ghost predicate Agrees(route: Route) {
    forall name | GoodPackageName(name) && route.relocate(Reference(name)).Some? ::
      && route.relocate(Reference(name)) == Some(route.locate(name))
      && forall digest :: route.controller(digest) != route.locate(name)
  }

  /** A package can be read: at the address the reader looks at there is an artifact with exactly
      one layer, of the type the reader asks for, which unpacks when it is one of manifests. */
  predicate Readable(p: Package, registry: Store, c: Setting) {
    var at := c.route.locate(p.name);
    at in registry && TypedAs(registry[at], Identify(p), c.legal)
  }

  predicate AllReadable(k: Kevi, registry: Store, c: Setting) {
    forall i | 0 <= i < |k.packages| :: Readable(k.packages[i], registry, c)
  }

  /** A reference of the store stands in the registry, at its target, with its content. */
  predicate Landed(r: string, store: Store, registry: Store, relocate: Relocator) {
    && r in store && relocate(r).Some?
    && relocate(r).value in registry && registry[relocate(r).value] == store[r]
  }

  /** The reference of a package. */
  ghost predicate IsPackage(r: string) { exists n :: GoodPackageName(n) && r == Reference(n) }

  /** A package of an applied configuration. */
  predicate Deployed(p: Package, store: Store, registry: Store, c: Setting) {
    && Reference(p.name) in store
    && c.route.relocate(Reference(p.name)).Some?
    && Readable(p, registry, c)
  }

  predicate DeployedConfig(k: Kevi, store: Store, registry: Store, c: Setting) {
    GoodConfig(k, c) && forall i | 0 <= i < |k.packages| :: Deployed(k.packages[i], store, registry, c)
  }

  ghost predicate PhaseOk(s: State, relocate: Relocator) {
    match s.phase
    case Idle => true
    case CopyPhase(order, done) =>
      && IsWalk(order, s.store) && done <= |order| && PackagesAlone(s.store, relocate)
      && forall i | 0 <= i < done && IsPackage(order[i]) :: Landed(order[i], s.store, s.registry, relocate)
    case ApplyPhase(order, done) =>
      && IsWalk(order, s.store)
      && forall r | r in s.store && IsPackage(r) :: Landed(r, s.store, s.registry, relocate)
  }

  ghost predicate AppliedOk(s: State, c: Setting) {
    forall i | 0 <= i < |s.applied| :: DeployedConfig(s.applied[i], s.store, s.registry, c)
  }

  ghost predicate Inv(s: State, c: Setting) {
    StoreOk(s.store, c) && PhaseOk(s, c.route.relocate) && AppliedOk(s, c)
  }

  lemma PackKeepsInv(s: State, t: State, c: Setting)
    requires Inv(s, c) && PackNext(s, t, c)
    ensures Inv(t, c)
  {
    var k, w :| GoodPackStep(s.store, t.store, k, w, c);
    PackKeepsStoreOk(s.store, t.store, k, w, c);
    MoreStored(s, t, c);
  }

  lemma MoreStored(s: State, t: State, c: Setting)
    requires AppliedOk(s, c) && s.store.Keys <= t.store.Keys && t == s.(store := t.store)
    ensures AppliedOk(t, c)
  {
    forall i | 0 <= i < |t.applied|
      ensures DeployedConfig(t.applied[i], t.store, t.registry, c)
    {
      assert DeployedConfig(s.applied[i], s.store, s.registry, c);
    }
  }

  /** A write to the registry that leaves the addresses of deployed packages alone, or puts there what
      can be read, leaves all of them deployed. */
  lemma WriteKeepsApplied(s: State, registry: Store, at: string, a: Artifact, c: Setting)
    requires AppliedOk(s, c) && registry == s.registry[at := a]
    requires forall p | GoodPackage(p, c) && Deployed(p, s.store, s.registry, c) && c.route.locate(p.name) == at ::
               TypedAs(a, Identify(p), c.legal)
    ensures AppliedOk(s.(registry := registry), c)
  {
    forall i | 0 <= i < |s.applied|
      ensures DeployedConfig(s.applied[i], s.store, registry, c)
    {
      var k := s.applied[i];
      assert DeployedConfig(k, s.store, s.registry, c);
      forall j | 0 <= j < |k.packages|
        ensures Deployed(k.packages[j], s.store, registry, c)
      {
        assert Deployed(k.packages[j], s.store, s.registry, c) && GoodPackage(k.packages[j], c);
      }
    }
  }

  /** Installing writes to no package's address. */
  lemma InstallKeepsInv(s: State, t: State, c: Setting)
    requires Inv(s, c) && Agrees(c.route) && InstallNext(s, t, c)
    ensures Inv(t, c)
  {
    var image: Image :| t == s.(registry := s.registry[c.route.controller(image.digest) := image.artifact]);
    forall p | GoodPackage(p, c) && Deployed(p, s.store, s.registry, c)
      ensures c.route.locate(p.name) != c.route.controller(image.digest)
    {
      assert GoodPackageName(p.name);
    }
    WriteKeepsApplied(s, t.registry, c.route.controller(image.digest), image.artifact, c);
  }

  /** A push to a package's address is of that package. */
  lemma PushIsThePackage(p: Package, store: Store, registry: Store, r: string, c: Setting)
    requires StoreOk(store, c) && PackagesAlone(store, c.route.relocate) && Agrees(c.route)
    requires GoodPackage(p, c) && Deployed(p, store, registry, c)
    requires r in store && c.route.relocate(r) == Some(c.route.locate(p.name))
    ensures TypedAs(store[r], Identify(p), c.legal)
  {
    assert GoodPackageName(p.name);
    assert c.route.relocate(Reference(p.name)) == c.route.relocate(r);
    assert Alone(Reference(p.name), store, c.route.relocate);
    assert r == Reference(p.name);
  }

  lemma PushKeepsLanded(s: State, t: State, relocate: Relocator)
    requires s.phase.CopyPhase? && s.phase.done < |s.phase.order| && PhaseOk(s, relocate)
    requires var r := s.phase.order[s.phase.done];
             && r in s.store && relocate(r).Some?
             && t == s.(registry := s.registry[relocate(r).value := s.store[r]],
                        phase := CopyPhase(s.phase.order, s.phase.done + 1))
    ensures PhaseOk(t, relocate)
  {
    forall i | 0 <= i < s.phase.done + 1 && IsPackage(s.phase.order[i])
      ensures Landed(s.phase.order[i], t.store, t.registry, relocate)
    {
      assert s.phase.order[i] in s.phase.order;
      assert Alone(s.phase.order[i], s.store, relocate);
      if i < s.phase.done { assert Landed(s.phase.order[i], s.store, s.registry, relocate); }
    }
  }

  lemma PushKeepsInv(s: State, t: State, c: Setting)
    requires Inv(s, c) && Agrees(c.route) && PushNext(s, t, c)
    ensures Inv(t, c)
  {
    var r := s.phase.order[s.phase.done];
    PushKeepsLanded(s, t, c.route.relocate);
    forall p | GoodPackage(p, c) && Deployed(p, s.store, s.registry, c)
               && c.route.locate(p.name) == c.route.relocate(r).value
      ensures TypedAs(s.store[r], Identify(p), c.legal)
    {
      PushIsThePackage(p, s.store, s.registry, r, c);
    }
    WriteKeepsApplied(s, t.registry, c.route.relocate(r).value, s.store[r], c);
    assert AppliedOk(t, c) by {
      forall i | 0 <= i < |t.applied| ensures DeployedConfig(t.applied[i], t.store, t.registry, c) {
        assert DeployedConfig(s.(registry := t.registry).applied[i], s.store, t.registry, c);
      }
    }
  }

  lemma CopiedKeepsInv(s: State, t: State, c: Setting)
    requires Inv(s, c) && CopiedNext(s, t)
    ensures Inv(t, c)
  {
    forall r | r in t.store && IsPackage(r)
      ensures Landed(r, t.store, t.registry, c.route.relocate)
    {
      assert r in s.phase.order;
    }
    SameContentKeepsApplied(s, t, c);
  }

  lemma SameContentKeepsApplied(s: State, t: State, c: Setting)
    requires AppliedOk(s, c) && t == s.(phase := t.phase)
    ensures AppliedOk(t, c)
  {
    forall i | 0 <= i < |t.applied| ensures DeployedConfig(t.applied[i], t.store, t.registry, c) {
      assert DeployedConfig(s.applied[i], s.store, s.registry, c);
    }
  }

  lemma LandedPackageIsDeployed(p: Package, s: State, c: Setting)
    requires StoreOk(s.store, c) && Agrees(c.route) && GoodPackage(p, c)
    requires Landed(Reference(p.name), s.store, s.registry, c.route.relocate)
    ensures Deployed(p, s.store, s.registry, c)
  {
    assert GoodPackageName(p.name);
    assert TypedAs(s.store[Reference(p.name)], c.kinds(p.name), c.legal);
  }

  lemma LandedConfigIsDeployed(k: Kevi, s: State, c: Setting)
    requires StoreOk(s.store, c) && Agrees(c.route) && GoodConfig(k, c) && PackagesPresent(k, s.store)
    requires forall r | r in s.store && IsPackage(r) :: Landed(r, s.store, s.registry, c.route.relocate)
    ensures DeployedConfig(k, s.store, s.registry, c)
  {
    forall i | 0 <= i < |k.packages|
      ensures Deployed(k.packages[i], s.store, s.registry, c)
    {
      assert GoodPackage(k.packages[i], c) && Reference(k.packages[i].name) in s.store;
      assert IsPackage(Reference(k.packages[i].name));
      LandedPackageIsDeployed(k.packages[i], s, c);
    }
  }

  lemma ApplyKeepsInv(s: State, t: State, c: Setting)
    requires Inv(s, c) && Agrees(c.route) && ApplyNext(s, t, c)
    ensures Inv(t, c)
  {
    var k := FoundConfigIsPacked(s.phase.order[s.phase.done], s.store, c);
    LandedConfigIsDeployed(k, s, c);
    forall i | 0 <= i < |t.applied|
      ensures DeployedConfig(t.applied[i], t.store, t.registry, c)
    {
      if i < |s.applied| { assert DeployedConfig(s.applied[i], s.store, s.registry, c); }
    }
  }

  /** Every step keeps the invariant, failing ones included. */
  lemma NextKeepsInv(s: State, t: State, c: Setting)
    requires Inv(s, c) && Agrees(c.route) && Next(s, t, c)
    ensures Inv(t, c)
  {
    if PackNext(s, t, c) {
      PackKeepsInv(s, t, c);
    } else if InstallNext(s, t, c) {
      InstallKeepsInv(s, t, c);
    } else if PushNext(s, t, c) {
      PushKeepsInv(s, t, c);
    } else if CopiedNext(s, t) {
      CopiedKeepsInv(s, t, c);
    } else if ApplyNext(s, t, c) {
      ApplyKeepsInv(s, t, c);
    } else {
      SameContentKeepsApplied(s, t, c);
    }
  }

  lemma StepsKeepInv(c: Setting)
    requires Agrees(c.route)
    ensures forall s, t | Inv(s, c) && Steps(c)(s, t) :: Inv(t, c)
  {
    forall s, t | Inv(s, c) && Steps(c)(s, t) ensures Inv(t, c) {
      NextKeepsInv(s, t, c);
    }
  }

  /** The invariant holds throughout every run. */
  lemma InvHolds(run: seq<State>, c: Setting, i: nat)
    requires IsRun(run, c) && Initial(run[0]) && Agrees(c.route) && i < |run|
    ensures Inv(run[i], c)
  {
    EmptyStoreIsOk(c);
    StepsKeepInv(c);
    Throughout(run, Steps(c), s => Inv(s, c), 0, i);
  }

  /** What has been applied stays applied. */
  lemma AppliedStays(run: seq<State>, c: Setting, i: nat, j: nat)
    requires IsRun(run, c) && i <= j < |run|
    ensures run[i].applied <= run[j].applied
  {
    Throughout(run, Steps(c), (s: State) => run[i].applied <= s.applied, i, j);
  }

  // ---------- The way kevi addresses a target ----------

  predicate GoodHost(host: string) { SelfDelimiting(host) && host != "." }

  function RouteTo(host: string): Route {
    Route(ToHost(host), name => Locate(host, name), digest => ControllerAt(host, digest))
  }

  /** It agrees with itself. */
  lemma RouteAgrees(host: string)
    requires GoodHost(host)
    ensures Agrees(RouteTo(host))
  {
    forall name | GoodPackageName(name) && RouteTo(host).relocate(Reference(name)).Some?
      ensures RouteTo(host).relocate(Reference(name)) == Some(RouteTo(host).locate(name))
      ensures forall digest :: RouteTo(host).controller(digest) != RouteTo(host).locate(name)
    {
      CleanNamesAreFound(name, host);
      forall digest ensures RouteTo(host).controller(digest) != RouteTo(host).locate(name) {
        InstallingSparesPackages(name, host, digest);
      }
    }
  }

  /** Safety over whole runs. In every run of packings, installations and deployments, in any order and
      failing at any point, of good configurations, to a self-delimiting host other than "." and of
      stores in which no reference shares its target with a package: from the moment a configuration
      is applied, and ever after, each package it lists is in the registry at the address it is read
      from, with exactly one layer, of the type the reader asks for. */
  lemma AppliedConfigsAreReadable(run: seq<State>, c: Setting, host: string, i: nat, j: nat, a: nat)
    requires GoodHost(host) && c.route == RouteTo(host) && IsRun(run, c) && Initial(run[0])
    requires i <= j < |run| && a < |run[i].applied|
    ensures a < |run[j].applied| && run[j].applied[a] == run[i].applied[a]
    ensures AllReadable(run[i].applied[a], run[j].registry, c)
  {
    RouteAgrees(host);
    AppliedStays(run, c, i, j);
    InvHolds(run, c, j);
    assert DeployedConfig(run[j].applied[a], run[j].store, run[j].registry, c);
  }

  lemma ReadableLoads(p: Package, registry: Store, c: Setting, host: string, helm: Helm)
    requires c.route == RouteTo(host) && Readable(p, registry, c)
    ensures Identify(p) == ManifestType ==> LoadedTree(registry, host, p, c.legal).Some?
    ensures Identify(p) == ChartType ==>
              exists chart :: && TheLayer(registry, host, p) == Some(ChartContent(chart))
                              && LoadedFiles(registry, host, p, helm) == ArchivedChart(chart, helm)
    ensures Identify(p) != UnknownType
  {
    var a := registry[Locate(host, p.name)];
    assert c.route.locate(p.name) == Locate(host, p.name);
    LayerOfPackage(p, registry, host, a);
    if Identify(p) == ChartType {
      assert a.layers[0].payload == ChartContent(a.layers[0].payload.chart);
    }
  }

  /** And so, from that moment and ever after, every package of manifests it lists loads, and a chart
      is found in its one layer and loads exactly when helm reads a chart from that archive. */
  lemma AppliedConfigsLoad(run: seq<State>, c: Setting, host: string, i: nat, j: nat, a: nat, n: nat, helm: Helm)
    requires GoodHost(host) && c.route == RouteTo(host) && IsRun(run, c) && Initial(run[0])
    requires i <= j < |run| && a < |run[i].applied| && n < |run[i].applied[a].packages|
    ensures var p := run[i].applied[a].packages[n]; var registry := run[j].registry;
            && (Identify(p) == ManifestType ==> LoadedTree(registry, host, p, c.legal).Some?)
            && (Identify(p) == ChartType ==>
                  exists chart :: && TheLayer(registry, host, p) == Some(ChartContent(chart))
                                  && LoadedFiles(registry, host, p, helm) == ArchivedChart(chart, helm))
            && Identify(p) != UnknownType
  {
    AppliedConfigsAreReadable(run, c, host, i, j, a);
    assert Readable(run[i].applied[a].packages[n], run[j].registry, c);
    ReadableLoads(run[i].applied[a].packages[n], run[j].registry, c, host, helm);
  }

  // ---------- The machine covers what `pack` and `deploy` do ----------

  /** The state of a deployment of `s` whose copy has got as far as `n`. */
  function CopyState(s: State, order: seq<string>, n: nat, relocate: Relocator): State
    requires n <= |order| && Copyable(order[..n], s.store, relocate)
  {
    State(s.store, Copied(s.registry, s.store, order[..n], relocate), s.applied, CopyPhase(order, n))
  }

  lemma CopyableFront(order: seq<string>, n: nat, store: Store, relocate: Relocator)
    requires n < |order| && Copyable(order[..n + 1], store, relocate)
    ensures Copyable(order[..n], store, relocate)
    ensures order[n] in store && relocate(order[n]).Some?
  {
    assert forall i | 0 <= i < n :: order[..n][i] == order[..n + 1][i];
    assert order[..n + 1][n] == order[n];
  }

  lemma PushIsNext(here: State, there: State, c: Setting)
    requires PushNext(here, there, c)
    ensures Steps(c)(here, there)
  {
  }

  lemma CopyStateNext(s: State, order: seq<string>, n: nat, c: Setting)
    requires n < |order| && Copyable(order[..n + 1], s.store, c.route.relocate)
    requires Copyable(order[..n], s.store, c.route.relocate)
    ensures PushNext(CopyState(s, order, n, c.route.relocate), CopyState(s, order, n + 1, c.route.relocate), c)
  {
    CopyableFront(order, n, s.store, c.route.relocate);
    CopiedStep(s.registry, s.store, order, n, c.route.relocate);
  }

  /** Extending a run by the states of a copy that gets as far as `n`. */
  lemma {:induction false} CopyRun(before: seq<State>, s: State, order: seq<string>, n: nat, c: Setting)
    returns (run: seq<State>)
    requires n <= |order| && Copyable(order[..n], s.store, c.route.relocate)
    requires IsRun(before, c) && Copyable(order[..0], s.store, c.route.relocate)
    requires Last(before) == CopyState(s, order, 0, c.route.relocate)
    ensures IsRun(run, c) && run[0] == before[0]
    ensures Last(run) == CopyState(s, order, n, c.route.relocate)
    decreases n
  {
    if n == 0 {
      run := before;
    } else {
      CopyableFront(order, n - 1, s.store, c.route.relocate);
      var front := CopyRun(before, s, order, n - 1, c);
      var there := CopyState(s, order, n, c.route.relocate);
      CopyStateNext(s, order, n - 1, c);
      PushIsNext(Last(front), there, c);
      Extend(front, there, Steps(c));
      run := front + [there];
    }
  }

  /** The state of a deployment of `s` whose walk has applied as far as `n`. */
  function ApplyState(s: State, order: seq<string>, n: nat, decoder: Decoder): State
    requires n <= |order| && Applies(order[..n], s.store, decoder).Some?
  {
    State(s.store, s.registry, s.applied + Applies(order[..n], s.store, decoder).value, ApplyPhase(order, n))
  }

  lemma AppliesFront(order: seq<string>, n: nat, store: Store, decoder: Decoder)
    requires n < |order| && Applies(order[..n + 1], store, decoder).Some?
    ensures Applies(order[..n], store, decoder).Some?
  {
    assert order[..n + 1][..n] == order[..n];
  }

  lemma ApplyIsNext(here: State, there: State, c: Setting)
    requires ApplyNext(here, there, c) || SkipNext(here, there)
    ensures Steps(c)(here, there)
  {
  }

  lemma ApplyStateNext(s: State, order: seq<string>, n: nat, c: Setting)
    requires n < |order| && order[n] in s.store
    requires Applies(order[..n + 1], s.store, c.decoder).Some? && Applies(order[..n], s.store, c.decoder).Some?
    ensures var here, there := ApplyState(s, order, n, c.decoder), ApplyState(s, order, n + 1, c.decoder);
            ApplyNext(here, there, c) || SkipNext(here, there)
  {
    var front := Applies(order[..n], s.store, c.decoder).value;
    AppliesStep(order, n, s.store, c.decoder);
    if Detected(order[n]) {
      var k := FirstConfig(s.store[order[n]].layers, c.decoder).value;
      assert s.applied + (front + [k]) == (s.applied + front) + [k];
    }
  }

  /** Extending a run by the states of a walk that applies as far as `n`. */
  lemma {:induction false} ApplyRun(before: seq<State>, s: State, order: seq<string>, n: nat, c: Setting)
    returns (run: seq<State>)
    requires n <= |order| && Applies(order[..n], s.store, c.decoder).Some? && IsWalk(order, s.store)
    requires IsRun(before, c) && Applies(order[..0], s.store, c.decoder).Some?
    requires Last(before) == ApplyState(s, order, 0, c.decoder)
    ensures IsRun(run, c) && run[0] == before[0]
    ensures Last(run) == ApplyState(s, order, n, c.decoder)
    decreases n
  {
    if n == 0 {
      run := before;
    } else {
      AppliesFront(order, n - 1, s.store, c.decoder);
      var front := ApplyRun(before, s, order, n - 1, c);
      var there := ApplyState(s, order, n, c.decoder);
      assert order[n - 1] in order;
      ApplyStateNext(s, order, n - 1, c);
      ApplyIsNext(Last(front), there, c);
      Extend(front, there, Steps(c));
      run := front + [there];
    }
  }

  lemma StartOfCopy(s: State, order: seq<string>, c: Setting)
    requires s.phase.Idle? && IsWalk(order, s.store) && PackagesAlone(s.store, c.route.relocate)
    ensures Copyable(order[..0], s.store, c.route.relocate)
    ensures Steps(c)(s, CopyState(s, order, 0, c.route.relocate))
  {
    assert order[..0] == [];
    assert StartNext(s, CopyState(s, order, 0, c.route.relocate), c);
  }

  lemma StartOfApply(now: State, order2: seq<string>, c: Setting)
    requires now.phase.CopyPhase? && now.phase.done == |now.phase.order| && IsWalk(order2, now.store)
    ensures Applies(order2[..0], now.store, c.decoder).Some?
    ensures Steps(c)(now, ApplyState(now, order2, 0, c.decoder))
  {
    assert order2[..0] == [] && now.applied + [] == now.applied;
    assert CopiedNext(now, ApplyState(now, order2, 0, c.decoder));
  }

  /** A deployment up to the end of its copy. */
  lemma CopyPart(before: seq<State>, s: State, order: seq<string>, copied: nat, c: Setting) returns (run: seq<State>)
    requires IsRun(before, c) && Last(before) == s
    requires s.phase.Idle? && IsWalk(order, s.store) && PackagesAlone(s.store, c.route.relocate)
    requires copied <= |order| && Copyable(order[..copied], s.store, c.route.relocate)
    ensures IsRun(run, c) && run[0] == before[0] && Last(run) == CopyState(s, order, copied, c.route.relocate)
  {
    StartOfCopy(s, order, c);
    Extend(before, CopyState(s, order, 0, c.route.relocate), Steps(c));
    run := CopyRun(before + [CopyState(s, order, 0, c.route.relocate)], s, order, copied, c);
  }

  /** A deployment from the end of its copy on. */
  lemma ApplyPart(before: seq<State>, now: State, order2: seq<string>, visited: nat, c: Setting)
    returns (run: seq<State>)
    requires IsRun(before, c) && Last(before) == now
    requires now.phase.CopyPhase? && now.phase.done == |now.phase.order| && IsWalk(order2, now.store)
    requires visited <= |order2| && Applies(order2[..visited], now.store, c.decoder).Some?
    ensures IsRun(run, c) && run[0] == before[0] && Last(run) == ApplyState(now, order2, visited, c.decoder)
  {
    StartOfApply(now, order2, c);
    Extend(before, ApplyState(now, order2, 0, c.decoder), Steps(c));
    run := ApplyRun(before + [ApplyState(now, order2, 0, c.decoder)], now, order2, visited, c);
  }

  lemma Stopped(run: seq<State>, last: State, c: Setting)
    requires IsRun(run, c) && Last(run) == last && !last.phase.Idle?
    ensures var longer := run + [last.(phase := Idle)];
            IsRun(longer, c) && longer[0] == run[0] && Last(longer) == last.(phase := Idle)
  {
    assert StopNext(last, last.(phase := Idle));
    Extend(run, last.(phase := Idle), Steps(c));
  }

  /** The first steps of a deployment: the operator's image is written, or nothing. */
  lemma InstallPart(s: State, image: Option<Image>, host: string, c: Setting) returns (run: seq<State>, now: State)
    requires s.phase.Idle? && c.route == RouteTo(host)
    ensures IsRun(run, c) && run[0] == s && Last(run) == now
    ensures now == if image.Some? then s.(registry := WithController(s.registry, host, image.value)) else s
  {
    run, now := [s], s;
    Single(s, Steps(c));
    if image.Some? {
      now := s.(registry := WithController(s.registry, host, image.value));
      assert c.route.controller(image.value.digest) == ControllerAt(host, image.value.digest);
      assert InstallNext(s, now, c);
      Extend(run, now, Steps(c));
      run := run + [now];
    }
  }

  /** What `Deploy` guarantees of the registry and the cluster, however far it got, is what some
      run of the machine does between two idle states. `written` is the image of the operator when it
      was written. */
  lemma DeployIsARun(s: State, written: Option<Image>, order: seq<string>, copied: nat,
                     order2: seq<string>, visited: nat, host: string, c: Setting)
    returns (run: seq<State>)
    requires c.route == RouteTo(host)
    requires s.phase.Idle? && IsWalk(order, s.store) && IsWalk(order2, s.store) && PackagesAlone(s.store, ToHost(host))
    requires copied <= |order| && visited <= |order2| && Copyable(order[..copied], s.store, ToHost(host))
    requires Applies(order2[..visited], s.store, c.decoder).Some?
    requires visited > 0 ==> copied == |order|
    ensures IsRun(run, c) && run[0] == s
    ensures var base := if written.Some? then WithController(s.registry, host, written.value) else s.registry;
            Last(run) == State(s.store, Copied(base, s.store, order[..copied], ToHost(host)),
                               s.applied + Applies(order2[..visited], s.store, c.decoder).value, Idle)
  {
    var start;
    run, start := InstallPart(s, written, host, c);
    run := CopyPart(run, start, order, copied, c);
    var now := CopyState(start, order, copied, c.route.relocate);
    if visited > 0 {
      run := ApplyPart(run, now, order2, visited, c);
      now := ApplyState(now, order2, visited, c.decoder);
    } else {
      assert order2[..0] == [] && s.applied + [] == s.applied;
    }
    Stopped(run, now, c);
    run := run + [now.(phase := Idle)];
  }

  /** What a run of `pack` does to the store, document by document and however far it got, is a run of
      the machine too. */
  lemma {:induction false} PackingsAreARun(s: State, trace: seq<Store>, c: Setting) returns (run: seq<State>)
    requires s.phase.Idle? && Chain(trace, Packings(c)) && trace[0] == s.store
    ensures IsRun(run, c) && run[0] == s && Last(run) == s.(store := Last(trace))
    decreases |trace|
  {
    if |trace| == 1 {
      run := [s];
      Single(s, Steps(c));
    } else {
      var front := trace[..|trace| - 1];
      assert Chain(front, Packings(c)) by {
        forall i | 0 <= i < |front| - 1 ensures Linked(front, i, Packings(c)) {
          assert Linked(trace, i, Packings(c));
        }
      }
      run := PackingsAreARun(s, front, c);
      assert Linked(trace, |trace| - 2, Packings(c));
      PackIsAStep(Last(run), Last(trace), c);
      Extend(run, s.(store := Last(trace)), Steps(c));
      run := run + [s.(store := Last(trace))];
    }
  }

  lemma PackIsAStep(s: State, after: Store, c: Setting)
    requires s.phase.Idle? && Packings(c)(s.store, after)
    ensures Steps(c)(s, s.(store := after))
  {
    assert PackNext(s, s.(store := after), c);
  }
}
