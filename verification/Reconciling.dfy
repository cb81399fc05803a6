/** Reconciling a configuration: each package is loaded, generated and synced to the cluster, one
    after the other. The sync engine is assumed to apply the objects it is given and to prune only
    managed objects that it is not given. */
module Reconciling {
  import opened Strs
  import opened Files
  import opened Archives
  import opened Manifests
  import opened Charts
  import opened Api
  import opened Loading

  /** An object of the cluster: what identifies it, the rest of it, and its garbage collection
      mark, None when the cache holds no information on it. */
  datatype Object = Object(key: string, body: string, mark: Option<string>)

  type Objects = map<string, Object>

  const MANAGED_MARK := "donk"

  predicate Managed(o: Object) { o.mark == Some(MANAGED_MARK) }

  predicate Lists(objs: seq<Object>, key: string) { exists i | 0 <= i < |objs| :: objs[i].key == key }

  /** Some objects applied in order. */
  function Overlay(live: Objects, objs: seq<Object>): Objects {
    if objs == [] then live
    else Overlay(live, objs[..|objs| - 1])[objs[|objs| - 1].key := objs[|objs| - 1]]
  }

  /** What a sync keeps of the cluster: all but the managed objects it is not given. */
  function Kept(live: Objects, objs: seq<Object>): Objects {
    map key | key in live && (!Managed(live[key]) || Lists(objs, key)) :: live[key]
  }

  function Synced(live: Objects, objs: seq<Object>): Objects { Overlay(Kept(live, objs), objs) }

  /** What a sync that failed may have done: some of the objects applied, some pruned. */
  ghost predicate PartlySynced(before: Objects, after: Objects, objs: seq<Object>) {
    && (forall key | key in after ::
          (key in before && after[key] == before[key]) || exists i :: 0 <= i < |objs| && Is(objs[i], key, after[key]))
    && (forall key | key in before && key !in after :: Managed(before[key]) && !Lists(objs, key))
  }

  predicate Is(o: Object, key: string, value: Object) { o.key == key && o == value }

  class Live {
    var objects: Objects

    /** How many syncs have failed. */
    var failures: nat

    constructor ()
      ensures objects == map[] && failures == 0
    {
      objects, failures := map[], 0;
    }

    /** A sync may fail anywhere: the failing one modelled here has applied any first part of its
        objects and pruned nothing, or everything it would. */
    method Sync(objs: seq<Object>) returns (ok: bool)
      modifies this
      ensures ok ==> objects == Synced(old(objects), objs)
      ensures !ok ==> PartlySynced(old(objects), objects, objs)
      ensures failures == if ok then old(failures) else old(failures) + 1
    {
      var prune, applied: nat := *, *;
      ok := *;
      ghost var before := objects;
      var base := if ok || prune then Kept(objects, objs) else objects;
      var n := if ok || applied > |objs| then |objs| else applied;
      OverlayIsPartial(before, base, objs, n);
      assert objs[..|objs|] == objs;
      objects := Overlay(base, objs[..n]);
      failures := if ok then failures else failures + 1;
    }
  }

  lemma {:induction false} OverlayKeys(live: Objects, objs: seq<Object>)
    ensures forall key :: key in Overlay(live, objs) <==> key in live || Lists(objs, key)
    ensures forall key | key in Overlay(live, objs) ::
              if Lists(objs, key) then exists i :: 0 <= i < |objs| && Is(objs[i], key, Overlay(live, objs)[key])
              else Overlay(live, objs)[key] == live[key]
  {
    if objs != [] {
      var front, last := objs[..|objs| - 1], objs[|objs| - 1];
      OverlayKeys(live, front);
      forall key
        ensures Lists(objs, key) <==> Lists(front, key) || last.key == key
      {
        ListsStep(objs, key);
      }
      forall key | key in Overlay(live, objs) && Lists(objs, key)
        ensures exists i :: 0 <= i < |objs| && Is(objs[i], key, Overlay(live, objs)[key])
      {
        if key == last.key {
          assert Is(objs[|objs| - 1], key, Overlay(live, objs)[key]);
        } else {
          var i :| 0 <= i < |front| && Is(front[i], key, Overlay(live, front)[key]);
          assert Is(objs[i], key, Overlay(live, objs)[key]);
        }
      }
    }
  }

  lemma ListsStep(objs: seq<Object>, key: string)
    requires objs != []
    ensures Lists(objs, key) <==> Lists(objs[..|objs| - 1], key) || objs[|objs| - 1].key == key
  {
    var front := objs[..|objs| - 1];
    assert forall i | 0 <= i < |front| :: front[i] == objs[i];
    if Lists(objs, key) {
      var i :| 0 <= i < |objs| && objs[i].key == key;
      if i < |front| { assert front[i].key == key; }
    }
    if Lists(front, key) {
      var i :| 0 <= i < |front| && front[i].key == key;
      assert objs[i].key == key;
    }
  }

  lemma OverlayIsPartial(before: Objects, base: Objects, objs: seq<Object>, n: nat)
    requires n <= |objs| && (base == before || base == Kept(before, objs))
    ensures PartlySynced(before, Overlay(base, objs[..n]), objs)
  {
    var some := objs[..n];
    OverlayKeys(base, some);
    var after := Overlay(base, some);
    forall key | key in after
      ensures (key in before && after[key] == before[key])
              || exists i :: 0 <= i < |objs| && Is(objs[i], key, after[key])
    {
      if Lists(some, key) {
        var i :| 0 <= i < |some| && Is(some[i], key, after[key]);
        assert Is(objs[i], key, after[key]);
      }
    }
  }

  // ---------- Reconcile ----------

  /** What loading, generating and splitting rest on. */
  datatype Reader = Reader(
    registry: Store,
    host: string,
    kustomize: Kustomize,
    helm: Helm,
    split: Bytes -> Option<seq<Object>>)

  /** What a loaded package builds to. */
  function LoadedData(p: Package, r: Reader): Option<Bytes> {
    match Identify(p)
    case ManifestType =>
      var t :- LoadedTree(r.registry, r.host, p, r.kustomize.legal);
      Generated(t, r.kustomize)
    case ChartType =>
      var files :- LoadedFiles(r.registry, r.host, p, r.helm);
      r.helm.render(files)
    case UnknownType => None
  }

  function ObjectsOf(p: Package, r: Reader): Option<seq<Object>> {
    var data :- LoadedData(p, r);
    r.split(data)
  }

  type Objectify = Package -> Option<seq<Object>>

  /** What packages are read as, one after the other; None when one is not. */
  function AllOf(ps: seq<Package>, objectsOf: Objectify): Option<seq<seq<Object>>> {
    if ps == [] then Some([])
    else
      var front :- AllOf(ps[..|ps| - 1], objectsOf);
      var last :- objectsOf(ps[|ps| - 1]);
      Some(front + [last])
  }

  function ReadBy(r: Reader): Objectify { p => ObjectsOf(p, r) }

  function AllObjects(ps: seq<Package>, r: Reader): Option<seq<seq<Object>>> { AllOf(ps, ReadBy(r)) }

  function SyncedAll(live: Objects, lists: seq<seq<Object>>): Objects {
    if lists == [] then live else Synced(SyncedAll(live, lists[..|lists| - 1]), lists[|lists| - 1])
  }

  method LoadObjects(p: Package, r: Reader) returns (objs: Option<seq<Object>>)
    ensures objs == ObjectsOf(p, r)
  {
    var loaded := Load(r.registry, r.host, p, r.kustomize.legal, r.helm);
    if loaded.None? {
      return None;
    }
    var data: Option<Bytes>;
    match loaded.value {
      case LoadedManifest(m) => data := m.Generate(r.kustomize);
      case LoadedChart(files) => data := r.helm.render(files);
    }
    if data.None? {
      return None;
    }
    objs := r.split(data.value);
  }

  /** What a package is synced as, exactly, from its fields alone: a package with a manifest path by
      building the tree it is loaded as, with a root where none stands; another chart by rendering the
      files it is loaded as; and then splitting. */
  lemma ObjectsExactly(p: Package, r: Reader)
    ensures p.manifestPath != "" ==>
              var t, k := LoadedTree(r.registry, r.host, p, r.kustomize.legal), r.kustomize;
              && (t.None? ==> ObjectsOf(p, r).None?)
              && (t.Some? ==> exists after, data :: && BuiltFrom(t.value, k, after, data)
                                                    && ObjectsOf(p, r) == SplitOf(data, r))
    ensures p.manifestPath == "" && (p.chart.path != "" || p.chart.repoUrl != "") ==>
              var files := LoadedFiles(r.registry, r.host, p, r.helm);
              ObjectsOf(p, r) == if files.Some? then SplitOf(r.helm.render(files.value), r) else None
    ensures p.manifestPath == "" && p.chart.path == "" && p.chart.repoUrl == "" ==> ObjectsOf(p, r).None?
  {
    if p.manifestPath != "" {
      var t, k := LoadedTree(r.registry, r.host, p, r.kustomize.legal), r.kustomize;
      if t.Some? {
        var payload := TheLayer(r.registry, r.host, p).value;
        UnpackedIsSound(EMPTY, payload.items, k.legal);
        GeneratingBuildsTheFiles(t.value, k);
        assert BuiltFrom(t.value, k, AfterGenerate(t.value, k), Generated(t.value, k));
        assert ObjectsOf(p, r) == SplitOf(Generated(t.value, k), r);
      }
    }
  }

  function SplitOf(data: Option<Bytes>, r: Reader): Option<seq<Object>> {
    if data.Some? then r.split(data.value) else None
  }

  datatype Lookup = FoundKevi(k: Kevi) | NotFound | LookupError

  /** What a reconcile leaves that synced `n` packages, `failed` saying whether it then failed in a
      sync; if it stopped for another reason, the next package does not load, generate or split. */
  ghost predicate Outcome(before: Objects, after: Objects, ps: seq<Package>, r: Reader, n: nat, failed: bool) {
    && n <= |ps| && AllObjects(ps[..n], r).Some?
    && var reached := SyncedAll(before, AllObjects(ps[..n], r).value);
       if failed then n < |ps| && ObjectsOf(ps[n], r).Some? && PartlySynced(reached, after, ObjectsOf(ps[n], r).value)
       else after == reached && (n < |ps| ==> ObjectsOf(ps[n], r).None?)
  }

  /** `Reconcile`. Packages are synced in order, and the first that does not load, generate, split
      or sync ends it, nothing else does; `n` is how many were synced. */
  method Reconcile(lookup: Lookup, r: Reader, live: Live) returns (ok: bool, ghost n: nat)
    modifies live
    ensures lookup.NotFound? ==> ok
    ensures lookup.LookupError? ==> !ok
    ensures !lookup.FoundKevi? ==> live.objects == old(live.objects) && live.failures == old(live.failures)
    ensures lookup.FoundKevi? ==>
              && Outcome(old(live.objects), live.objects, lookup.k.packages, r, n, live.failures != old(live.failures))
              && (ok <==> n == |lookup.k.packages|)
  {
    n := 0;
    match lookup {
      case NotFound => return true, n;
      case LookupError => return false, n;
      case FoundKevi(k) =>
        var ps := k.packages;
        assert ps[..0] == [];
        for i := 0 to |ps|
          modifies live
          invariant n == i && AllObjects(ps[..i], r).Some?
          invariant live.objects == SyncedAll(old(live.objects), AllObjects(ps[..i], r).value)
          invariant live.failures == old(live.failures)
        {
          var objs := LoadObjects(ps[i], r);
          if objs.None? {
            return false, n;
          }
          SyncedStep(old(live.objects), ps, i, r);
          var synced := live.Sync(objs.value);
          if !synced {
            return false, n;
          }
          n := n + 1;
        }
        assert ps[..|ps|] == ps;
        ok := true;
    }
  }

  lemma SyncedStep(live: Objects, ps: seq<Package>, i: nat, r: Reader)
    requires i < |ps| && AllObjects(ps[..i], r).Some? && ObjectsOf(ps[i], r).Some?
    ensures AllObjects(ps[..i + 1], r).Some?
    ensures SyncedAll(live, AllObjects(ps[..i + 1], r).value) ==
            Synced(SyncedAll(live, AllObjects(ps[..i], r).value), ObjectsOf(ps[i], r).value)
  {
    assert ps[..i + 1][..i] == ps[..i];
    var front, last := AllObjects(ps[..i], r).value, ObjectsOf(ps[i], r).value;
    assert (front + [last])[..|front|] == front;
  }

  // ---------- What a reconcile leaves ----------

  /** The objects of all packages, and those of the last one. */
  function Concat(lists: seq<seq<Object>>): seq<Object> {
    if lists == [] then [] else Concat(lists[..|lists| - 1]) + lists[|lists| - 1]
  }

  function LastOf(lists: seq<seq<Object>>): seq<Object> {
    if lists == [] then [] else lists[|lists| - 1]
  }

  /** A sync deletes exactly the objects marked `donk` that it is not given. */
  lemma SyncDeletesExactly(live: Objects, objs: seq<Object>, key: string)
    requires key in live
    ensures key !in Synced(live, objs) <==>
              live[key].mark == Some("donk") && forall i | 0 <= i < |objs| :: objs[i].key != key
  {
    OverlayKeys(Kept(live, objs), objs);
  }

  lemma {:induction false} OverlayConcat(live: Objects, a: seq<Object>, b: seq<Object>)
    ensures Overlay(live, a + b) == Overlay(Overlay(live, a), b)
  {
    if b == [] {
      assert a + b == a;
    } else {
      assert (a + b)[..|a + b| - 1] == a + b[..|b| - 1];
      OverlayConcat(live, a, b[..|b| - 1]);
    }
  }

  /** At a key that is listed, what was there before does not matter. */
  lemma {:induction false} OverlayAt(one: Objects, two: Objects, objs: seq<Object>, key: string)
    requires Lists(objs, key)
    ensures key in Overlay(one, objs) && key in Overlay(two, objs) && Overlay(one, objs)[key] == Overlay(two, objs)[key]
  {
    if objs[|objs| - 1].key != key {
      ListsStep(objs, key);
      OverlayAt(one, two, objs[..|objs| - 1], key);
    }
  }

  /** Two clusters that differ in listed objects and in managed ones alone are synced to one. */
  lemma SameOnceKept(one: Objects, two: Objects, objs: seq<Object>)
    requires forall key | !Lists(objs, key) ::
               (key in one && !Managed(one[key])) == (key in two && !Managed(two[key]))
               && (key in one && key in two && !Managed(one[key]) ==> one[key] == two[key])
    ensures Kept(Overlay(one, objs), objs) == Kept(Overlay(two, objs), objs)
  {
    OverlayKeys(one, objs);
    OverlayKeys(two, objs);
    var a, b := Kept(Overlay(one, objs), objs), Kept(Overlay(two, objs), objs);
    forall key ensures (key in a <==> key in b) && (key in a ==> a[key] == b[key]) {
      if Lists(objs, key) {
        OverlayAt(one, two, objs, key);
      }
    }
  }

  /** It does not matter whether pruning comes before applying or after it. */
  lemma PruneLast(live: Objects, objs: seq<Object>)
    ensures Synced(live, objs) == Kept(Overlay(live, objs), objs)
  {
    var kept := Kept(live, objs);
    OverlayKeys(kept, objs);
    SameOnceKept(kept, live, objs);
    assert Kept(Overlay(kept, objs), objs) == Overlay(kept, objs);
  }

  /** Exactly what a reconcile leaves, whatever is marked: all objects of all packages applied in
      order, less the managed ones that the last package does not list. */
  lemma {:induction false} ReconcileLeavesExactly(live: Objects, lists: seq<seq<Object>>)
    requires lists != []
    ensures SyncedAll(live, lists) == Kept(Overlay(live, Concat(lists)), LastOf(lists))
  {
    var front, last := lists[..|lists| - 1], lists[|lists| - 1];
    var all := Overlay(live, Concat(front));
    OverlayConcat(live, Concat(front), last);
    PruneLast(SyncedAll(live, front), last);
    if front != [] {
      ReconcileLeavesExactly(live, front);
      SameOnceKept(Kept(all, LastOf(front)), all, last);
    }
  }

  /** Exactly what is missing after a reconcile of what was in the cluster or in a package, and what
      the rest is. */
  lemma ReconcileDeletesExactly(live: Objects, lists: seq<seq<Object>>, key: string)
    requires lists != [] && (key in live || Lists(Concat(lists), key))
    ensures var all := Overlay(live, Concat(lists)); var after := SyncedAll(live, lists);
            && key in all
            && (key !in after <==> all[key].mark == Some("donk") && !Lists(LastOf(lists), key))
            && (key in after ==> after[key] == all[key])
  {
    ReconcileLeavesExactly(live, lists);
    OverlayKeys(live, Concat(lists));
  }

  /** `i` is the last place of `objs` with its key. */
  predicate LastOfKey(objs: seq<Object>, i: nat) {
    i < |objs| && forall j | i < j < |objs| :: objs[j].key != objs[i].key
  }

  lemma {:induction false} LastObjectWins(live: Objects, objs: seq<Object>, i: nat)
    requires LastOfKey(objs, i)
    ensures objs[i].key in Overlay(live, objs) && Overlay(live, objs)[objs[i].key] == objs[i]
  {
    if i < |objs| - 1 {
      var front := objs[..|objs| - 1];
      assert forall j | 0 <= j < |front| :: front[j] == objs[j];
      LastObjectWins(live, front, i);
      assert objs[|objs| - 1].key != objs[i].key;
    }
  }

  lemma {:induction false} LastPlace(objs: seq<Object>, key: string) returns (i: nat)
    requires Lists(objs, key)
    ensures LastOfKey(objs, i) && objs[i].key == key
  {
    var n := |objs| - 1;
    if objs[n].key == key {
      i := n;
    } else {
      ListsStep(objs, key);
      var front := objs[..n];
      i := LastPlace(front, key);
      assert forall j | 0 <= j < n :: front[j] == objs[j];
    }
  }

  /** Exactly what a sync leaves: of each key that it is given the last object with it, and of the others
      what was there, unless that is marked `donk`. */
  lemma SyncLeavesExactly(live: Objects, objs: seq<Object>, key: string)
    ensures (exists i: nat :: LastOfKey(objs, i) && objs[i].key == key) ==>
              && key in Synced(live, objs)
              && exists i: nat :: LastOfKey(objs, i) && objs[i].key == key && Synced(live, objs)[key] == objs[i]
    ensures !(exists i: nat :: LastOfKey(objs, i) && objs[i].key == key) ==>
              && (key in Synced(live, objs) <==> key in live && live[key].mark != Some("donk"))
              && (key in Synced(live, objs) ==> Synced(live, objs)[key] == live[key])
  {
    var kept := Kept(live, objs);
    OverlayKeys(kept, objs);
    if i: nat :| LastOfKey(objs, i) && objs[i].key == key {
      LastObjectWins(kept, objs, i);
    } else if Lists(objs, key) {
      var i := LastPlace(objs, key);
    }
  }

  /** So the packages of one configuration prune one another: a marked object that no later package
      lists again is gone, if only the last package does not list it. */
  lemma MarkedPackagesPruneEachOther(live: Objects, lists: seq<seq<Object>>, i: nat)
    requires LastOfKey(Concat(lists), i) && Concat(lists)[i].mark == Some("donk")
    requires lists != [] && !Lists(LastOf(lists), Concat(lists)[i].key)
    ensures Concat(lists)[i].key !in SyncedAll(live, lists)
  {
    LastObjectWins(live, Concat(lists), i);
    ReconcileDeletesExactly(live, lists, Concat(lists)[i].key);
  }

  // ---------- Conservation ----------

  predicate NoneMarked(objs: seq<Object>) { forall i | 0 <= i < |objs| :: objs[i].mark != Some("donk") }

  /** No object of the cluster or of a package is one that the last sync would prune. */
  predicate NothingToPrune(live: Objects, lists: seq<seq<Object>>) {
    var all := Overlay(live, Concat(lists));
    lists != [] ==> forall key | key in all :: Lists(LastOf(lists), key) || all[key].mark != Some("donk")
  }

  /** A successful reconcile conserves, exactly when there is nothing to prune: then nothing is
      deleted, every key that no package lists keeps its object, and every object of every package is
      in the cluster, a later one in place of an earlier one with its key. */
  lemma ReconcileConserves(live: Objects, lists: seq<seq<Object>>)
    ensures NothingToPrune(live, lists) <==>
              live.Keys <= SyncedAll(live, lists).Keys
              && forall i: nat | LastOfKey(Concat(lists), i) :: Concat(lists)[i].key in SyncedAll(live, lists)
    ensures var after := SyncedAll(live, lists); var all := Concat(lists);
            && (forall key | key in after && !Lists(all, key) :: key in live && after[key] == live[key])
            && (forall i: nat | LastOfKey(all, i) && all[i].key in after :: after[all[i].key] == all[i])
            && (forall key | Lists(all, key) :: exists i: nat :: LastOfKey(all, i) && all[i].key == key)
  {
    var all := Concat(lists);
    var whole := Overlay(live, all);
    OverlayKeys(live, all);
    if lists != [] {
      ReconcileLeavesExactly(live, lists);
    }
    forall i: nat | LastOfKey(all, i)
      ensures all[i].key in whole && whole[all[i].key] == all[i] && Lists(all, all[i].key)
    {
      LastObjectWins(live, all, i);
    }
    forall key | Lists(all, key) ensures exists i: nat :: LastOfKey(all, i) && all[i].key == key {
      var i := LastPlace(all, key);
    }
  }

  lemma UnmarkedStays(live: Objects, objs: seq<Object>)
    requires (forall key | key in live :: live[key].mark != Some("donk")) && NoneMarked(objs)
    ensures forall key | key in Overlay(live, objs) :: Overlay(live, objs)[key].mark != Some("donk")
  {
    var all := Overlay(live, objs);
    OverlayKeys(live, objs);
    forall key | key in all ensures all[key].mark != Some("donk") {
      if i :| 0 <= i < |objs| && Is(objs[i], key, all[key]) {
        assert objs[i].mark != Some("donk");
      }
    }
  }

  /** In particular when nothing is marked `donk`, in the cluster or in a package: then nothing goes. */
  lemma UnmarkedIsNotPruned(live: Objects, lists: seq<seq<Object>>)
    requires (forall key | key in live :: live[key].mark != Some("donk")) && NoneMarked(Concat(lists))
    ensures NothingToPrune(live, lists)
    ensures live.Keys <= SyncedAll(live, lists).Keys
  {
    UnmarkedStays(live, Concat(lists));
    ReconcileConserves(live, lists);
  }

  // ---------- Rerunning ----------

  /** What reconciles that failed may have left: a key that no package lists holds what it held, or
      was pruned; one that some package lists may hold anything. */
  predicate PartlyReconciled(before: Objects, after: Objects, all: seq<Object>) {
    && (forall key | key in after && !Lists(all, key) :: key in before && after[key] == before[key])
    && (forall key | key in before && key !in after && !Lists(all, key) :: Managed(before[key]))
  }

  lemma PartlyReconciledTwice(a: Objects, b: Objects, c: Objects, all: seq<Object>)
    requires PartlyReconciled(a, b, all) && PartlyReconciled(b, c, all)
    ensures PartlyReconciled(a, c, all)
  {
  }

  /** A full rerun reaches the state of a single clean run from the same starting cluster, whatever
      is marked. */
  lemma RerunConverges(before: Objects, after: Objects, lists: seq<seq<Object>>)
    requires lists != [] && PartlyReconciled(before, after, Concat(lists))
    ensures SyncedAll(after, lists) == SyncedAll(before, lists)
  {
    var all, last := Concat(lists), LastOf(lists);
    ReconcileLeavesExactly(before, lists);
    ReconcileLeavesExactly(after, lists);
    OverlayKeys(before, all);
    OverlayKeys(after, all);
    ListedLast(lists);
    var a, b := SyncedAll(after, lists), SyncedAll(before, lists);
    forall key ensures (key in a <==> key in b) && (key in a ==> a[key] == b[key]) {
      if Lists(all, key) {
        OverlayAt(before, after, all, key);
      }
    }
  }

  lemma ListedLast(lists: seq<seq<Object>>)
    ensures forall key | Lists(LastOf(lists), key) :: Lists(Concat(lists), key)
  {
    if lists != [] {
      forall key | Lists(LastOf(lists), key) ensures Lists(Concat(lists), key) {
        ListedIn(lists, |lists| - 1, key);
      }
    }
  }

  lemma {:induction false} ConcatFront(lists: seq<seq<Object>>, n: nat)
    requires n <= |lists|
    ensures Concat(lists[..n]) <= Concat(lists)
    decreases |lists| - n
  {
    if n == |lists| {
      assert lists[..n] == lists;
    } else {
      assert lists[..n + 1][..n] == lists[..n];
      ConcatFront(lists, n + 1);
    }
  }

  lemma ListedIn(lists: seq<seq<Object>>, n: nat, key: string)
    requires n < |lists| && Lists(lists[n], key)
    ensures Lists(Concat(lists), key)
  {
    var i :| 0 <= i < |lists[n]| && lists[n][i].key == key;
    assert lists[..n + 1][..n] == lists[..n];
    ConcatFront(lists, n + 1);
    var j := |Concat(lists[..n])| + i;
    assert Concat(lists[..n + 1])[j] == lists[n][i];
    assert Concat(lists)[j].key == key;
  }

  lemma ListedInFront(lists: seq<seq<Object>>, n: nat)
    requires n <= |lists|
    ensures forall key | Lists(Concat(lists[..n]), key) :: Lists(Concat(lists), key)
  {
    ConcatFront(lists, n);
    forall key | Lists(Concat(lists[..n]), key) ensures Lists(Concat(lists), key) {
      var i :| 0 <= i < |Concat(lists[..n])| && Concat(lists[..n])[i].key == key;
      assert Concat(lists)[i].key == key;
    }
  }

  /** Syncing the first packages leaves such a partial state. */
  lemma PrefixIsPartial(before: Objects, lists: seq<seq<Object>>, n: nat)
    requires n <= |lists|
    ensures PartlyReconciled(before, SyncedAll(before, lists[..n]), Concat(lists))
  {
    var done := lists[..n];
    ListedInFront(lists, n);
    if done != [] {
      ReconcileLeavesExactly(before, done);
      OverlayKeys(before, Concat(done));
      ListedLast(done);
    }
  }

  /** So does syncing part of one more. */
  lemma SyncIsPartial(before: Objects, after: Objects, lists: seq<seq<Object>>, n: nat)
    requires n < |lists| && PartlySynced(before, after, lists[n])
    ensures PartlyReconciled(before, after, Concat(lists))
  {
    forall key | Lists(lists[n], key) ensures Lists(Concat(lists), key) {
      ListedIn(lists, n, key);
    }
    forall key | key in after && !Lists(Concat(lists), key) ensures key in before && after[key] == before[key] {
      if i :| 0 <= i < |lists[n]| && Is(lists[n][i], key, after[key]) {
        assert Lists(lists[n], key);
      }
    }
  }

  // ---------- Reconciles that fail, and one that does not ----------

  /** A reader that finds of every package either nothing or what the other finds. */
  ghost predicate FindsNothingElse(some: Reader, r: Reader, ps: seq<Package>) {
    forall i | 0 <= i < |ps| && ObjectsOf(ps[i], some).Some? :: ObjectsOf(ps[i], some) == ObjectsOf(ps[i], r)
  }

  lemma {:induction false} AllOfFront(ps: seq<Package>, f: Objectify, g: Objectify, n: nat)
    requires n <= |ps| && forall i | 0 <= i < |ps| && f(ps[i]).Some? :: f(ps[i]) == g(ps[i])
    requires AllOf(ps, g).Some? && AllOf(ps[..n], f).Some?
    ensures |AllOf(ps, g).value| == |ps|
    ensures AllOf(ps[..n], f).value == AllOf(ps, g).value[..n]
    decreases |ps|
  {
    if ps != [] {
      var m := |ps| - 1;
      var front := ps[..m];
      assert forall i | 0 <= i < m :: front[i] == ps[i];
      if n == |ps| {
        assert ps[..n] == ps;
        assert front[..m] == front;
        AllOfFront(front, f, g, m);
        assert f(ps[m]).Some?;
      } else {
        assert front[..n] == ps[..n];
        AllOfFront(front, f, g, n);
      }
    }
  }

  lemma {:induction false} AllOfAlike(ps: seq<Package>, f: Objectify, g: Objectify)
    requires forall i | 0 <= i < |ps| :: f(ps[i]) == g(ps[i])
    ensures AllOf(ps, f) == AllOf(ps, g)
  {
    if ps != [] {
      var m := |ps| - 1;
      assert forall i | 0 <= i < m :: ps[..m][i] == ps[i];
      AllOfAlike(ps[..m], f, g);
    }
  }

  lemma {:induction false} AllOfAt(ps: seq<Package>, f: Objectify, n: nat)
    requires n < |ps| && AllOf(ps, f).Some?
    ensures |AllOf(ps, f).value| == |ps| && f(ps[n]) == Some(AllOf(ps, f).value[n])
    decreases |ps|
  {
    var m := |ps| - 1;
    if m > 0 {
      AllOfAt(ps[..m], f, if n < m then n else 0);
    }
  }

  /** Exactly what a reconcile that succeeds leaves. */
  lemma SuccessLeavesExactly(live: Objects, after: Objects, ps: seq<Package>, r: Reader)
    requires ps != [] && Outcome(live, after, ps, r, |ps|, false)
    ensures AllObjects(ps, r).Some?
    ensures after == Kept(Overlay(live, Concat(AllObjects(ps, r).value)), LastOf(AllObjects(ps, r).value))
  {
    assert ps[..|ps|] == ps;
    AllOfAt(ps, ReadBy(r), 0);
    ReconcileLeavesExactly(live, AllObjects(ps, r).value);
  }

  lemma ReadAlike(ps: seq<Package>, some: Reader, r: Reader, n: nat)
    requires n <= |ps| && FindsNothingElse(some, r, ps)
    requires AllObjects(ps, r).Some? && AllObjects(ps[..n], some).Some?
    ensures |AllObjects(ps, r).value| == |ps|
    ensures AllObjects(ps[..n], some).value == AllObjects(ps, r).value[..n]
  {
    AllOfFront(ps, ReadBy(some), ReadBy(r), n);
  }

  /** One reconcile of some packages, however it ends. */
  ghost predicate Attempt(before: Objects, after: Objects, ps: seq<Package>, r: Reader) {
    exists n: nat, failed :: Outcome(before, after, ps, r, n, failed)
  }

  /** However a reconcile ends, it leaves a partial state. */
  lemma AttemptIsPartial(before: Objects, after: Objects, ps: seq<Package>, some: Reader, r: Reader)
    requires Attempt(before, after, ps, some) && FindsNothingElse(some, r, ps) && AllObjects(ps, r).Some?
    ensures PartlyReconciled(before, after, Concat(AllObjects(ps, r).value))
  {
    var n: nat, failed :| Outcome(before, after, ps, some, n, failed);
    var lists := AllObjects(ps, r).value;
    ReadAlike(ps, some, r, n);
    PrefixIsPartial(before, lists, n);
    if failed {
      AllOfAt(ps, ReadBy(r), n);
      SyncIsPartial(SyncedAll(before, lists[..n]), after, lists, n);
      PartlyReconciledTwice(before, SyncedAll(before, lists[..n]), after, Concat(lists));
    }
  }

  /** Attempts at one configuration, one after the other, by readers that find nothing else in it. */
  ghost predicate Attempts(states: seq<Objects>, readers: seq<Reader>, ps: seq<Package>, r: Reader) {
    && |states| == |readers| + 1
    && forall i | 0 <= i < |readers| ::
         FindsNothingElse(readers[i], r, ps) && Attempt(states[i], states[i + 1], ps, readers[i])
  }

  lemma AttemptAt(states: seq<Objects>, readers: seq<Reader>, ps: seq<Package>, r: Reader, m: nat)
    requires Attempts(states, readers, ps, r) && AllObjects(ps, r).Some? && m < |readers|
    ensures PartlyReconciled(states[m], states[m + 1], Concat(AllObjects(ps, r).value))
  {
    assert FindsNothingElse(readers[m], r, ps) && Attempt(states[m], states[m + 1], ps, readers[m]);
    AttemptIsPartial(states[m], states[m + 1], ps, readers[m], r);
  }

  lemma {:induction false} AttemptsArePartial(states: seq<Objects>, readers: seq<Reader>, ps: seq<Package>, r: Reader,
                                              n: nat)
    requires Attempts(states, readers, ps, r) && AllObjects(ps, r).Some? && n <= |readers|
    ensures PartlyReconciled(states[0], states[n], Concat(AllObjects(ps, r).value))
  {
    if n > 0 {
      var m := n - 1;
      AttemptsArePartial(states, readers, ps, r, m);
      AttemptAt(states, readers, ps, r, m);
      PartlyReconciledTwice(states[0], states[m], states[n], Concat(AllObjects(ps, r).value));
    }
  }

  /** Without packages there is nothing to do. */
  lemma {:induction false} NothingToDo(states: seq<Objects>, readers: seq<Reader>, r: Reader, n: nat)
    requires Attempts(states, readers, [], r) && n <= |readers|
    ensures states[n] == states[0]
  {
    if n > 0 {
      var m := n - 1;
      NothingToDo(states, readers, r, m);
      assert Attempt(states[m], states[m + 1], [], readers[m]);
    }
  }

  /** Convergence. After any number of reconciles of one configuration, each ending anywhere and with a
      registry that holds its packages or not yet, one that succeeds leaves what a single clean run
      from the first cluster would have left. */
  lemma ReconcilesConverge(states: seq<Objects>, readers: seq<Reader>, after: Objects, ps: seq<Package>, r: Reader)
    requires Attempts(states, readers, ps, r) && AllObjects(ps, r).Some?
    requires Outcome(states[|readers|], after, ps, r, |ps|, false)
    ensures after == SyncedAll(states[0], AllObjects(ps, r).value)
  {
    assert ps[..|ps|] == ps;
    if ps == [] {
      NothingToDo(states, readers, r, |readers|);
    } else {
      AllOfAt(ps, ReadBy(r), 0);
      AttemptsArePartial(states, readers, ps, r, |readers|);
      RerunConverges(states[0], states[|readers|], AllObjects(ps, r).value);
    }
  }
}
