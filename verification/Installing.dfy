/** Installing kevi into a cluster: its own image is written to the registry, and its objects are
    applied. Building the image and generating the objects are not modelled. */
module Installing {
  import opened Strs
  import opened Relocation
  import opened Api
  import opened Copying

  /** An object of the operator, by its kind and the rest of it. */
  datatype InstallObject = InstallObject(kind: string, body: string)

  class Cluster {
    /** The configurations applied, and the objects of the operator. */
    var applied: seq<Kevi>
    var installed: seq<InstallObject>

    /** How many applications have failed. */
    var refusals: nat

    constructor ()
      ensures applied == [] && installed == [] && refusals == 0
    {
      applied, installed, refusals := [], [], 0;
    }

    /** Applying may fail at any time, and then applies nothing. */
    method Apply(k: Kevi) returns (ok: bool)
      modifies this
      ensures applied == if ok then old(applied) + [k] else old(applied)
      ensures installed == old(installed)
      ensures refusals == if ok then old(refusals) else old(refusals) + 1
    {
      ok := *;
      if ok {
        applied := applied + [k];
      } else {
        refusals := refusals + 1;
      }
    }

    /** Likewise for an object of the operator. */
    method ApplyObject(o: InstallObject) returns (ok: bool)
      modifies this
      ensures installed == if ok then old(installed) + [o] else old(installed)
      ensures applied == old(applied)
      ensures refusals == if ok then old(refusals) else old(refusals) + 1
    {
      ok := *;
      if ok {
        installed := installed + [o];
      } else {
        refusals := refusals + 1;
      }
    }
  }

  const NAMESPACE_KIND := "Namespace"

  function NamespacesOf(objs: seq<InstallObject>): seq<InstallObject> {
    if objs == [] then []
    else
      var last := objs[|objs| - 1];
      NamespacesOf(objs[..|objs| - 1]) + if last.kind == NAMESPACE_KIND then [last] else []
  }

  /** The order installing applies objects in: namespaces, and then everything. */
  function InstallOrder(objs: seq<InstallObject>): seq<InstallObject> { NamespacesOf(objs) + objs }

  /** The image of the operator, with its digest. */
  datatype Image = Image(artifact: Artifact, digest: string)

  /** What installing writes to the registry. */
  function WithController(registry: Store, host: string, image: Image): Store {
    registry[ControllerAt(host, image.digest) := image.artifact]
  }

  method ApplyObjects(cluster: Cluster, objs: seq<InstallObject>) returns (ok: bool, ghost m: nat)
    modifies cluster
    ensures m <= |objs| && (ok <==> m == |objs|)
    ensures cluster.installed == old(cluster.installed) + objs[..m] && cluster.applied == old(cluster.applied)
    ensures cluster.refusals == if ok then old(cluster.refusals) else old(cluster.refusals) + 1
  {
    m := 0;
    for i := 0 to |objs|
      invariant m == i && cluster.refusals == old(cluster.refusals)
      invariant cluster.installed == old(cluster.installed) + objs[..i] && cluster.applied == old(cluster.applied)
    {
      var done := cluster.ApplyObject(objs[i]);
      if !done {
        return false, m;
      }
      m := m + 1;
    }
    ok := true;
  }

  /** The loop that applies namespaces first. */
  method ApplyNamespaces(cluster: Cluster, objs: seq<InstallObject>) returns (ok: bool, ghost m: nat)
    modifies cluster
    ensures m <= |NamespacesOf(objs)| && (ok <==> m == |NamespacesOf(objs)|)
    ensures cluster.installed == old(cluster.installed) + NamespacesOf(objs)[..m]
    ensures cluster.applied == old(cluster.applied)
    ensures cluster.refusals == if ok then old(cluster.refusals) else old(cluster.refusals) + 1
  {
    m := 0;
    assert objs[..0] == [];
    for i := 0 to |objs|
      invariant m == |NamespacesOf(objs[..i])| && cluster.refusals == old(cluster.refusals)
      invariant cluster.installed == old(cluster.installed) + NamespacesOf(objs[..i])
      invariant cluster.applied == old(cluster.applied)
    {
      NamespacesStep(objs, i);
      if objs[i].kind == NAMESPACE_KIND {
        var done := cluster.ApplyObject(objs[i]);
        if !done {
          NamespacesFront(objs, i + 1);
          return false, m;
        }
        m := m + 1;
      }
    }
    assert objs[..|objs|] == objs;
    ok := true;
  }

  lemma NamespacesStep(objs: seq<InstallObject>, i: nat)
    requires i < |objs|
    ensures NamespacesOf(objs[..i + 1]) ==
            NamespacesOf(objs[..i]) + if objs[i].kind == NAMESPACE_KIND then [objs[i]] else []
  {
    assert objs[..i + 1][..i] == objs[..i];
  }

  lemma {:induction false} NamespacesFront(objs: seq<InstallObject>, i: nat)
    requires i <= |objs|
    ensures NamespacesOf(objs[..i]) <= NamespacesOf(objs)
    decreases |objs| - i
  {
    if i < |objs| {
      NamespacesStep(objs, i);
      NamespacesFront(objs, i + 1);
    } else {
      assert objs[..i] == objs;
    }
  }

  lemma PrefixesInOrder(first: seq<InstallObject>, rest: seq<InstallObject>, m: nat)
    requires m <= |first| + |rest|
    ensures (first + rest)[..m] == if m <= |first| then first[..m] else first + rest[..m - |first|]
  {
  }

  /** What is applied first is exactly the objects of kind `Namespace`, in order. */
  lemma {:induction false} NamespacesArePicked(objs: seq<InstallObject>) returns (at: seq<nat>)
    ensures Picked(objs, (o: InstallObject) => o.kind == "Namespace", at, NamespacesOf(objs))
  {
    if objs == [] {
      at := [];
    } else {
      var n := |objs| - 1;
      at := NamespacesArePicked(objs[..n]);
      PickedOneMore(objs[..n], objs[n], (o: InstallObject) => o.kind == "Namespace", at, NamespacesOf(objs[..n]));
      assert objs[..n] + [objs[n]] == objs;
      if objs[n].kind == "Namespace" {
        at := at + [n];
      } else {
        assert NamespacesOf(objs[..n]) + [] == NamespacesOf(objs[..n]);
      }
    }
  }

  /** Namespaces, and then everything. */
  method ApplyInOrder(cluster: Cluster, objs: seq<InstallObject>) returns (ok: bool, ghost m: nat)
    modifies cluster
    ensures m <= |InstallOrder(objs)| && (ok <==> m == |InstallOrder(objs)|)
    ensures cluster.installed == old(cluster.installed) + InstallOrder(objs)[..m]
    ensures cluster.applied == old(cluster.applied)
    ensures cluster.refusals == if ok then old(cluster.refusals) else old(cluster.refusals) + 1
  {
    ok, m := ApplyNamespaces(cluster, objs);
    PrefixesInOrder(NamespacesOf(objs), objs, m);
    if ok {
      ghost var n: nat;
      ok, n := ApplyObjects(cluster, objs);
      PrefixesInOrder(NamespacesOf(objs), objs, m + n);
      m := m + n;
    } else {
      return false, m;
    }
  }

  /** `runInstall`: the operator's image is written to the registry, and then its objects are applied,
      namespaces first. `wrote` says whether the image was written, and `m` how many objects were
      applied. It fails when the image cannot be built or written or the objects cannot be generated
      or applied, and for no other reason. */
  method Install(registry: Registry, cluster: Cluster, host: string, image: Option<Image>,
                 generate: string -> Option<seq<InstallObject>>)
    returns (ok: bool, ghost wrote: bool, ghost m: nat)
    modifies registry, cluster
    ensures wrote ==> image.Some?
    ensures registry.content ==
            if wrote then WithController(old(registry.content), host, image.value) else old(registry.content)
    ensures registry.refusals ==
            if image.Some? && !wrote then old(registry.refusals) + 1 else old(registry.refusals)
    ensures cluster.applied == old(cluster.applied)
    ensures var objs := if wrote then generate(ControllerAt(host, image.value.digest)) else None;
            && (objs.None? ==> !ok && m == 0 && cluster.installed == old(cluster.installed))
            && (objs.Some? ==> && m <= |InstallOrder(objs.value)| && (ok <==> m == |InstallOrder(objs.value)|)
                               && cluster.installed == old(cluster.installed) + InstallOrder(objs.value)[..m])
            && cluster.refusals == if objs.Some? && !ok then old(cluster.refusals) + 1 else old(cluster.refusals)
  {
    wrote, m := false, 0;
    if image.None? {
      return false, wrote, m;
    }
    var ref := ControllerReference(host, image.value.digest);
    var written := registry.Push(ref, image.value.artifact);
    if !written {
      return false, wrote, m;
    }
    wrote := true;
    var objs := generate(ref);
    if objs.None? {
      return false, wrote, m;
    }
    ok, m := ApplyInOrder(cluster, objs.value);
  }

  method ControllerReference(host: string, digest: string) returns (ref: string)
    ensures ref == ControllerAt(host, digest)
  {
    ControllerHasAPlace(host, digest);
    ref := InstallReference(host, digest).value;
  }
}
