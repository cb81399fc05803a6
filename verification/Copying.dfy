/** Copying a store to a registry, reference by reference in the order the store is walked. */
module Copying {
  import opened Strs
  import opened Relocation
  import opened Api

  type Relocator = string -> Option<string>

  /** The relocation to one host. */
  function ToHost(host: string): Relocator { reference => Relocate(reference, host) }

  /** A walk of a store: every reference once, in some order. */
  ghost predicate IsWalk(order: seq<string>, store: Store) {
    && (forall r :: r in order <==> r in store)
    && (forall i, j | 0 <= i < j < |order| :: order[i] != order[j])
  }

  /** Some walk of a store. */
  method WalkOf(store: Store) returns (order: seq<string>)
    ensures IsWalk(order, store)
  {
    order := [];
    var todo := store.Keys;
    while todo != {}
      invariant todo <= store.Keys
      invariant forall r :: r in order <==> r in store && r !in todo
      invariant forall i, j | 0 <= i < j < |order| :: order[i] != order[j]
      decreases todo
    {
      var r :| r in todo;
      order := order + [r];
      todo := todo - {r};
    }
  }

  predicate Copyable(order: seq<string>, store: Store, relocate: Relocator) {
    forall i | 0 <= i < |order| :: order[i] in store && relocate(order[i]).Some?
  }

  /** The registry once the references of `order` have been copied. */
  function Copied(registry: Store, store: Store, order: seq<string>, relocate: Relocator): Store
    requires Copyable(order, store, relocate)
  {
    if order == [] then registry
    else
      var last := order[|order| - 1];
      Copied(registry, store, order[..|order| - 1], relocate)[relocate(last).value := store[last]]
  }

  /** The registry a complete copy leaves. */
  ghost predicate JustCopied(before: Store, registry: Store, store: Store, order: seq<string>, relocate: Relocator) {
    && IsWalk(order, store) && Copyable(order, store, relocate)
    && registry == Copied(before, store, order, relocate)
  }

  class Registry {
    var content: Store

    /** How many pushes have failed. */
    var refusals: nat

    constructor ()
      ensures content == map[] && refusals == 0
    {
      content, refusals := map[], 0;
    }

    /** Pushing may fail at any time, and then no reference changes. */
    method Push(to: string, a: Artifact) returns (ok: bool)
      modifies this
      ensures content == if ok then old(content)[to := a] else old(content)
      ensures refusals == if ok then old(refusals) else old(refusals) + 1
    {
      ok := *;
      if ok {
        content := content[to := a];
      } else {
        refusals := refusals + 1;
      }
    }
  }

  lemma CopiedStep(registry: Store, store: Store, order: seq<string>, i: nat, relocate: Relocator)
    requires i < |order| && Copyable(order[..i], store, relocate)
    requires order[i] in store && relocate(order[i]).Some?
    ensures Copyable(order[..i + 1], store, relocate)
    ensures Copied(registry, store, order[..i + 1], relocate) ==
            Copied(registry, store, order[..i], relocate)[relocate(order[i]).value := store[order[i]]]
  {
    assert order[..i + 1][..i] == order[..i];
    assert forall k | 0 <= k < i :: order[..i + 1][k] == order[..i][k];
  }

  /** `i` is the last place of `order` whose reference goes to `target`. */
  predicate LastTo(order: seq<string>, i: nat, target: string, relocate: Relocator) {
    && i < |order| && relocate(order[i]) == Some(target)
    && forall j | i < j < |order| :: relocate(order[j]) != Some(target)
  }

  /** The last place whose reference goes to `target` does not change when what follows goes
      elsewhere. */
  lemma LastToFront(order: seq<string>, target: string, relocate: Relocator, i: nat)
    requires order != [] && relocate(order[|order| - 1]) != Some(target) && i < |order| - 1
    ensures LastTo(order, i, target, relocate) <==> LastTo(order[..|order| - 1], i, target, relocate)
  {
    var front := order[..|order| - 1];
    assert forall j | i <= j < |front| :: front[j] == order[j];
    if LastTo(order, i, target, relocate) {
      forall j | i < j < |front| ensures relocate(front[j]) != Some(target) {
        assert relocate(order[j]) != Some(target);
      }
    }
  }

  /** What the copy leaves at the last place whose reference goes to a target. */
  lemma {:induction false} LastIsHeld(registry: Store, store: Store, order: seq<string>, relocate: Relocator,
                                      target: string, i: nat)
    requires Copyable(order, store, relocate) && LastTo(order, i, target, relocate)
    ensures var after := Copied(registry, store, order, relocate); target in after && after[target] == store[order[i]]
  {
    var n := |order| - 1;
    if i < n {
      LastToFront(order, target, relocate, i);
      LastIsHeld(registry, store, order[..n], relocate, target, i);
    }
  }

  predicate Goes(r: string, target: string, relocate: Relocator) { relocate(r) == Some(target) }

  lemma {:induction false} OthersAreKept(registry: Store, store: Store, order: seq<string>, relocate: Relocator,
                                         target: string)
    requires Copyable(order, store, relocate) && forall i | 0 <= i < |order| :: !Goes(order[i], target, relocate)
    ensures var after := Copied(registry, store, order, relocate);
            (target in after <==> target in registry) && (target in registry ==> after[target] == registry[target])
  {
    if order != [] {
      var n := |order| - 1;
      assert !Goes(order[n], target, relocate);
      OthersAreKept(registry, store, order[..n], relocate, target);
    }
  }

  lemma {:induction false} SomeLastPlace(order: seq<string>, relocate: Relocator, target: string) returns (i: nat)
    requires exists k :: 0 <= k < |order| && Goes(order[k], target, relocate)
    ensures LastTo(order, i, target, relocate)
  {
    var n := |order| - 1;
    if Goes(order[n], target, relocate) {
      i := n;
    } else {
      var k :| 0 <= k < |order| && Goes(order[k], target, relocate);
      assert Goes(order[..n][k], target, relocate);
      i := SomeLastPlace(order[..n], relocate, target);
      LastToFront(order, target, relocate, i);
    }
  }

  /** The copy refines "last walked wins", whatever the order: a target holds the content of the
      last reference that goes to it, and every other key of the registry is unchanged. */
  lemma LastWalkedWins(registry: Store, store: Store, order: seq<string>, relocate: Relocator, target: string)
    requires Copyable(order, store, relocate)
    ensures var after := Copied(registry, store, order, relocate);
            if exists i :: 0 <= i < |order| && Goes(order[i], target, relocate)
            then exists i: nat :: LastTo(order, i, target, relocate)
                                  && target in after && after[target] == store[order[i]]
            else && (target in after <==> target in registry)
                 && (target in registry ==> after[target] == registry[target])
  {
    if exists i :: 0 <= i < |order| && Goes(order[i], target, relocate) {
      var i := SomeLastPlace(order, relocate, target);
      LastIsHeld(registry, store, order, relocate, target, i);
    } else {
      OthersAreKept(registry, store, order, relocate, target);
    }
  }

  /** Whatever collides, every reference copied leaves something at its target. */
  lemma {:induction false} TargetsAreHeld(registry: Store, store: Store, order: seq<string>, relocate: Relocator,
                                          r: string)
    requires Copyable(order, store, relocate) && r in order
    ensures relocate(r).Some? && relocate(r).value in Copied(registry, store, order, relocate)
  {
    var front, last := order[..|order| - 1], order[|order| - 1];
    assert order == front + [last];
    if r != last {
      assert r in front;
      TargetsAreHeld(registry, store, front, relocate, r);
    }
  }

  /** No other reference of a store goes where `r` goes. */
  predicate Alone(r: string, store: Store, relocate: Relocator) {
    forall s | s in store && relocate(s).Some? && relocate(s) == relocate(r) :: s == r
  }

  /** No two references of a store go to one target. */
  predicate NoCollisions(store: Store, relocate: Relocator) {
    forall r | r in store :: Alone(r, store, relocate)
  }

  lemma {:induction false} CopiedSoFar(registry: Store, store: Store, order: seq<string>, relocate: Relocator,
                                       r: string)
    requires Copyable(order, store, relocate) && Alone(r, store, relocate) && r in order
    ensures var after := Copied(registry, store, order, relocate);
            relocate(r).value in after && after[relocate(r).value] == store[r]
  {
    var front, last := order[..|order| - 1], order[|order| - 1];
    assert order == front + [last];
    if r != last {
      assert r in front;
      CopiedSoFar(registry, store, front, relocate, r);
    }
  }

  /** A reference that is alone is copied without loss, whatever else collides. */
  lemma AloneIsKept(registry: Store, store: Store, order: seq<string>, relocate: Relocator, r: string)
    requires IsWalk(order, store) && Copyable(order, store, relocate) && r in store && Alone(r, store, relocate)
    ensures var after := Copied(registry, store, order, relocate);
            relocate(r).Some? && relocate(r).value in after && after[relocate(r).value] == store[r]
  {
    assert r in order;
    CopiedSoFar(registry, store, order, relocate, r);
  }

  /** With no collisions the copy is lossless: every reference of the store is in the registry,
      at its target, with its own content. */
  lemma CopyIsLossless(registry: Store, store: Store, order: seq<string>, relocate: Relocator)
    requires IsWalk(order, store) && Copyable(order, store, relocate) && NoCollisions(store, relocate)
    ensures var after := Copied(registry, store, order, relocate);
            forall r | r in store ::
              relocate(r).Some? && relocate(r).value in after && after[relocate(r).value] == store[r]
  {
    forall r | r in store
      ensures var after := Copied(registry, store, order, relocate);
              relocate(r).Some? && relocate(r).value in after && after[relocate(r).value] == store[r]
    {
      AloneIsKept(registry, store, order, relocate, r);
    }
  }

  /** The references walked decide which keys a copy can change. */
  lemma UntouchedKey(registry: Store, store: Store, order: seq<string>, relocate: Relocator, key: string)
    requires Copyable(order, store, relocate)
    requires forall r | r in order :: relocate(r) != Some(key)
    ensures var after := Copied(registry, store, order, relocate);
            (key in after <==> key in registry) && (key in registry ==> after[key] == registry[key])
  {
    assert forall i | 0 <= i < |order| :: order[i] in order;
    OthersAreKept(registry, store, order, relocate, key);
  }

  /** With no collisions every walk order gives the same registry. */
  lemma OrderDoesNotMatter(registry: Store, store: Store, one: seq<string>, two: seq<string>, relocate: Relocator)
    requires IsWalk(one, store) && Copyable(one, store, relocate)
    requires IsWalk(two, store) && Copyable(two, store, relocate)
    requires NoCollisions(store, relocate)
    ensures Copied(registry, store, one, relocate) == Copied(registry, store, two, relocate)
  {
    var a, b := Copied(registry, store, one, relocate), Copied(registry, store, two, relocate);
    CopyIsLossless(registry, store, one, relocate);
    CopyIsLossless(registry, store, two, relocate);
    forall key
      ensures (key in a <==> key in b) && (key in a ==> a[key] == b[key])
    {
      if r :| r in store && relocate(r) == Some(key) {
      } else {
        UntouchedKey(registry, store, one, relocate, key);
        UntouchedKey(registry, store, two, relocate, key);
      }
    }
  }
}
