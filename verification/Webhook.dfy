/** The mutating webhook: every container of an admitted pod is pointed at the registry. */
module Webhook {
  import opened Strs
  import opened Names
  import opened Relocation

  /** A container: the field the webhook writes, and all the others. */
  datatype Container = Container(name: string, image: string, others: map<string, string>)

  datatype Pod = Pod(initContainers: seq<Container>, containers: seq<Container>, others: map<string, string>)

  datatype Response = Errored(status: int) | Patched(original: Pod, mutated: Pod)

  /** The decoded pod, whose container lists are written in place. */
  class PodObject {
    const initContainers: array<Container>
    const containers: array<Container>
    const others: map<string, string>

    constructor (pod: Pod)
      ensures fresh(initContainers) && fresh(containers) && initContainers != containers
      ensures initContainers[..] == pod.initContainers && containers[..] == pod.containers
      ensures others == pod.others
    {
      var inits, mains := pod.initContainers, pod.containers;
      initContainers := new Container[|inits|](i requires 0 <= i < |inits| => inits[i]);
      containers := new Container[|mains|](i requires 0 <= i < |mains| => mains[i]);
      others := pod.others;
    }
  }

  /** The rewriting of images for one registry. */
  function Rewriter(registry: string): string -> Option<string> {
    image => Rewrite(image, registry)
  }

  /** What becomes of one image: rewritten, or left as it is when it is refused. */
  function RewriteOrKeep(image: string, rewrite: string -> Option<string>): string {
    var rel := rewrite(image);
    if rel.Some? then rel.value else image
  }

  function Rewritten(container: Container, rewrite: string -> Option<string>): Container {
    container.(image := RewriteOrKeep(container.image, rewrite))
  }

  function RewriteAll(containers: seq<Container>, rewrite: string -> Option<string>): seq<Container> {
    seq(|containers|, i requires 0 <= i < |containers| => Rewritten(containers[i], rewrite))
  }

  function Admitted(pod: Pod, registry: string): Pod {
    pod.(initContainers := RewriteAll(pod.initContainers, Rewriter(registry)),
         containers := RewriteAll(pod.containers, Rewriter(registry)))
  }

  /** `after` is `before` with nothing but images changed, each as `RewriteOrKeep` says. */
  predicate OnlyImagesRewritten(before: seq<Container>, after: seq<Container>, registry: string) {
    && |after| == |before|
    && forall i | 0 <= i < |before| ::
         && after[i].name == before[i].name && after[i].others == before[i].others
         && (Rewrite(before[i].image, registry).Some? ==>
               after[i].image == Rewrite(before[i].image, registry).value)
         && (Rewrite(before[i].image, registry).None? ==> after[i].image == before[i].image)
  }

  lemma RewriteAllOnlyRewritesImages(containers: seq<Container>, registry: string)
    ensures OnlyImagesRewritten(containers, RewriteAll(containers, Rewriter(registry)), registry)
  {
  }

  /** The loop over one container list, writing the images in place. */
  method RewriteImages(containers: array<Container>, rewrite: string -> Option<string>)
    modifies containers
    ensures containers[..] == RewriteAll(old(containers[..]), rewrite)
  {
    ghost var before := containers[..];
    for i := 0 to containers.Length
      invariant forall k | 0 <= k < i :: containers[k] == Rewritten(before[k], rewrite)
      invariant forall k | i <= k < containers.Length :: containers[k] == before[k]
    {
      var rel := rewrite(containers[i].image);
      if rel.Some? {
        containers[i] := containers[i].(image := rel.value);
      }
    }
  }

  /** Admission. `request` is the decoded pod, or None when it does not decode; `marshals` says
      whether the mutated pod can be encoded. Lengths, order and every field but the images are
      kept, in both lists, and refused images stay as they are. */
  method Handle(request: Option<Pod>, marshals: bool, registry: string) returns (response: Response)
    ensures request.None? ==> response == Errored(400)
    ensures request.Some? && !marshals ==> response == Errored(500)
    ensures request.Some? && marshals ==>
              && response.Patched? && response.original == request.value
              && response.mutated.others == request.value.others
              && OnlyImagesRewritten(request.value.initContainers, response.mutated.initContainers, registry)
              && OnlyImagesRewritten(request.value.containers, response.mutated.containers, registry)
              && response.mutated == Admitted(request.value, registry)
  {
    if request.None? {
      return Errored(400);
    }
    var pod := new PodObject(request.value);
    RewriteImages(pod.initContainers, Rewriter(registry));
    RewriteImages(pod.containers, Rewriter(registry));
    if !marshals {
      return Errored(500);
    }
    RewriteAllOnlyRewritesImages(request.value.initContainers, registry);
    RewriteAllOnlyRewritesImages(request.value.containers, registry);
    response := Patched(request.value, Pod(pod.initContainers[..], pod.containers[..], pod.others));
  }

  /** An image a second admission leaves alone. */
  predicate Settled(image: string, registry: string) {
    Rewrite(image, registry).Some? ==> Parse(image).Some? && Stable(RepoStr(Parse(image).value.repo), registry)
  }

  predicate AllSettled(pod: Pod, registry: string) {
    && (forall i | 0 <= i < |pod.initContainers| :: Settled(pod.initContainers[i].image, registry))
    && (forall i | 0 <= i < |pod.containers| :: Settled(pod.containers[i].image, registry))
  }

  lemma RewriteOrKeepTwice(image: string, registry: string)
    requires SelfDelimiting(registry)
    ensures var rewrite := Rewriter(registry);
            RewriteOrKeep(RewriteOrKeep(image, rewrite), rewrite) == RewriteOrKeep(image, rewrite)
            <==> Settled(image, registry)
  {
    if Rewrite(image, registry).Some? {
      RewriteTwice(image, registry);
    }
  }

  lemma RewriteAllTwice(cs: seq<Container>, registry: string)
    requires SelfDelimiting(registry)
    ensures var rewrite := Rewriter(registry);
            RewriteAll(RewriteAll(cs, rewrite), rewrite) == RewriteAll(cs, rewrite)
            <==> forall i | 0 <= i < |cs| :: Settled(cs[i].image, registry)
  {
    var rewrite := Rewriter(registry);
    var once, twice := RewriteAll(cs, rewrite), RewriteAll(RewriteAll(cs, rewrite), rewrite);
    forall i | 0 <= i < |cs|
      ensures twice[i] == once[i] <==> Settled(cs[i].image, registry)
    {
      RewriteOrKeepTwice(cs[i].image, registry);
    }
  }

  /** The webhook is idempotent on a pod exactly when every image in it is refused or stable. */
  lemma HandlingTwice(pod: Pod, registry: string)
    requires SelfDelimiting(registry)
    ensures Admitted(Admitted(pod, registry), registry) == Admitted(pod, registry) <==> AllSettled(pod, registry)
  {
    RewriteAllTwice(pod.initContainers, registry);
    RewriteAllTwice(pod.containers, registry);
  }

  predicate DotlessOrRefused(image: string, registry: string) {
    Rewrite(image, registry).None? || (Parse(image).Some? && Dotless(Parse(image).value))
  }

  /** In particular on every pod, of any number of containers, whose images are each dotless or
      refused. */
  lemma DotlessPodsSettle(pod: Pod, registry: string)
    requires SelfDelimiting(registry)
    requires forall i | 0 <= i < |pod.initContainers| :: DotlessOrRefused(pod.initContainers[i].image, registry)
    requires forall i | 0 <= i < |pod.containers| :: DotlessOrRefused(pod.containers[i].image, registry)
    ensures Admitted(Admitted(pod, registry), registry) == Admitted(pod, registry)
  {
    forall i | 0 <= i < |pod.initContainers|
      ensures Settled(pod.initContainers[i].image, registry)
    {
      assert DotlessOrRefused(pod.initContainers[i].image, registry);
    }
    forall i | 0 <= i < |pod.containers|
      ensures Settled(pod.containers[i].image, registry)
    {
      assert DotlessOrRefused(pod.containers[i].image, registry);
    }
    HandlingTwice(pod, registry);
  }
}
