/** The five places that compute addresses: the store keys of packages and images, the copy to
    a target registry, the webhook's rewriting of a pod's images, and the address a package is
    read back from. */
module Relocation {
  import opened Strs
  import opened Names
  import opened Paths

  const NAMESPACE := "kevi"

  /** What the names of stored configurations begin with, and the operator's image too. */
  const CONFIG_PREFIX := "kevi-"

  // ---------- The operations ----------

  /** Where a reference goes in `registry`. */
  function Relocate(ref: string, registry: string): Option<string> {
    var original :- Parse(ref);
    var relocated :- ParseReference(RepoStr(original.repo), registry);
    var kind := if NewDigest(Name(original), HUB).Some? then Digest else Tag;
    Some(Name(Ref(relocated.repo, kind, original.id)))
  }

  /** The webhook's rewriting of one image: relocate, then normalise once more. */
  function Rewrite(image: string, registry: string): Option<string> {
    var relocated :- Relocate(image, registry);
    var rel :- Parse(relocated);
    Some(Name(rel))
  }

  /** The store key of a package. */
  function Reference(package: string): string {
    PathJoin([NAMESPACE, package])
  }

  /** The store key of an image found in a package. */
  function ImageKey(image: string): Option<string> {
    var r :- Parse(image);
    Some(Name(r))
  }

  /** The address the reader fetches a package from. */
  function Locate(host: string, package: string): string {
    var ref := PathJoin([host, NAMESPACE, package]);
    var r := Parse(ref);
    if r.Some? then Name(r.value) else ref
  }

  // ---------- Closed forms ----------

  /** A path with more than one segment whose first segment contains a '.': a parse of it on its
      own takes that segment for a registry. */
  predicate Dotted(path: string) {
    var i := Index(path, '/');
    i >= 0 && !Lacks(path[..i], '.')
  }

  predicate Dotless(r: Ref) { !Dotted(RepoStr(r.repo)) }

  lemma SecondParse(path: string, registry: string)
    requires Lacks(path, ':') && Lacks(path, '@')
    ensures var rp := NewRepository(path, registry);
            ParseReference(path, registry) ==
            if rp.Some? then Some(Ref(rp.value, Tag, LATEST)) else None
  {
  }

  lemma KindIsKept(r: Ref)
    requires Canonical(r)
    ensures NewDigest(Name(r), HUB).Some? <==> r.kind.Digest?
  {
    PrintedPathIsSimple(r.repo);
    NameOfKind(r.repo.registry, RepoStr(r.repo), r.kind, r.id);
    assert Name(r) == r.repo.registry + ['/'] + RepoStr(r.repo) + [Mark(r.kind)] + r.id;
  }

  lemma NameOfKind(host: string, path: string, kind: Kind, id: string)
    requires CanonicalRegistry(host) && IdOk(kind, id) && Lacks(path, '@') && Lacks(path, ':')
    requires kind.Digest? ==> RepoStr(Repo(host, path)) == path && RepoOk(path)
    ensures NewDigest(host + ['/'] + path + [Mark(kind)] + id, HUB).Some? <==> kind.Digest?
  {
    var base := host + ['/'] + path;
    if kind.Digest? {
      ParseDigested(host, path, id);
    } else {
      HostsHaveNoSlashOrAt(host);
      IdsAreSimple(kind, id);
      NoAtIn(host, '/', path);
      NoAtIn(base, ':', id);
    }
  }

  /** A relocation is one repository parse of the printed path under the target. */
  lemma RelocateParsed(s: string, target: string)
    requires Parse(s).Some?
    ensures var r := Parse(s).value;
            var rp := NewRepository(RepoStr(r.repo), target);
            Relocate(s, target) == if rp.Some? then Some(Name(Ref(rp.value, r.kind, r.id))) else None
  {
    ParseIsCanonical(s);
    var r := Parse(s).value;
    PrintedPathIsSimple(r.repo);
    SecondParse(RepoStr(r.repo), target);
    KindIsKept(r);
  }

  predicate RepoChars(path: string) { forall i | 0 <= i < |path| :: RepoChar(path[i]) }

  lemma SegmentsAreHosts(path: string)
    requires RepoChars(path)
    ensures Lacks(path, '/') ==> ValidHost(path)
    ensures Lacks(path, ':')
  {
    forall i | 0 <= i < |path|
      ensures path[i] != '/' ==> HostChar(path[i]) && path[i] != '['
      ensures path[i] != ':'
    {
      assert RepoChar(path[i]);
    }
  }

  /** The first segment and the rest of a dotted path. */
  function FirstSegment(path: string): string { CutRegistry(path).0 }

  function Rest(path: string): string { CutRegistry(path).1 }

  /** Where a path lands: a dotless one under the target, a dotted one under its own first
      segment. */
  lemma NewRepositoryOfPath(path: string, target: string)
    requires RepoChars(path)
    ensures !Dotted(path) ==>
              NewRepository(path, target) == if RepoOk(path) then Some(Repo(Normal(target), path)) else None
    ensures Dotted(path) ==>
              && FirstSegment(path) != ""
              && path == FirstSegment(path) + ['/'] + Rest(path)
              && SelfDelimiting(FirstSegment(path))
              && NewRepository(path, target) ==
                 (if RepoOk(Rest(path)) then Some(Repo(Normal(FirstSegment(path)), Rest(path))) else None)
  {
    SegmentsAreHosts(path);
    HubIsCanonical();
    CutRegistryParts(path);
    var i := Index(path, '/');
    if i >= 0 {
      SegmentsAreHosts(path[..i]);
    }
  }

  lemma NormalIsCanonical(host: string)
    requires SelfDelimiting(host)
    ensures CanonicalRegistry(Normal(host))
  {
    HubIsCanonical();
  }

  lemma DottedRestFits(path: string)
    requires Dotted(path) && RepoOk(path) && RepoOk(Rest(path))
    ensures Fits(Repo(Normal(FirstSegment(path)), Rest(path)))
  {
    NewRepositoryOfPath(path, HUB);
    var host := FirstSegment(path);
    assert |path| == |host| + 1 + |Rest(path)|;
    assert |LIBRARY| == 7 && |HUB_ALIAS| == 9 && |HUB| == 15;
  }

  lemma DottedPathsAreWhole(r: Repo)
    requires Dotted(RepoStr(r))
    ensures RepoStr(r) == r.path
  {
    if RepoStr(r) != r.path {
      LibraryIsDotless(r.path);
    }
  }

  lemma LibraryIsDotless(path: string)
    ensures !Dotted(LIBRARY + ['/'] + path)
  {
    assert Lacks(LIBRARY, '/');
    assert Lacks(LIBRARY, '.');
    IndexOfSeparator(LIBRARY, '/', path);
  }

  /** The repository a parsed reference lands in. */
  function Landing(r: Ref, target: string): Option<Repo> { NewRepository(RepoStr(r.repo), target) }

  lemma LandingShape(s: string, target: string)
    requires Parse(s).Some? && SelfDelimiting(target)
    ensures var r := Parse(s).value; var rp := Landing(r, target);
            && (rp.Some? ==> CanonicalRegistry(rp.value.registry) && RepoOk(rp.value.path))
            && (Dotless(r) ==> rp == if RepoOk(RepoStr(r.repo))
                                     then Some(Repo(Normal(target), RepoStr(r.repo))) else None)
            && (!Dotless(r) && rp.Some? ==>
                  && Fits(rp.value)
                  && rp.value == Repo(Normal(FirstSegment(RepoStr(r.repo))), Rest(RepoStr(r.repo)))
                  && |rp.value.path| < |RepoStr(r.repo)|)
  {
    ParseIsCanonical(s);
    var r := Parse(s).value;
    var path := RepoStr(r.repo);
    PrintedPathIsSimple(r.repo);
    NewRepositoryOfPath(path, target);
    NormalIsCanonical(target);
    if Dotted(path) {
      DottedPathsAreWhole(r.repo);
      NormalIsCanonical(FirstSegment(path));
      if RepoOk(Rest(path)) {
        DottedRestFits(path);
      }
    }
  }

  /** A reference that parses relocates exactly when what is left of its path still is one: the
      printed path of a dotless reference, the path behind the first segment of a dotted one. */
  lemma RelocatesExactly(s: string, target: string)
    requires Parse(s).Some? && SelfDelimiting(target)
    ensures var r := Parse(s).value;
            Relocate(s, target).Some? <==> if Dotless(r) then Fits(r.repo) else |Rest(r.repo.path)| >= 2
  {
    var r := Parse(s).value;
    ParseIsCanonical(s);
    RelocateParsed(s, target);
    LandingShape(s, target);
    PrintedPathIsSimple(r.repo);
    if !Dotless(r) {
      DottedPathsAreWhole(r.repo);
      NewRepositoryOfPath(r.repo.path, target);
      RestIsAPath(r.repo.path);
    }
  }

  // ---------- Normal forms and relocation ----------

  /** The key `Contents` stores an image under relocates exactly as the image itself: to the
      same target, or both not at all. */
  lemma KeyRelocatesAlike(s: string, target: string)
    requires Parse(s).Some?
    ensures Relocate(Name(Parse(s).value), target) == Relocate(s, target)
  {
    ParseIsCanonical(s);
    var r := Parse(s).value;
    NormalForm(s);
    RelocateParsed(s, target);
    if Fits(r.repo) {
      RelocateParsed(Name(r), target);
    } else {
      PrintedPathIsSimple(r.repo);
      LibraryIsDotless(r.repo.path);
      NewRepositoryOfPath(RepoStr(r.repo), target);
    }
  }

  // ---------- Landing ----------

  /** Exact landing condition. Whatever the input, a parse of the result has the kind and the
      identifier of the original; it has the target registry and the whole path exactly when
      the original is dotless. */
  lemma LandsExactlyWhenDotless(s: string, target: string)
    requires SelfDelimiting(target) && Normal(target) != HUB
    requires Relocate(s, target).Some?
    ensures Parse(s).Some?
    ensures var r := Parse(s).value; var out := Parse(Relocate(s, target).value);
            && out.Some?
            && out.value.kind == r.kind && out.value.id == r.id
            && (Dotless(r) <==> out.value.repo == Repo(target, RepoStr(r.repo)))
    ensures var r := Parse(s).value;
            Dotless(r) <==> Relocate(s, target).value == Name(Ref(Repo(target, RepoStr(r.repo)), r.kind, r.id))
  {
    var r := Parse(s).value;
    ParseIsCanonical(s);
    RelocateParsed(s, target);
    LandingShape(s, target);
    var rp := Landing(r, target).value;
    var moved := Ref(rp, r.kind, r.id);
    ParsePrinted(moved);
    if Dotless(r) {
      assert RepoStr(rp) == rp.path;
    } else {
      DottedPathsAreWhole(r.repo);
      var kept := Ref(Repo(target, RepoStr(r.repo)), r.kind, r.id);
      ParsePrinted(kept);
      DottedMoves(rp, Repo(target, r.repo.path));
    }
  }

  lemma DottedMoves(rp: Repo, kept: Repo)
    requires |rp.path| < |kept.path| && kept.registry != HUB
    ensures Repo(rp.registry, RepoStr(rp)) != kept
  {
  }

  // ---------- Collisions ----------

  /** Exact collision condition: two dotless references relocate to one string exactly when
      their paths, kinds and identifiers agree. Only the source registry is forgotten. */
  lemma CollideExactlyWhenPathsAgree(s1: string, s2: string, target: string)
    requires SelfDelimiting(target) && Normal(target) != HUB
    requires Relocate(s1, target).Some? && Relocate(s2, target).Some?
    requires Dotless(Parse(s1).value) && Dotless(Parse(s2).value)
    ensures var r1, r2 := Parse(s1).value, Parse(s2).value;
            Relocate(s1, target) == Relocate(s2, target) <==>
            RepoStr(r1.repo) == RepoStr(r2.repo) && r1.kind == r2.kind && r1.id == r2.id
  {
    LandsExactlyWhenDotless(s1, target);
    LandsExactlyWhenDotless(s2, target);
  }

  // ---------- The webhook's second parse ----------

  lemma RewriteParsed(s: string, target: string)
    requires SelfDelimiting(target) && Parse(s).Some?
    ensures var r := Parse(s).value; var rp := Landing(r, target);
            Rewrite(s, target) ==
            if rp.Some? && Fits(rp.value) then Some(Name(Ref(rp.value, r.kind, r.id))) else None
  {
    var r := Parse(s).value;
    ParseIsCanonical(s);
    RelocateParsed(s, target);
    LandingShape(s, target);
    if Landing(r, target).Some? {
      var moved := Ref(Landing(r, target).value, r.kind, r.id);
      ParsePrinted(moved);
      PrintedIsExplicit(moved.repo);
    }
  }

  /** The one family the webhook refuses although the copy accepts it: a one-segment path moved
      to Docker Hub, where `library/` pushes it past the length bound. */
  predicate Overflows(r: Ref, target: string) {
    && Normal(target) == HUB
    && Lacks(RepoStr(r.repo), '/')
    && |LIBRARY| + 1 + |RepoStr(r.repo)| > MAX_REPOSITORY
  }

  /** The webhook asks for the very reference the copy wrote, exactly outside that family. */
  lemma RewriteIsRelocate(s: string, target: string)
    requires SelfDelimiting(target) && Relocate(s, target).Some?
    ensures Parse(s).Some?
    ensures Rewrite(s, target) == Relocate(s, target) <==> !Overflows(Parse(s).value, target)
    ensures Overflows(Parse(s).value, target) ==> Rewrite(s, target).None?
  {
    var r := Parse(s).value;
    RelocateParsed(s, target);
    RewriteParsed(s, target);
    LandingShape(s, target);
    assert |LIBRARY| == 7;
    if Lacks(RepoStr(r.repo), '/') {
      assert Index(RepoStr(r.repo), '/') == -1;
    }
  }

  /** Every long one-segment image of another registry is in that family. */
  lemma LongImagesOverflow(host: string, path: string)
    requires CanonicalRegistry(host) && host != HUB
    requires RepoOk(path) && Lacks(path, '/') && |path| >= 248
    ensures Relocate(host + ['/'] + path, HUB).Some? && Rewrite(host + ['/'] + path, HUB).None?
  {
    var image := host + ['/'] + path;
    HubIsCanonical();
    NewTagOfPrinted(host, path);
    assert Index(path, '/') == -1;
    RelocateParsed(image, HUB);
    LandingShape(image, HUB);
    assert |LIBRARY| == 7;
    RewriteIsRelocate(image, HUB);
  }

  /** The family is not empty. */
  lemma OverflowHappens()
    ensures exists image :: Relocate(image, HUB).Some? && Rewrite(image, HUB).None?
  {
    var path := seq(250, _ => 'a');
    DottedHostExample();
    assert |HUB| == 15;
    LongImagesOverflow("a.b", path);
  }

  lemma DottedHostExample()
    ensures CanonicalRegistry("a.b")
  {
    var host := "a.b";
    assert host[1] == '.';
    assert LastIndex(host, ':') == -1 by { assert Lacks(host, ':'); }
    assert |HUB_ALIAS| == 9;
  }

  /** A dotted image leaves the target behind at its first parse, so the second changes nothing. */
  lemma DottedIsRewrittenAlike(s: string, target: string)
    requires Relocate(s, target).Some? && !Dotless(Parse(s).value)
    ensures Rewrite(s, target) == Relocate(s, target)
  {
    var r := Parse(s).value;
    var path := RepoStr(r.repo);
    ParseIsCanonical(s);
    PrintedPathIsSimple(r.repo);
    RelocateParsed(s, target);
    NewRepositoryOfPath(path, target);
    NormalIsCanonical(FirstSegment(path));
    DottedPathsAreWhole(r.repo);
    DottedRestFits(path);
    var moved := Ref(Repo(Normal(FirstSegment(path)), Rest(path)), r.kind, r.id);
    ParsePrinted(moved);
    PrintedIsExplicit(moved.repo);
  }

  /** A target is read back from what was relocated to it only when it is self-delimiting. */
  lemma UndelimitedIsNotReadBack(s: string, target: string)
    requires Lacks(target, '/') && !SelfDelimiting(Normal(target))
    requires Relocate(s, target).Some? && Dotless(Parse(s).value)
    ensures Rewrite(s, target) != Relocate(s, target)
  {
    var r := Parse(s).value;
    ParseIsCanonical(s);
    PrintedPathIsSimple(r.repo);
    RelocateParsed(s, target);
    NewRepositoryOfPath(RepoStr(r.repo), target);
    HubIsCanonical();
    var relocated := Relocate(s, target).value;
    if Rewrite(s, target) == Relocate(s, target) {
      ParseIsCanonical(relocated);
      RegistryOfName(Ref(Repo(Normal(target), RepoStr(r.repo)), r.kind, r.id), Parse(relocated).value);
      assert false;
    }
  }

  /** Exactly when the webhook asks for the very reference the copy wrote, for any target, Docker
      Hub and targets that delimit nothing included: always for a dotted image, and for a dotless
      one when the target is self-delimiting and the image is not in the family refused above. */
  lemma RewriteAgreesExactly(s: string, target: string)
    requires Lacks(target, '/') && Relocate(s, target).Some?
    ensures Parse(s).Some?
    ensures Rewrite(s, target) == Relocate(s, target) <==>
              !Dotless(Parse(s).value) || (SelfDelimiting(Normal(target)) && !Overflows(Parse(s).value, target))
  {
    if !Dotless(Parse(s).value) {
      DottedIsRewrittenAlike(s, target);
    } else if !SelfDelimiting(Normal(target)) {
      UndelimitedIsNotReadBack(s, target);
    } else {
      NormalTarget(s, target);
      NormalTwice(target);
      RewriteIsRelocate(s, Normal(target));
    }
  }

  lemma NormalTwice(host: string)
    ensures Normal(Normal(host)) == Normal(host)
  {
    assert |HUB| == 15 && |HUB_ALIAS| == 9;
  }

  lemma NormalFallback(path: string, target: string)
    ensures NewRepository(path, Normal(target)) == NewRepository(path, target)
  {
    NormalTwice(target);
  }

  /** A target and the registry it stands for relocate alike. */
  lemma NormalTarget(s: string, target: string)
    requires Parse(s).Some?
    ensures Relocate(s, Normal(target)) == Relocate(s, target)
  {
    RelocateParsed(s, target);
    RelocateParsed(s, Normal(target));
    NormalFallback(RepoStr(Parse(s).value.repo), target);
  }

  lemma NamePrefix(r: Ref)
    requires Lacks(r.repo.registry, '/')
    ensures Name(r)[..|r.repo.registry|] == r.repo.registry
    ensures Index(Name(r), '/') == |r.repo.registry|
  {
    var host, rest := r.repo.registry, RepoStr(r.repo) + [Mark(r.kind)] + r.id;
    IndexOfSeparator(host, '/', rest);
    assert Name(r) == host + ['/'] + rest;
  }

  /** The registry can be read off a printed name. */
  lemma RegistryOfName(a: Ref, b: Ref)
    requires Name(a) == Name(b)
    requires Lacks(a.repo.registry, '/') && SelfDelimiting(b.repo.registry)
    ensures a.repo.registry == b.repo.registry
  {
    HostsHaveNoSlashOrAt(b.repo.registry);
    NamePrefix(a);
    NamePrefix(b);
  }

  // ---------- Rewriting twice ----------

  /** The printed path of a dotted image after its first rewriting. */
  function LandedPath(path: string): string {
    RepoStr(Repo(Normal(FirstSegment(path)), Rest(path)))
  }

  /** When a second rewriting changes nothing. */
  predicate Stable(path: string, target: string) {
    !Dotted(path) ||
    if Dotted(LandedPath(path)) then |Rest(LandedPath(path))| < 2
    else Normal(FirstSegment(path)) == Normal(target) || !Fits(Repo(Normal(target), LandedPath(path)))
  }

  /** Rewriting a rewritten image again yields the same reference, or is refused and leaves it
      as it is, exactly for the stable paths; every dotless path is stable. */
  lemma RewriteTwice(s: string, target: string)
    requires SelfDelimiting(target) && Rewrite(s, target).Some?
    ensures Parse(s).Some?
    ensures var out := Rewrite(s, target).value;
            (Rewrite(out, target).None? || Rewrite(out, target) == Some(out)) <==>
            Stable(RepoStr(Parse(s).value.repo), target)
    ensures Dotless(Parse(s).value) ==> Rewrite(Rewrite(s, target).value, target) == Rewrite(s, target)
  {
    var r := Parse(s).value;
    var path := RepoStr(r.repo);
    ParseIsCanonical(s);
    RewriteParsed(s, target);
    LandingShape(s, target);
    var rp := Landing(r, target).value;
    var out := Name(Ref(rp, r.kind, r.id));
    ParsePrinted(Ref(rp, r.kind, r.id));
    PrintedIsExplicit(rp);
    var landed := RepoStr(rp);
    RewriteParsed(out, target);
    LandingShape(out, target);
    PrintedPathIsSimple(rp);
    if !Dotted(path) {
      LandedIsDotless(rp);
    } else if Dotted(landed) {
      DottedAgain(out, target, landed);
    } else {
      RelocatedElsewhere(Ref(Repo(Normal(target), landed), r.kind, r.id), Ref(rp, r.kind, r.id), target);
      PrintedIsExplicit(rp);
    }
  }

  lemma LandedIsDotless(rp: Repo)
    requires !Dotted(rp.path)
    ensures !Dotted(RepoStr(rp))
  {
    LibraryIsDotless(rp.path);
  }

  lemma RelocatedElsewhere(again: Ref, once: Ref, target: string)
    requires SelfDelimiting(target) && again.repo.registry == Normal(target)
    requires CanonicalRegistry(once.repo.registry)
    ensures Name(again) == Name(once) ==> Normal(target) == once.repo.registry
  {
    NormalIsCanonical(target);
    HostsHaveNoSlashOrAt(Normal(target));
    if Name(again) == Name(once) {
      RegistryOfName(again, once);
    }
  }

  lemma SuffixIsAPath(path: string, n: nat)
    requires RepoOk(path) && n <= |path|
    ensures RepoOk(path[n..]) <==> |path[n..]| >= 2
  {
    assert forall i | 0 <= i < |path[n..]| :: path[n..][i] == path[n + i];
  }

  lemma RestIsAPath(path: string)
    requires RepoOk(path)
    ensures RepoOk(Rest(path)) <==> |Rest(path)| >= 2
  {
    SuffixIsAPath(path, Index(path, '/') + 1);
  }

  /** A dotted path that is still dotted after landing moves again, unless it is refused. */
  lemma DottedAgain(out: string, target: string, landed: string)
    requires SelfDelimiting(target) && Parse(out).Some? && Name(Parse(out).value) == out
    requires landed == RepoStr(Parse(out).value.repo) && Dotted(landed) && RepoOk(landed)
    ensures if |Rest(landed)| < 2 then Rewrite(out, target).None?
            else Rewrite(out, target).Some? && Rewrite(out, target) != Some(out)
  {
    var r := Parse(out).value;
    ParseIsCanonical(out);
    RewriteParsed(out, target);
    LandingShape(out, target);
    NewRepositoryOfPath(landed, target);
    RestIsAPath(landed);
    if RepoOk(Rest(landed)) {
      var rp := Landing(r, target).value;
      var moved := Ref(rp, r.kind, r.id);
      ParsePrinted(moved);
      ParsePrinted(r);
      if RepoStr(rp) == landed {
        LibraryIsDotless(rp.path);
        assert false;
      }
    }
  }

  // ---------- Writer and reader ----------

  lemma NamespaceIsPlain()
    ensures Plain(NAMESPACE) && Lacks(NAMESPACE, '/') && !Delimits(NAMESPACE) && |NAMESPACE| == 4
    ensures Lacks(NAMESPACE, '@') && Lacks(NAMESPACE, ':')
  {
    assert NAMESPACE[0] == 'k';
    assert NAMESPACE == ['k', 'e', 'v', 'i'];
  }

  lemma ReferenceUnderNamespace(name: string)
    requires CleanName(name)
    ensures Reference(name) == NAMESPACE + ['/'] + name
  {
    NamespaceIsPlain();
    JoinUnder(NAMESPACE, name);
  }

  /** A text whose first '/' comes before any '.', ':' and '@': a parse of it on its own finds no
      registry in it, and no tag or digest before that '/'. */
  predicate Undelimited(s: string) {
    var i := Index(s, '/');
    i >= 0 && forall k | 0 <= k < i :: s[k] != '.' && s[k] != ':' && s[k] != '@'
  }

  lemma UndelimitedIsWhole(s: string)
    requires Undelimited(s)
    ensures CutRegistry(s) == ("", s) && !Dotted(s)
  {
    var i := Index(s, '/');
    assert Lacks(s[..i], '.') && Lacks(s[..i], ':');
  }

  lemma FrontIsUndelimited(s: string, front: string)
    requires front <= s && Index(s, '/') >= 0 && |front| > Index(s, '/')
    ensures Index(front, '/') == Index(s, '/')
    ensures Undelimited(s) ==> Undelimited(front)
  {
    var i := Index(s, '/');
    assert forall k | 0 <= k <= i :: front[k] == s[k];
    IndexIs(front, '/', i);
  }

  lemma NewRepositoryUndelimited(base: string, fallback: string)
    requires Undelimited(base)
    ensures NewRepository(base, fallback) == if RepoOk(base) then Some(Repo(Normal(fallback), base)) else None
    ensures RepoStr(Repo(Normal(fallback), base)) == base
  {
    HubIsCanonical();
    UndelimitedIsWhole(base);
  }

  /** A tag stands behind the first '/'. */
  lemma TagIsBehind(s: string)
    requires Index(s, '/') >= 0
    ensures CutTag(s).0 <= s && |CutTag(s).0| > Index(s, '/')
  {
    var i, j := Index(s, '/'), LastIndex(s, ':');
    if j >= 0 && j < i {
      assert s[j + 1..][i - j - 1] == '/';
    }
  }

  lemma CutTagUndelimited(s: string)
    requires Undelimited(s)
    ensures Undelimited(CutTag(s).0)
  {
    TagIsBehind(s);
    FrontIsUndelimited(s, CutTag(s).0);
  }

  /** Prefixing a host moves the tag of a text along unchanged. */
  lemma CutTagUnderHost(host: string, s: string)
    ensures CutTag(host + ['/'] + s) == (host + ['/'] + CutTag(s).0, CutTag(s).1)
  {
    var i := LastIndex(s, ':');
    if i == -1 {
      CutTagUntagged(host, s);
    } else {
      LastIndexShift(host + ['/'], s, ':', host + ['/'] + s);
      ShiftSlices(host + ['/'], s, i);
    }
  }

  lemma HostIsNotEmpty(host: string)
    requires Delimits(host)
    ensures host != ""
  {
  }

  /** A repository in a host. */
  lemma RepositoryInHost(host: string, base: string)
    requires SelfDelimiting(host)
    ensures NewRepository(host + ['/'] + base, HUB) == if RepoOk(base) then Some(Repo(Normal(host), base)) else None
  {
    HostsHaveNoSlashOrAt(host);
    CutRegistryPrinted(host, base);
    HostIsNotEmpty(host);
  }

  /** A tag reference, from the parse of its repository. */
  lemma TagFrom(s: string, base: string, tag: string, repo: Option<Repo>)
    requires CutTag(s) == (base, tag) && NewRepository(base, HUB) == repo
    ensures NewTag(s, HUB) ==
            if repo.None? || (tag != "" && !TagOk(tag)) then None
            else Some(Ref(repo.value, Tag, if tag == "" then LATEST else tag))
  {
  }

  /** In a host, a tag reference has the whole of its repository for a path. */
  lemma TagInHost(host: string, s: string, base: string, tag: string)
    requires SelfDelimiting(host) && CutTag(s) == (base, tag)
    ensures NewTag(host + ['/'] + s, HUB) ==
            if !RepoOk(base) || (tag != "" && !TagOk(tag)) then None
            else Some(Ref(Repo(Normal(host), base), Tag, if tag == "" then LATEST else tag))
  {
    CutTagUnderHost(host, s);
    RepositoryInHost(host, base);
    TagFrom(host + ['/'] + s, host + ['/'] + base, tag, NewRepository(host + ['/'] + base, HUB));
  }

  lemma NewTagUnderHost(host: string, s: string)
    requires SelfDelimiting(host) && Undelimited(s)
    ensures var t := NewTag(s, HUB);
            NewTag(host + ['/'] + s, HUB) ==
            if t.Some? then Some(t.value.(repo := Repo(Normal(host), t.value.repo.path))) else None
    ensures var t := NewTag(s, HUB);
            t.Some? ==> Undelimited(t.value.repo.path) && t.value.repo.registry == HUB
  {
    var (base, tag) := CutTag(s);
    CutTagUndelimited(s);
    HubIsCanonical();
    NewRepositoryUndelimited(base, HUB);
    TagFrom(s, base, tag, NewRepository(base, HUB));
    TagInHost(host, s, base, tag);
  }

  lemma NewDigestAt(s: string, i: nat)
    requires Index(s, '@') == i
    ensures var repo := DigestBase(s[..i], HUB);
            NewDigest(s, HUB) ==
            if DigestOk(s[i + 1..]) && repo.Some? then Some(Ref(repo.value, Digest, s[i + 1..])) else None
  {
  }

  /** `moved` is the undelimited reference `r` with its registry changed. */
  predicate MovedTo(r: Option<Ref>, moved: Option<Ref>, registry: string) {
    if r.None? then moved.None?
    else && Undelimited(r.value.repo.path) && r.value.repo.registry == HUB
         && moved == Some(Ref(Repo(registry, r.value.repo.path), r.value.kind, r.value.id))
  }

  lemma NewDigestMoves(s: string, i: nat, whole: string, j: nat, registry: string)
    requires Index(s, '@') == i && Index(whole, '@') == j && whole[j + 1..] == s[i + 1..]
    requires BaseMoves(s[..i], whole[..j], registry)
    ensures MovedTo(NewDigest(s, HUB), NewDigest(whole, HUB), registry)
  {
    NewDigestAt(s, i);
    NewDigestAt(whole, j);
  }

  predicate BaseMoves(base: string, moved: string, registry: string) {
    var d := DigestBase(base, HUB);
    && DigestBase(moved, HUB) == (if d.Some? then Some(Repo(registry, d.value.path)) else None)
    && (d.Some? ==> Undelimited(d.value.path) && d.value.registry == HUB)
  }

  lemma DigestMovesAt(host: string, s: string, i: nat, whole: string, j: nat)
    requires Index(s, '@') == i && Index(whole, '@') == j && whole[j + 1..] == s[i + 1..]
    requires SelfDelimiting(host) && Undelimited(s[..i]) && whole[..j] == host + ['/'] + s[..i]
    ensures MovedTo(NewDigest(s, HUB), NewDigest(whole, HUB), Normal(host))
  {
    DigestBaseUnderHost(host, s[..i], whole[..j]);
    NewDigestMoves(s, i, whole, j, Normal(host));
  }

  lemma NewDigestUnderHost(host: string, s: string, whole: string)
    requires SelfDelimiting(host) && Undelimited(s) && whole == host + ['/'] + s
    ensures MovedTo(NewDigest(s, HUB), NewDigest(whole, HUB), Normal(host))
  {
    var i := Index(s, '@');
    if i >= 0 {
      var j := |host| + 1 + i;
      IndexUnderHost(host, s, whole, i);
      BaseUndelimited(s, i);
      DigestMovesAt(host, s, i, whole, j);
    } else {
      NoDigestUnderHost(host, s);
    }
  }

  lemma NoDigestUnderHost(host: string, s: string)
    requires ValidHost(host) && Lacks(s, '@')
    ensures NewDigest(s, HUB).None? && NewDigest(host + ['/'] + s, HUB).None?
  {
    HostsHaveNoSlashOrAt(host);
    NoAtIn(host, '/', s);
  }

  lemma DigestBaseUnderHost(host: string, base: string, whole: string)
    requires SelfDelimiting(host) && Undelimited(base) && whole == host + ['/'] + base
    ensures BaseMoves(base, whole, Normal(host))
  {
    NewTagUnderHost(host, base);
    var t := NewTag(base, HUB);
    if t.Some? {
      DigestBaseOfTag(host, base, whole, t.value.repo.path);
    } else {
      FailedTagIsNoRepository(base, HUB);
      FailedTagIsNoRepository(whole, HUB);
    }
  }

  lemma DigestBaseOfTag(host: string, base: string, whole: string, path: string)
    requires SelfDelimiting(host) && Undelimited(path)
    requires NewTag(base, HUB).Some? && NewTag(base, HUB).value.repo == Repo(HUB, path)
    requires NewTag(whole, HUB).Some? && NewTag(whole, HUB).value.repo == Repo(Normal(host), path)
    ensures BaseMoves(base, whole, Normal(host))
  {
    NewRepositoryUndelimited(path, host);
    NewRepositoryUndelimited(path, HUB);
    NormalIsCanonical(host);
    HubIsCanonical();
    NewRepositoryOfPrinted(Normal(host), path, HUB);
    NewRepositoryOfPrinted(HUB, path, HUB);
  }

  lemma IndexUnderHost(host: string, s: string, whole: string, i: nat)
    requires ValidHost(host) && whole == host + ['/'] + s && Index(s, '@') == i
    ensures var j := |host| + 1 + i;
            Index(whole, '@') == j && whole[..j] == host + ['/'] + s[..i] && whole[j + 1..] == s[i + 1..]
  {
    HostsHaveNoSlashOrAt(host);
    var p := host + ['/'];
    assert Lacks(p, '@');
    IndexShift(p, s, '@', whole);
    ShiftSlices(p, s, i);
  }

  lemma BaseUndelimited(s: string, i: nat)
    requires Undelimited(s) && i < |s| && s[i] == '@'
    ensures Undelimited(s[..i])
  {
    assert i > Index(s, '/');
    FrontIsUndelimited(s, s[..i]);
  }

  /** Reading such a reference under a host changes its registry and nothing else. */
  lemma ParseUnderHost(host: string, s: string)
    requires SelfDelimiting(host) && Undelimited(s) && Parse(s).Some?
    ensures var r := Parse(s).value;
            && Undelimited(r.repo.path) && r.repo.registry == HUB
            && Parse(host + ['/'] + s) == Some(r.(repo := Repo(Normal(host), r.repo.path)))
  {
    NewTagUnderHost(host, s);
    NewDigestUnderHost(host, s, host + ['/'] + s);
  }

  lemma RelocateUndelimited(s: string, host: string)
    requires Undelimited(s) && SelfDelimiting(host) && Parse(s).Some?
    ensures Relocate(s, host) == Some(Name(Parse(s).value.(repo := Repo(Normal(host), Parse(s).value.repo.path))))
  {
    var r := Parse(s).value;
    ParseUnderHost(host, s);
    ParseIsCanonical(s);
    RelocateParsed(s, host);
    NewRepositoryUndelimited(r.repo.path, HUB);
    NewRepositoryUndelimited(r.repo.path, host);
    HubIsCanonical();
  }

  /** Where the reader looks, for a name that does not climb above the parent of the namespace. */
  lemma LocateInHost(host: string, name: string)
    requires host != "" && Lacks(host, '/') && Contained(NAMESPACE, name)
    ensures var key := Reference(name); var ref := if host == "." then key else host + ['/'] + key;
            Locate(host, name) == if Parse(ref).Some? then Name(Parse(ref).value) else ref
  {
    NamespaceIsPlain();
    JoinInHost(host, NAMESPACE, name);
  }

  /** For an undelimited key, writer and reader agree unless the host is ".", which the joining of the
      reader's path drops. */
  lemma UndelimitedNamesAreFound(name: string, host: string)
    requires Contained(NAMESPACE, name) && Undelimited(Reference(name)) && SelfDelimiting(host)
    requires Relocate(Reference(name), host).Some?
    ensures Relocate(Reference(name), host) == Some(Locate(host, name)) <==> host != "."
  {
    var s := Reference(name);
    ParseUnderHost(host, s);
    RelocateUndelimited(s, host);
    HostsHaveNoSlashOrAt(host);
    HostIsNotEmpty(host);
    LocateInHost(host, name);
    if host == "." {
      var r := Parse(s).value;
      HubIsCanonical();
      ParseIsCanonical(s);
      RelocatedElsewhere(r.(repo := Repo(Normal(host), r.repo.path)), r, host);
      DotIsNotHub();
    }
  }

  lemma DotIsNotHub()
    ensures Normal(".") == "." && "." != HUB
  {
    assert |HUB| == 15 && |HUB_ALIAS| == 9;
  }

  /** A text that begins with the namespace and a '/'. */
  predicate UnderNamespace(s: string) {
    |s| > |NAMESPACE| && s[..|NAMESPACE|] == NAMESPACE && s[|NAMESPACE|] == '/'
  }

  lemma UnderNamespaceIsUndelimited(s: string)
    requires UnderNamespace(s)
    ensures Undelimited(s) && Index(s, '/') == |NAMESPACE|
  {
    NamespaceIsPlain();
    assert forall k | 0 <= k < |NAMESPACE| :: s[k] == s[..|NAMESPACE|][k];
    assert forall k | 0 <= k < |NAMESPACE| :: NAMESPACE[k] != '.' by {
      assert Lacks(NAMESPACE, '.');
    }
    IndexIs(s, '/', |NAMESPACE|);
  }

  /** Names that cleaning leaves something of and keeps in the namespace have such keys. */
  lemma InsideNamesAreUndelimited(name: string)
    requires Inside(name) && Cleaned(name) != []
    ensures Contained(NAMESPACE, name) && UnderNamespace(Reference(name)) && Undelimited(Reference(name))
  {
    NamespaceIsPlain();
    InsideIsContained(NAMESPACE, name);
    JoinTidy(NAMESPACE, name);
    Glue(NAMESPACE, '/', Tidy(name));
    UnderNamespaceIsUndelimited(Reference(name));
  }

  lemma CleanNamesAreFound(name: string, host: string)
    requires CleanName(name) && SelfDelimiting(host)
    requires Relocate(Reference(name), host).Some?
    ensures Relocate(Reference(name), host) == Some(Locate(host, name)) <==> host != "."
  {
    CleanNamesAreTidy(name);
    InsideNamesAreUndelimited(name);
    UndelimitedNamesAreFound(name, host);
  }

  // ---------- The operator's image ----------

  const CONTROLLER := "kevi/kevi-controller"

  /** Where installing writes the operator's image. */
  function InstallReference(host: string, digest: string): Option<string> {
    var repo :- NewRepository(CONTROLLER, host);
    Some(Name(Ref(repo, Digest, digest)))
  }

  lemma ControllerIsUnderNamespace()
    ensures UnderNamespace(CONTROLLER) && Undelimited(CONTROLLER)
    ensures RepoOk(CONTROLLER) && Lacks(CONTROLLER, ':') && Lacks(CONTROLLER, '@')
  {
    assert |CONTROLLER| == 20;
    assert CONTROLLER[..4] == NAMESPACE;
    UnderNamespaceIsUndelimited(CONTROLLER);
    assert RepoOk(CONTROLLER);
    PathsAreSimple(CONTROLLER);
  }

  /** It always has a place, under the target. */
  function ControllerAt(host: string, digest: string): string {
    Normal(host) + ['/'] + (CONTROLLER + ['@'] + digest)
  }

  lemma ControllerHasAPlace(host: string, digest: string)
    ensures InstallReference(host, digest) == Some(ControllerAt(host, digest))
  {
    ControllerIsUnderNamespace();
    NewRepositoryUndelimited(CONTROLLER, host);
    NameOfDigest(Normal(host), CONTROLLER, digest);
  }

  lemma NameOfDigest(host: string, path: string, digest: string)
    requires RepoStr(Repo(host, path)) == path
    ensures Name(Ref(Repo(host, path), Digest, digest)) == host + ['/'] + (path + ['@'] + digest)
  {
  }

  /** The path of an undelimited reference is the text up to its tag or digest. */
  lemma PathIsPrefix(s: string)
    requires Undelimited(s) && Parse(s).Some?
    ensures Undelimited(Parse(s).value.repo.path) && Parse(s).value.repo.path <= s
  {
    HubIsCanonical();
    if NewTag(s, HUB).Some? {
      TagPathIsPrefix(s);
    } else {
      var i := Index(s, '@');
      BaseUndelimited(s, i);
      TagPathIsPrefix(s[..i]);
      DigestPathIsPrefix(s[..i]);
      assert s[..i] <= s;
    }
  }

  lemma TagPathIsPrefix(s: string)
    requires Undelimited(s)
    ensures var t := NewTag(s, HUB);
            t.Some? ==> Undelimited(t.value.repo.path) && t.value.repo.registry == HUB && t.value.repo.path <= s
  {
    CutTagParts(s);
    CutTagUndelimited(s);
    NewRepositoryUndelimited(CutTag(s).0, HUB);
    HubIsCanonical();
  }

  lemma DigestPathIsPrefix(base: string)
    requires Undelimited(base) && DigestBase(base, HUB).Some?
    ensures Undelimited(DigestBase(base, HUB).value.path) && DigestBase(base, HUB).value.path <= base
  {
    TagPathIsPrefix(base);
    var t := NewTag(base, HUB);
    if t.Some? {
      HubIsCanonical();
      NewRepositoryUndelimited(t.value.repo.path, HUB);
      NewRepositoryOfPrinted(HUB, t.value.repo.path, HUB);
    } else {
      NewRepositoryUndelimited(base, HUB);
    }
  }

  /** A text that goes on as the operator's image does was one to begin with. */
  lemma ControllerIsReserved(name: string, path: string, mark: char, id: string, digest: string)
    requires path <= NAMESPACE + ['/'] + name && (mark == ':' || mark == '@')
    requires path + [mark] + id == CONTROLLER + ['@'] + digest
    ensures CONFIG_PREFIX <= name
  {
    ControllerIsUnderNamespace();
    var text := CONTROLLER + ['@'] + digest;
    assert |CONTROLLER| == 20 && |CONFIG_PREFIX| == 5 && |NAMESPACE| == 4;
    var k := if |path| < 20 then |path| else 0;
    assert text[k] == CONTROLLER[k] && (path + [mark] + id)[|path|] == mark;
    assert |path| >= 20;
    assert path[5..10] == text[5..10] == CONTROLLER[5..10] == CONFIG_PREFIX;
    assert (NAMESPACE + ['/'] + name)[5..10] == name[..5];
  }

  /** Installing never writes where a package is read, when its name is clean and does not begin as
      the operator's image does. */
  lemma InstallingSparesPackages(name: string, host: string, digest: string)
    requires CleanName(name) && !(CONFIG_PREFIX <= name) && SelfDelimiting(host) && host != "."
    requires Relocate(Reference(name), host).Some?
    ensures ControllerAt(host, digest) != Locate(host, name)
  {
    var s := NAMESPACE + ['/'] + name;
    CleanNamesAreFound(name, host);
    ReferenceUnderNamespace(name);
    CleanNamesAreTidy(name);
    InsideNamesAreUndelimited(name);
    ParseUnderHost(host, s);
    RelocateUndelimited(s, host);
    PathIsPrefix(s);
    var r := Parse(s).value;
    NewRepositoryUndelimited(r.repo.path, host);
    if ControllerAt(host, digest) == Locate(host, name) {
      SameAfterHost(Normal(host), r, digest);
      ControllerIsReserved(name, r.repo.path, Mark(r.kind), r.id, digest);
    }
  }

  lemma SameAfterHost(host: string, r: Ref, digest: string)
    requires RepoStr(Repo(host, r.repo.path)) == r.repo.path
    requires Name(Ref(Repo(host, r.repo.path), r.kind, r.id)) == host + ['/'] + (CONTROLLER + ['@'] + digest)
    ensures r.repo.path + [Mark(r.kind)] + r.id == CONTROLLER + ['@'] + digest
  {
    var rest := r.repo.path + [Mark(r.kind)] + r.id;
    assert Name(Ref(Repo(host, r.repo.path), r.kind, r.id)) == host + ['/'] + rest;
    Glue(host, '/', rest);
    Glue(host, '/', CONTROLLER + ['@'] + digest);
  }

  // ---------- Keys in a store ----------

  /** The key of some image. */
  ghost predicate IsImageKey(r: string) { exists image :: ImageKey(image) == Some(r) }

  predicate PrintsAsItself(r: string) { Parse(r).Some? && Name(Parse(r).value) == r }

  const HUB_LIBRARY := HUB + ['/'] + LIBRARY + ['/']

  /** A printed name of Docker Hub that is too long to be parsed again. */
  predicate OverlongHubName(r: string) {
    && HUB_LIBRARY <= r
    && var (path, tag) := CutTag(r[|HUB_LIBRARY|..]);
       && RepoOk(path) && Lacks(path, '/') && |LIBRARY| + 1 + |path| > MAX_REPOSITORY
       && r == HUB_LIBRARY + path + [':'] + tag && TagOk(tag)
  }

  lemma OverlongName(path: string, tag: string)
    requires RepoOk(path) && Lacks(path, '/') && TagOk(tag)
    ensures Name(Ref(Repo(HUB, path), Tag, tag)) == HUB_LIBRARY + path + [':'] + tag
    ensures ImageKey(HUB + ['/'] + path + [':'] + tag) == Some(HUB_LIBRARY + path + [':'] + tag)
  {
    HubIsCanonical();
    PathsAreSimple(path);
    ParseTagged(HUB, path, tag);
    UnderLibrary(path);
  }

  lemma UnderLibrary(path: string)
    ensures HUB_LIBRARY + path == HUB + ['/'] + (LIBRARY + ['/'] + path)
  {
  }

  lemma OverlongIsOverlong(r: string, path: string, tag: string)
    requires r == HUB_LIBRARY + path + [':'] + tag
    requires RepoOk(path) && Lacks(path, '/') && TagOk(tag) && |LIBRARY| + 1 + |path| > MAX_REPOSITORY
    ensures OverlongHubName(r)
  {
    assert r[|HUB_LIBRARY|..] == path + [':'] + tag;
    CutTagPrinted(path, tag);
  }

  lemma KeysPrintOrOverflow(image: string, r: string)
    requires ImageKey(image) == Some(r)
    ensures PrintsAsItself(r) || OverlongHubName(r)
  {
    var ref := Parse(image).value;
    ParseIsCanonical(image);
    NormalForm(image);
    if !Fits(ref.repo) {
      OverlongName(ref.repo.path, ref.id);
      assert |LIBRARY| == 7;
      OverlongIsOverlong(r, ref.repo.path, ref.id);
    }
  }

  lemma OverlongIsAKey(r: string, path: string, tag: string)
    requires r == HUB_LIBRARY + path + [':'] + tag && RepoOk(path) && Lacks(path, '/') && TagOk(tag)
    ensures IsImageKey(r)
  {
    OverlongName(path, tag);
    KeyOf(HUB + ['/'] + path + [':'] + tag, r);
  }

  lemma KeyOf(image: string, r: string)
    requires ImageKey(image) == Some(r)
    ensures IsImageKey(r)
  {
  }

  /** Exactly which texts are keys of images: those that print as themselves, and the overlong
      names of Docker Hub, which do not parse. */
  lemma ImageKeysExactly(r: string)
    ensures IsImageKey(r) <==> PrintsAsItself(r) || OverlongHubName(r)
  {
    if PrintsAsItself(r) {
      KeyOf(r, r);
    } else if OverlongHubName(r) {
      var (path, tag) := CutTag(r[|HUB_LIBRARY|..]);
      OverlongIsAKey(r, path, tag);
    } else if image :| ImageKey(image) == Some(r) {
      KeysPrintOrOverflow(image, r);
    }
  }

  /** A package name that is stored under the namespace. */
  predicate StoredInNamespace(name: string) {
    var segs := Cleaned(NAMESPACE + ['/'] + name);
    segs != [] && segs[0] == NAMESPACE
  }

  lemma InsideNamesAreStoredInNamespace(name: string)
    requires Inside(name)
    ensures StoredInNamespace(name)
  {
    NamespaceIsPlain();
    CleanedOfDir(NAMESPACE, name);
  }

  lemma CleanNamesAreStoredInNamespace(name: string)
    requires CleanName(name)
    ensures StoredInNamespace(name)
  {
    CleanNamesAreTidy(name);
    InsideNamesAreStoredInNamespace(name);
  }

  lemma InNamespaceStartsWithIt(name: string)
    requires StoredInNamespace(name)
    ensures Reference(name) == NAMESPACE || UnderNamespace(Reference(name))
  {
    NamespaceIsPlain();
    PathJoinOfTwo(NAMESPACE, name);
    var segs := Cleaned(NAMESPACE + ['/'] + name);
    if |segs| > 1 {
      Glue(NAMESPACE, '/', Join(segs[1..]));
    }
  }

  /** The key of an image begins with its registry. */
  lemma ImageKeysAreDelimited(image: string)
    requires ImageKey(image).Some?
    ensures Index(ImageKey(image).value, '/') >= 0 && !Undelimited(ImageKey(image).value)
  {
    ParseIsCanonical(image);
    var r := Parse(image).value;
    var host := r.repo.registry;
    HostsHaveNoSlashOrAt(host);
    NamePrefix(r);
    var k :| 0 <= k < |host| && (host[k] == '.' || host[k] == ':');
    assert Name(r)[k] == Name(r)[..|host|][k];
  }

  /** The key of an image is never that of a package stored under the namespace, as every package
      with a clean name is: the one begins with a registry, the other does not. */
  lemma ImageKeysAreNotPackageKeys(image: string, name: string)
    requires ImageKey(image).Some? && StoredInNamespace(name)
    ensures ImageKey(image).value != Reference(name)
  {
    ImageKeysAreDelimited(image);
    InNamespaceStartsWithIt(name);
    NamespaceIsPlain();
    if UnderNamespace(Reference(name)) {
      UnderNamespaceIsUndelimited(Reference(name));
    } else {
      assert Index(NAMESPACE, '/') == -1;
    }
  }

  /** Exactly which package names are stored under the key of an image: those that climb out of the
      namespace to a text that prints as itself, or to an overlong name of Docker Hub. */
  lemma NamesReachingImageKeys(name: string)
    ensures IsImageKey(Reference(name)) <==>
              !StoredInNamespace(name) && (PrintsAsItself(Reference(name)) || OverlongHubName(Reference(name)))
  {
    ImageKeysExactly(Reference(name));
    if image :| ImageKey(image) == Some(Reference(name)) {
      if StoredInNamespace(name) {
        ImageKeysAreNotPackageKeys(image, name);
        assert false;
      }
    }
  }

  lemma CleanOfSegments(s: string, segs: seq<string>)
    requires s != "" && s[0] != '/' && Split(s) == segs
    ensures var body := Join(CleanSegments(segs, false, []));
            Clean(s) == if body == "" then "." else body
  {
  }

  lemma SplitOfThree(a: string, b: string, rest: string)
    requires Lacks(a, '/') && Lacks(b, '/')
    ensures Split(a + ['/'] + (b + ['/'] + rest)) == [a] + ([b] + Split(rest))
  {
    SplitUnder(b, rest);
    SplitUnder(a, b + ['/'] + rest);
  }

  /** Every clean key of an image is reached, behind "..". */
  lemma UncleanNamesReachImageKeys(image: string)
    requires ImageKey(image).Some? && CleanName(ImageKey(image).value)
    ensures Reference(".." + ['/'] + ImageKey(image).value) == ImageKey(image).value
  {
    UncleanNamesReach(ImageKey(image).value);
  }

  lemma UncleanNamesReach(key: string)
    requires CleanName(key)
    ensures Reference(".." + ['/'] + key) == key
  {
    var name := ".." + ['/'] + key;
    var path := NAMESPACE + ['/'] + name;
    NamespaceIsPlain();
    NonEmptyOfTwo(NAMESPACE, name);
    SplitOfThree(NAMESPACE, "..", key);
    CleanStepsUp(NAMESPACE, Split(key));
    JoinSplit(key);
    JoinIsNotEmpty(Split(key));
    CleanOfSegments(path, [NAMESPACE] + ([".."] + Split(key)));
  }

  lemma CleanStepsUp(dir: string, rest: seq<string>)
    requires Plain(dir) && AllPlain(rest)
    ensures CleanSegments([dir] + ([".."] + rest), false, []) == rest
  {
    var up := [".."] + rest;
    assert ([dir] + up)[1..] == up && up[1..] == rest;
    assert [] + [dir] == [dir] && [dir][..0] == [];
    assert CleanSegments([dir] + up, false, []) == CleanSegments(up, false, [dir]);
    assert CleanSegments(up, false, [dir]) == CleanSegments(rest, false, []);
    CleanKeepsPlain(rest, false, []);
    assert [] + rest == rest;
  }
}
