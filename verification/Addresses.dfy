/** Where the copy writes a package and where the reader looks for it, for every name that does not
    climb above the parent of the namespace. */
module Addresses {
  import opened Strs
  import opened Names
  import opened Paths
  import opened Relocation

  // ---------- Keys of one segment ----------

  lemma SingleRepository(base: string)
    requires Lacks(base, '/')
    ensures NewRepository(base, HUB) == if RepoOk(base) then Some(Repo(HUB, base)) else None
  {
    HubIsCanonical();
    assert Index(base, '/') == -1;
  }

  lemma SingleTag(host: string, s: string)
    requires SelfDelimiting(host) && Lacks(s, '/')
    ensures var t := NewTag(s, HUB);
            && (t.Some? ==> t.value.repo.registry == HUB && Lacks(t.value.repo.path, '/') && RepoOk(t.value.repo.path))
            && NewTag(host + ['/'] + s, HUB) ==
               if t.Some? then Some(t.value.(repo := Repo(Normal(host), t.value.repo.path))) else None
  {
    var (base, tag) := CutTag(s);
    CutTagParts(s);
    FrontLacks(s, base);
    SingleRepository(base);
    TagFrom(s, base, tag, NewRepository(base, HUB));
    TagInHost(host, s, base, tag);
  }

  lemma FrontLacks(s: string, front: string)
    requires front <= s && Lacks(s, '/')
    ensures Lacks(front, '/')
  {
    assert forall k | 0 <= k < |front| :: front[k] == s[k];
  }

  lemma SingleDigestBase(host: string, base: string)
    requires SelfDelimiting(host) && Lacks(base, '/')
    ensures var t, d := NewTag(base, HUB), DigestBase(base, HUB);
            var moved := DigestBase(host + ['/'] + base, HUB);
            if t.None? then d.None? && moved.None?
            else && d == (if RepoOk(RepoStr(t.value.repo))
                       then Some(Repo(HUB, RepoStr(t.value.repo))) else None)
                 && var m := RepoStr(Repo(Normal(host), t.value.repo.path));
                    moved == if RepoOk(m) then Some(Repo(Normal(host), m)) else None
  {
    SingleTag(host, base);
    var t := NewTag(base, HUB);
    if t.None? {
      FailedTagIsNoRepository(base, HUB);
      FailedTagIsNoRepository(host + ['/'] + base, HUB);
    } else {
      HubIsCanonical();
      NormalIsCanonical(host);
      NewRepositoryOfPrinted(HUB, RepoStr(t.value.repo), HUB);
      NewRepositoryOfPrinted(Normal(host), RepoStr(Repo(Normal(host), t.value.repo.path)), HUB);
    }
  }

  /** `x` is the one segment a reference names; `r` is what it parses as on its own, and `l` in a
      host. */
  predicate SingleIn(x: string, r: Ref, l: Ref, host: string) {
    && Lacks(x, '/') && RepoOk(x)
    && r.repo.registry == HUB && RepoStr(r.repo) == LIBRARY + ['/'] + x
    && l.repo.registry == Normal(host) && RepoStr(l.repo) == RepoStr(Repo(Normal(host), x))
    && l.kind == r.kind && l.id == r.id
  }

  lemma SingleTagParse(host: string, s: string) returns (x: string)
    requires SelfDelimiting(host) && Lacks(s, '/') && NewTag(s, HUB).Some?
    ensures Parse(s).Some? && Parse(host + ['/'] + s).Some?
    ensures SingleIn(x, Parse(s).value, Parse(host + ['/'] + s).value, host)
  {
    SingleTag(host, s);
    x := NewTag(s, HUB).value.repo.path;
  }

  /** A digest reference, from the parse of its base. */
  predicate DigestIs(d: Option<Ref>, base: Option<Repo>, id: string) {
    d == if DigestOk(id) && base.Some? then Some(Ref(base.value, Digest, id)) else None
  }

  lemma DigestFrom(s: string, i: nat, front: string, id: string)
    requires Index(s, '@') == i && s[..i] == front && s[i + 1..] == id
    ensures DigestIs(NewDigest(s, HUB), DigestBase(front, HUB), id)
  {
  }

  /** In a host, from the parse of its base in the host. */
  lemma DigestInHost(host: string, s: string, i: nat)
    requires SelfDelimiting(host) && Index(s, '@') == i
    ensures DigestIs(NewDigest(s, HUB), DigestBase(s[..i], HUB), s[i + 1..])
    ensures DigestIs(NewDigest(host + ['/'] + s, HUB), DigestBase(host + ['/'] + s[..i], HUB), s[i + 1..])
  {
    var whole := host + ['/'] + s;
    IndexUnderHost(host, s, whole, i);
    DigestFrom(s, i, s[..i], s[i + 1..]);
    DigestFrom(whole, |host| + 1 + i, host + ['/'] + s[..i], s[i + 1..]);
  }

  lemma SingleDigestRepos(host: string, x: string)
    requires Lacks(x, '/') && RepoOk(x)
    ensures RepoStr(Repo(HUB, RepoStr(Repo(HUB, x)))) == LIBRARY + ['/'] + x
    ensures RepoStr(Repo(Normal(host), RepoStr(Repo(Normal(host), x)))) == RepoStr(Repo(Normal(host), x))
    ensures RepoOk(RepoStr(Repo(HUB, x))) ==> RepoOk(RepoStr(Repo(Normal(host), x)))
  {
    PrintedIsExplicit(Repo(HUB, x));
    PrintedIsExplicit(Repo(Normal(host), x));
  }

  lemma SingleDigestParse(host: string, s: string) returns (x: string)
    requires SelfDelimiting(host) && Lacks(s, '/') && NewTag(s, HUB).None? && NewDigest(s, HUB).Some?
    ensures Parse(s).Some? && Parse(host + ['/'] + s).Some?
    ensures SingleIn(x, Parse(s).value, Parse(host + ['/'] + s).value, host)
  {
    var i := Index(s, '@');
    SingleTag(host, s);
    FrontLacks(s, s[..i]);
    SingleTag(host, s[..i]);
    SingleDigestBase(host, s[..i]);
    DigestInHost(host, s, i);
    x := SingleDigestAt(host, s, i);
  }

  lemma SingleDigestAt(host: string, s: string, i: nat) returns (x: string)
    requires Index(s, '@') == i
    requires var t := NewTag(s[..i], HUB);
             && t.Some? && t.value.repo.registry == HUB && Lacks(t.value.repo.path, '/') && RepoOk(t.value.repo.path)
             && var p := t.value.repo.path; var n := RepoStr(Repo(HUB, p)); var m := RepoStr(Repo(Normal(host), p));
                && RepoOk(n) && DigestOk(s[i + 1..])
                && Parse(s) == Some(Ref(Repo(HUB, n), Digest, s[i + 1..]))
                && Parse(host + ['/'] + s) ==
                   if RepoOk(m) then Some(Ref(Repo(Normal(host), m), Digest, s[i + 1..])) else None
    ensures Parse(s).Some? && Parse(host + ['/'] + s).Some?
    ensures SingleIn(x, Parse(s).value, Parse(host + ['/'] + s).value, host)
  {
    x := NewTag(s[..i], HUB).value.repo.path;
    SingleDigestRepos(host, x);
  }

  /** A key of one segment gets `library/` from the copy and not from the reader: they agree on Docker
      Hub alone. */
  lemma SingleNamesAreLost(name: string, host: string)
    requires Contained(NAMESPACE, name) && Lacks(Reference(name), '/') && SelfDelimiting(host)
    requires Relocate(Reference(name), host).Some?
    ensures Relocate(Reference(name), host) == Some(Locate(host, name)) <==> Normal(host) == HUB
  {
    var s := Reference(name);
    var x;
    if NewTag(s, HUB).Some? { x := SingleTagParse(host, s); } else { x := SingleDigestParse(host, s); }
    var r, l := Parse(s).value, Parse(host + ['/'] + s).value;
    HostsHaveNoSlashOrAt(host);
    HostIsNotEmpty(host);
    LocateInHost(host, name);
    SingleRelocates(s, r, x, host);
    var m := Ref(Repo(Normal(host), LIBRARY + ['/'] + x), r.kind, r.id);
    if host == "." {
      DotIsNotHub();
      NormalIsCanonical(host);
      HubIsCanonical();
      RelocatedElsewhere(m, r, host);
    } else {
      SingleNames(x, l, m, Normal(host));
    }
  }

  lemma SingleRelocates(s: string, r: Ref, x: string, host: string)
    requires SelfDelimiting(host) && Parse(s) == Some(r) && RepoStr(r.repo) == LIBRARY + ['/'] + x
    requires Relocate(s, host).Some?
    ensures Relocate(s, host) == Some(Name(Ref(Repo(Normal(host), LIBRARY + ['/'] + x), r.kind, r.id)))
  {
    RelocateParsed(s, host);
    LandingShape(s, host);
    LibraryIsDotless(x);
  }

  lemma LengthOfName(r: Ref)
    ensures |Name(r)| == |r.repo.registry| + |RepoStr(r.repo)| + |r.id| + 2
  {
  }

  lemma SingleNames(x: string, l: Ref, m: Ref, registry: string)
    requires Lacks(x, '/') && l.kind == m.kind && l.id == m.id && l.repo.registry == registry
    requires RepoStr(l.repo) == RepoStr(Repo(registry, x)) && m.repo == Repo(registry, LIBRARY + ['/'] + x)
    ensures Name(m) == Name(l) <==> registry == HUB
  {
    PrintedIsExplicit(Repo(HUB, x));
    Glue(LIBRARY, '/', x);
    LengthOfName(l);
    LengthOfName(m);
  }

  // ---------- Keys that name a registry ----------

  /** The first segment of a text. */
  function Lead(s: string): string
    requires Index(s, '/') >= 0
  {
    s[..Index(s, '/')]
  }

  /** `rest` is the path behind the registry that a key begins with, `r` what the key parses as on its
      own, and `whole` the two of them together. */
  predicate ExplicitIn(s: string, whole: string, rest: string, r: Ref)
    requires Index(s, '/') >= 0
  {
    && Delimits(Lead(s)) && Lacks(Lead(s), '/') && ValidHost(Lead(s))
    && whole == Lead(s) + ['/'] + rest && RepoOk(rest)
    && r.repo.registry == Normal(Lead(s)) && RepoStr(r.repo) == RepoStr(Repo(Normal(Lead(s)), rest))
  }

  /** What such a key parses as in a host: the whole of it is the path, when it is one. */
  predicate InHost(whole: string, r: Ref, host: string, l: Option<Ref>) {
    l == if RepoOk(whole) then Some(Ref(Repo(Normal(host), whole), r.kind, r.id)) else None
  }

  lemma LeadOfFront(s: string, front: string)
    requires front <= s && Index(s, '/') >= 0 && |front| > Index(s, '/')
    ensures Index(front, '/') == Index(s, '/') && Lead(front) == Lead(s)
    ensures front == Lead(s) + ['/'] + front[Index(s, '/') + 1..]
  {
    FrontIsUndelimited(s, front);
    Cut(front, Index(s, '/'));
  }

  lemma ExplicitRepository(base: string, fallback: string)
    requires Index(base, '/') >= 0 && !Undelimited(base) && NewRepository(base, fallback).Some?
    ensures var rest := base[Index(base, '/') + 1..];
            && Delimits(Lead(base)) && ValidHost(Lead(base)) && RepoOk(rest)
            && NewRepository(base, fallback) == Some(Repo(Normal(Lead(base)), rest))
  {
    var i := Index(base, '/');
    if !Delimits(Lead(base)) {
      var k :| 0 <= k < i && (base[k] == '.' || base[k] == ':' || base[k] == '@');
      assert Lead(base)[k] == base[k];
      PathsAreSimple(base);
    }
  }

  lemma ExplicitWhole(s: string, whole: string, tag: string) returns (rest: string)
    requires Index(s, '/') >= 0 && !Undelimited(s) && whole <= s && |whole| > Index(s, '/')
    requires NewRepository(whole, HUB).Some?
    ensures ExplicitIn(s, whole, rest, Ref(NewRepository(whole, HUB).value, Tag, tag))
  {
    LeadOfFront(s, whole);
    rest := whole[Index(s, '/') + 1..];
    StaysDelimited(s, whole);
    ExplicitRepository(whole, HUB);
  }

  lemma ExplicitTag(host: string, s: string) returns (whole: string, rest: string)
    requires SelfDelimiting(host) && Index(s, '/') >= 0 && !Undelimited(s) && NewTag(s, HUB).Some?
    ensures whole <= s && ExplicitIn(s, whole, rest, NewTag(s, HUB).value)
    ensures InHost(whole, NewTag(s, HUB).value, host, NewTag(host + ['/'] + s, HUB))
  {
    var tag := CutTag(s).1;
    whole := CutTag(s).0;
    TagIsBehind(s);
    TagFrom(s, whole, tag, NewRepository(whole, HUB));
    rest := ExplicitWhole(s, whole, if tag == "" then LATEST else tag);
    TagInHost(host, s, whole, tag);
  }

  lemma StaysDelimited(s: string, front: string)
    requires front <= s && Index(s, '/') >= 0 && |front| > Index(s, '/') && !Undelimited(s)
    ensures !Undelimited(front)
  {
    FrontIsUndelimited(s, front);
    var k :| 0 <= k < Index(s, '/') && (s[k] == '.' || s[k] == ':' || s[k] == '@');
    assert front[k] == s[k];
  }

  lemma WholeIsWhole(s: string, whole: string, rest: string, r: Ref, host: string)
    requires Index(s, '/') >= 0 && ExplicitIn(s, whole, rest, r)
    ensures RepoStr(Repo(Normal(host), whole)) == whole
  {
    Glue(Lead(s), '/', rest);
  }

  lemma ExplicitDigestBase(host: string, base: string) returns (whole: string, rest: string)
    requires SelfDelimiting(host) && Index(base, '/') >= 0 && !Undelimited(base) && DigestBase(base, HUB).Some?
    ensures whole <= base && ExplicitIn(base, whole, rest, Ref(DigestBase(base, HUB).value, Digest, ""))
    ensures DigestBase(host + ['/'] + base, HUB) == if RepoOk(whole) then Some(Repo(Normal(host), whole)) else None
  {
    if NewTag(base, HUB).None? {
      FailedTagIsNoRepository(base, HUB);
      assert false;
    }
    whole, rest := ExplicitTag(host, base);
    var r := NewTag(base, HUB).value;
    WholeIsWhole(base, whole, rest, r, host);
    NormalIsCanonical(Lead(base));
    NormalIsCanonical(host);
    NewRepositoryOfPrinted(r.repo.registry, RepoStr(r.repo), HUB);
    PrintedIsExplicit(r.repo);
    NewRepositoryOfPrinted(Normal(host), whole, HUB);
    if !RepoOk(whole) {
      FailedTagIsNoRepository(host + ['/'] + base, HUB);
    }
  }

  lemma AtIsBehind(s: string, i: nat, j: nat)
    requires Index(s, '/') == i && Index(s, '@') == j && DigestOk(s[j + 1..])
    ensures j > i
  {
    IdsAreSimple(Digest, s[j + 1..]);
    if j < i {
      SlashBehind(s, j, i);
    }
  }

  lemma SlashBehind(s: string, j: nat, i: nat)
    requires j < i < |s| && s[i] == '/'
    ensures !Lacks(s[j + 1..], '/')
  {
    assert s[j + 1..][i - j - 1] == '/';
  }

  lemma ExplicitDigestAt(host: string, s: string, i: nat) returns (whole: string, rest: string)
    requires SelfDelimiting(host) && Index(s, '/') >= 0 && !Undelimited(s) && Index(s, '@') == i
    requires DigestOk(s[i + 1..]) && DigestBase(s[..i], HUB).Some?
    ensures ExplicitIn(s, whole, rest, Ref(DigestBase(s[..i], HUB).value, Digest, s[i + 1..]))
    ensures DigestBase(host + ['/'] + s[..i], HUB) == if RepoOk(whole) then Some(Repo(Normal(host), whole)) else None
  {
    AtIsBehind(s, Index(s, '/'), i);
    LeadOfFront(s, s[..i]);
    StaysDelimited(s, s[..i]);
    whole, rest := ExplicitDigestBase(host, s[..i]);
  }

  lemma ExplicitDigest(host: string, s: string) returns (whole: string, rest: string)
    requires SelfDelimiting(host) && Index(s, '/') >= 0 && !Undelimited(s) && NewDigest(s, HUB).Some?
    ensures ExplicitIn(s, whole, rest, NewDigest(s, HUB).value)
    ensures InHost(whole, NewDigest(s, HUB).value, host, NewDigest(host + ['/'] + s, HUB))
  {
    var i := Index(s, '@');
    DigestInHost(host, s, i);
    whole, rest := ExplicitDigestAt(host, s, i);
  }

  lemma ExplicitParse(host: string, s: string) returns (whole: string, rest: string)
    requires SelfDelimiting(host) && Index(s, '/') >= 0 && !Undelimited(s) && Parse(s).Some?
    ensures ExplicitIn(s, whole, rest, Parse(s).value)
    ensures InHost(whole, Parse(s).value, host, Parse(host + ['/'] + s))
  {
    var all := host + ['/'] + s;
    HostsHaveNoSlashOrAt(host);
    if NewTag(s, HUB).Some? {
      whole, rest := ExplicitTag(host, s);
      TagsHaveNoAt(s, HUB);
      NoDigestUnderHost(host, s);
    } else {
      whole, rest := ExplicitDigest(host, s);
      if NewTag(all, HUB).Some? {
        TagsHaveNoAt(all, HUB);
        IndexUnderHost(host, s, all, Index(s, '@'));
      }
    }
  }

  /** A path that is short, or that begins with `library/`. */
  predicate ShortOrLibrary(path: string, n: nat) { LIBRARY + ['/'] <= path || |path| <= n }

  /** Whatever becomes of such a key's path, it does not get its registry back. */
  lemma LandsShort(s: string, whole: string, rest: string, target: string)
    requires SelfDelimiting(target) && Index(s, '/') >= 0
    requires Parse(s).Some? && ExplicitIn(s, whole, rest, Parse(s).value)
    requires Landing(Parse(s).value, target).Some?
    ensures ShortOrLibrary(RepoStr(Landing(Parse(s).value, target).value), |rest|)
  {
    LandingShape(s, target);
    var r := Parse(s).value;
    if !Dotless(r) {
      DottedPathsAreWhole(r.repo);
      LibraryIsDotless(rest);
    }
  }

  lemma LibraryIsNoLead(t: string)
    requires LIBRARY + ['/'] <= t
    ensures Index(t, '/') >= 0 && Lead(t) == LIBRARY && !Delimits(Lead(t)) && Undelimited(t)
  {
    assert Lacks(LIBRARY, '/') && Lacks(LIBRARY, '.') && Lacks(LIBRARY, ':') && Lacks(LIBRARY, '@');
    assert forall k | 0 <= k <= 7 :: t[k] == (LIBRARY + ['/'])[k];
    IndexIs(t, '/', 7);
  }

  lemma TailOfName(a: Ref, b: Ref)
    requires a.repo.registry == b.repo.registry && a.kind == b.kind && a.id == b.id && Name(a) == Name(b)
    ensures RepoStr(a.repo) == RepoStr(b.repo)
  {
    LengthOfName(a);
    LengthOfName(b);
    Glue(a.repo.registry, '/', RepoStr(a.repo));
    Glue(b.repo.registry, '/', RepoStr(b.repo));
    assert Name(a)[..|RepoName(a.repo)|] == RepoName(a.repo);
    assert Name(b)[..|RepoName(b.repo)|] == RepoName(b.repo);
  }

  /** The reader's whole path is not the copy's. */
  lemma WholeIsNotShort(s: string, whole: string, rest: string, r: Ref, l: Ref, m: Ref)
    requires Index(s, '/') >= 0 && ExplicitIn(s, whole, rest, r) && RepoStr(l.repo) == whole
    requires ShortOrLibrary(RepoStr(m.repo), |rest|) && l.kind == m.kind && l.id == m.id
    requires CanonicalRegistry(l.repo.registry) && CanonicalRegistry(m.repo.registry)
    ensures Name(m) != Name(l)
  {
    if Name(m) == Name(l) {
      HostsHaveNoSlashOrAt(l.repo.registry);
      HostsHaveNoSlashOrAt(m.repo.registry);
      RegistryOfName(m, l);
      TailOfName(m, l);
      IndexOfSeparator(Lead(s), '/', rest);
      if LIBRARY + ['/'] <= whole {
        LibraryIsNoLead(whole);
      }
    }
  }

  lemma OverlongIsInLibrary(m: Ref)
    requires RepoOk(m.repo.path) && !Fits(m.repo)
    ensures Name(m) == HUB + ['/'] + (LIBRARY + ['/'] + (m.repo.path + [Mark(m.kind)] + m.id))
  {
  }

  lemma SameBehindHost(a: string, x: string, b: string, y: string)
    requires a + ['/'] + x == b + ['/'] + y && Lacks(a, '/') && Lacks(b, '/')
    ensures x == y
  {
    IndexOfSeparator(a, '/', x);
    IndexOfSeparator(b, '/', y);
  }

  /** Nor is the reader's text, when it does not parse. */
  lemma TextIsNotAName(s: string, m: Ref, host: string)
    requires Index(s, '/') >= 0 && !Undelimited(s) && Parse(host + ['/'] + s).None? && Lacks(host, '/')
    requires CanonicalRegistry(m.repo.registry) && RepoOk(m.repo.path) && IdOk(m.kind, m.id)
    ensures Name(m) != host + ['/'] + s
  {
    if Fits(m.repo) {
      ParsePrinted(m);
    } else {
      var tail := LIBRARY + ['/'] + (m.repo.path + [Mark(m.kind)] + m.id);
      OverlongIsInLibrary(m);
      HubHasNoSlash();
      LibraryIsNoLead(tail);
      if Name(m) == host + ['/'] + s {
        SameBehindHost(HUB, tail, host, s);
      }
    }
  }

  lemma HubHasNoSlash()
    ensures Lacks(HUB, '/')
  {
    HubIsCanonical();
    HostsHaveNoSlashOrAt(HUB);
  }

  /** And when the host goes, the registry is the key's own. */
  lemma DotIsNotKept(s: string, whole: string, rest: string)
    requires Index(s, '/') >= 0 && Parse(s).Some? && ExplicitIn(s, whole, rest, Parse(s).value)
    requires Lead(s) != "." && Relocate(s, ".").Some?
    ensures Relocate(s, ".").value != Name(Parse(s).value)
  {
    var r := Parse(s).value;
    DotIsSelfDelimiting();
    DotIsNotHub();
    ParseIsCanonical(s);
    RelocateParsed(s, ".");
    LandingShape(s, ".");
    var m := Ref(Landing(r, ".").value, r.kind, r.id);
    if Name(m) == Name(r) {
      HostsHaveNoSlashOrAt(m.repo.registry);
      RegistryOfName(m, r);
      TailOfName(m, r);
      if Dotless(r) {
        NormalIsItself(Lead(s));
      } else {
        LibraryIsDotless(m.repo.path);
      }
    }
  }

  lemma NormalIsItself(host: string)
    requires Normal(host) == "."
    ensures host == "."
  {
    DotIsNotHub();
  }

  lemma DotIsSelfDelimiting()
    ensures SelfDelimiting(".")
  {
    assert "."[0] == '.';
    assert Lacks(".", ':');
  }

  lemma LeadIsPlain(name: string)
    requires Contained(NAMESPACE, name) && Index(Reference(name), '/') >= 0
    ensures Lead(Reference(name)) != "."
  {
    NamespaceIsPlain();
    PathJoinOfTwo(NAMESPACE, name);
    var segs := Cleaned(NAMESPACE + ['/'] + name);
    assert Plain(segs[0]);
    if |segs| > 1 {
      IndexOfSeparator(segs[0], '/', Join(segs[1..]));
    }
  }

  /** A key that names a registry is never read where it is written. */
  lemma RegistriesAreLost(name: string, host: string)
    requires Contained(NAMESPACE, name) && SelfDelimiting(host)
    requires Index(Reference(name), '/') >= 0 && !Undelimited(Reference(name))
    requires Relocate(Reference(name), host).Some?
    ensures Relocate(Reference(name), host) != Some(Locate(host, name))
  {
    var s := Reference(name);
    HostsHaveNoSlashOrAt(host);
    HostIsNotEmpty(host);
    LocateInHost(host, name);
    LeadIsPlain(name);
    var whole, rest := ExplicitParse(host, s);
    var r := Parse(s).value;
    if host == "." {
      DotIsNotKept(s, whole, rest);
    } else {
      ParseIsCanonical(s);
      RelocateParsed(s, host);
      LandingShape(s, host);
      LandsShort(s, whole, rest, host);
      var m := Ref(Landing(r, host).value, r.kind, r.id);
      if RepoOk(whole) {
        WholeIsWhole(s, whole, rest, r, host);
        NormalIsCanonical(host);
        WholeIsNotShort(s, whole, rest, r, Ref(Repo(Normal(host), whole), r.kind, r.id), m);
      } else {
        TextIsNotAName(s, m, host);
      }
    }
  }

  // ---------- Writer and reader ----------

  /** Writer and reader agree, exactly: for every package name that does not climb above the parent of
      the namespace, and every self-delimiting host, where the copy puts a package is where the reader
      looks for it if and only if its key has several segments and names no registry and the host is
      not ".", or its key has one segment and the target is Docker Hub. */
  lemma ReaderFindsWhatWriterWrote(name: string, host: string)
    requires Contained(NAMESPACE, name) && SelfDelimiting(host)
    requires Relocate(Reference(name), host).Some?
    ensures Relocate(Reference(name), host) == Some(Locate(host, name)) <==>
              if Lacks(Reference(name), '/') then Normal(host) == HUB
              else Undelimited(Reference(name)) && host != "."
  {
    if Lacks(Reference(name), '/') {
      SingleNamesAreLost(name, host);
    } else if Undelimited(Reference(name)) {
      UndelimitedNamesAreFound(name, host);
    } else {
      RegistriesAreLost(name, host);
    }
  }

  /** In particular every name that cleaning leaves something of and keeps in the namespace is found,
      for every host but ".". */
  lemma InsideNamesAreFound(name: string, host: string)
    requires Inside(name) && Cleaned(name) != [] && SelfDelimiting(host)
    requires Relocate(Reference(name), host).Some?
    ensures Relocate(Reference(name), host) == Some(Locate(host, name)) <==> host != "."
  {
    InsideNamesAreUndelimited(name);
    UndelimitedNamesAreFound(name, host);
  }

  /** And a name of which nothing is left, as of the empty one, on Docker Hub alone. */
  lemma EmptyNamesAreLost(name: string, host: string)
    requires Cleaned(name) == [] && SelfDelimiting(host)
    ensures Relocate(Reference(name), host) == Some(Locate(host, name)) <==> Normal(host) == HUB
  {
    NamespaceIsPlain();
    InsideIsContained(NAMESPACE, name);
    JoinTidy(NAMESPACE, name);
    NamespaceRelocates(host);
    SingleNamesAreLost(name, host);
  }

  lemma NamespaceRelocates(host: string)
    requires SelfDelimiting(host)
    ensures Relocate(NAMESPACE, host).Some?
  {
    NamespaceIsPlain();
    HubIsCanonical();
    assert Index(NAMESPACE, '/') == -1 && LastIndex(NAMESPACE, ':') == -1;
    assert RepoOk(NAMESPACE) by {
      assert NAMESPACE == ['k', 'e', 'v', 'i'];
    }
    assert Parse(NAMESPACE) == Some(Ref(Repo(HUB, NAMESPACE), Tag, LATEST));
    ParseIsCanonical(NAMESPACE);
    PrintedPathIsSimple(Repo(HUB, NAMESPACE));
    LibraryIsDotless(NAMESPACE);
    assert |LIBRARY| == 7;
    RelocatesExactly(NAMESPACE, host);
  }
}
