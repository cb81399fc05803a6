/** Image references: the parsing and printing rules assumed of the pinned
    go-containerregistry `name` package (go.mod:9). Strings are parsed under a default
    registry, printed in full, and, in kevi, parsed again under another default. */
module Names {
  import opened Strs

  const HUB := "index.docker.io"
  const HUB_ALIAS := "docker.io"
  const LIBRARY := "library"
  const LATEST := "latest"
  const MAX_REPOSITORY := 255

  // ---------- Character classes ----------

  predicate Lower(c: char) { 'a' <= c <= 'z' }

  predicate Upper(c: char) { 'A' <= c <= 'Z' }

  predicate Digit(c: char) { '0' <= c <= '9' }

  predicate RepoChar(c: char) {
    Lower(c) || Digit(c) || c == '_' || c == '-' || c == '.' || c == '/'
  }

  predicate TagChar(c: char) {
    Lower(c) || Upper(c) || Digit(c) || c == '_' || c == '-' || c == '.'
  }

  predicate DigestChar(c: char) {
    c == 's' || c == 'h' || c == ':' || Digit(c) || 'a' <= c <= 'f'
  }

  /** What may stand in the authority of section 3.2 of RFC 3986 without being rewritten. */
  predicate HostChar(c: char) {
    || Lower(c) || Upper(c) || Digit(c) || c as int >= 0x80
    || c == '-' || c == '_' || c == '.' || c == '~' || c == ':' || c == '[' || c == ']'
    || c == '!' || c == '$' || c == '&' || c == '\'' || c == '(' || c == ')' || c == '*'
    || c == '+' || c == ',' || c == ';' || c == '=' || c == '<' || c == '>' || c == '"'
  }

  predicate RepoOk(s: string) {
    2 <= |s| <= MAX_REPOSITORY && forall i | 0 <= i < |s| :: RepoChar(s[i])
  }

  predicate TagOk(s: string) {
    1 <= |s| <= 128 && forall i | 0 <= i < |s| :: TagChar(s[i])
  }

  predicate DigestOk(s: string) {
    |s| == 71 && forall i | 0 <= i < |s| :: DigestChar(s[i])
  }

  // An optional port, as the URL parser accepts it.
  predicate ValidPort(s: string) {
    s == "" || (s[0] == ':' && forall i | 1 <= i < |s| :: Digit(s[i]))
  }

  predicate ValidHost(s: string) {
    && (forall i | 0 <= i < |s| :: HostChar(s[i]))
    && if s != "" && s[0] == '['
       then var j := LastIndex(s, ']'); j >= 0 && ValidPort(s[j + 1..])
       else var i := LastIndex(s, ':'); i == -1 || ValidPort(s[i..])
  }

  /** A host that a later parse recognises as a registry whatever path follows it. */
  predicate Delimits(host: string) { !Lacks(host, '.') || !Lacks(host, ':') }

  predicate SelfDelimiting(host: string) { ValidHost(host) && Delimits(host) }

  // ---------- Parsed references ----------

  datatype Repo = Repo(registry: string, path: string)

  datatype Kind = Tag | Digest

  datatype Ref = Ref(repo: Repo, kind: Kind, id: string)

  /** Docker Hub prints a one-segment repository under `library/`. */
  function RepoStr(r: Repo): string {
    if r.registry == HUB && Lacks(r.path, '/') then LIBRARY + ['/'] + r.path else r.path
  }

  function RepoName(r: Repo): string { r.registry + ['/'] + RepoStr(r) }

  function Mark(k: Kind): char { if k.Tag? then ':' else '@' }

  function Name(r: Ref): string { RepoName(r.repo) + [Mark(r.kind)] + r.id }

  /** The registry a name stands for: the empty name and the alias mean Docker Hub. */
  function Normal(host: string): string {
    if host == "" || host == HUB_ALIAS then HUB else host
  }

  /** The explicit registry ("" when there is none) and the path of a repository name. */
  function CutRegistry(name: string): (string, string) {
    var i := Index(name, '/');
    if i >= 0 && Delimits(name[..i]) then (name[..i], name[i + 1..]) else ("", name)
  }

  /** The repository and the tag ("" when there is none) of a tag reference. */
  function CutTag(name: string): (string, string) {
    var i := LastIndex(name, ':');
    if i >= 0 && Lacks(name[i + 1..], '/') then (name[..i], name[i + 1..]) else (name, "")
  }

  function NewRegistry(name: string, fallback: string): Option<string> {
    if !ValidHost(name) then None else Some(Normal(if name == "" then fallback else name))
  }

  function NewRepository(name: string, fallback: string): Option<Repo> {
    var (host, path) := CutRegistry(name);
    if !RepoOk(path) then None
    else
      var registry :- NewRegistry(host, fallback);
      Some(Repo(registry, path))
  }

  function NewTag(name: string, fallback: string): Option<Ref> {
    var (base, tag) := CutTag(name);
    if tag != "" && !TagOk(tag) then None
    else
      var repo :- NewRepository(base, fallback);
      Some(Ref(repo, Tag, if tag == "" then LATEST else tag))
  }

  /** The repository a digest's base names: a tag in it is dropped, and what is left has been
      printed once. */
  function DigestBase(base: string, fallback: string): Option<Repo> {
    var tag := NewTag(base, fallback);
    NewRepository(if tag.Some? then RepoName(tag.value.repo) else base, fallback)
  }

  function NewDigest(name: string, fallback: string): Option<Ref> {
    var i := Index(name, '@');
    if i == -1 || !DigestOk(name[i + 1..]) then None
    else
      var repo :- DigestBase(name[..i], fallback);
      Some(Ref(repo, Digest, name[i + 1..]))
  }

  function ParseReference(s: string, fallback: string): Option<Ref> {
    var t := NewTag(s, fallback);
    if t.Some? then t else NewDigest(s, fallback)
  }

  function Parse(s: string): Option<Ref> { ParseReference(s, HUB) }

  // ---------- What a default parse produces ----------

  predicate IdOk(kind: Kind, id: string) {
    if kind.Tag? then TagOk(id) else DigestOk(id)
  }

  predicate CanonicalRegistry(host: string) { SelfDelimiting(host) && host != HUB_ALIAS }

  /** The shape of every reference `Parse` returns. Only a tag may still be missing its
      `library/`: a digest has been through one printing already. */
  predicate Canonical(r: Ref) {
    && CanonicalRegistry(r.repo.registry)
    && RepoOk(r.repo.path)
    && IdOk(r.kind, r.id)
    && (r.kind.Digest? ==> RepoStr(r.repo) == r.repo.path)
  }

  lemma HostsHaveNoSlashOrAt(host: string)
    requires ValidHost(host)
    ensures Lacks(host, '/') && Lacks(host, '@')
  {
    forall i | 0 <= i < |host|
      ensures host[i] != '/' && host[i] != '@'
    {
      assert HostChar(host[i]);
    }
  }

  lemma HubIsCanonical()
    ensures CanonicalRegistry(HUB) && ValidHost("") && Lacks(HUB, ':')
  {
    assert HUB[5] == '.';
    assert |HUB| == 15 && |HUB_ALIAS| == 9;
    assert Lacks(HUB, ':');
  }

  lemma LatestIsATag()
    ensures TagOk(LATEST)
  {
    assert |LATEST| == 6;
  }

  lemma PathsAreSimple(path: string)
    requires RepoOk(path)
    ensures Lacks(path, ':') && Lacks(path, '@')
  {
    forall i | 0 <= i < |path|
      ensures path[i] != ':' && path[i] != '@'
    {
      assert RepoChar(path[i]);
    }
  }

  lemma IdsAreSimple(kind: Kind, id: string)
    requires IdOk(kind, id)
    ensures Lacks(id, '/') && Lacks(id, '@') && (kind.Tag? ==> Lacks(id, ':'))
  {
    forall i | 0 <= i < |id|
      ensures id[i] != '/' && id[i] != '@' && (kind.Tag? ==> id[i] != ':')
    {
      assert if kind.Tag? then TagChar(id[i]) else DigestChar(id[i]);
    }
  }

  lemma CutRegistryParts(name: string)
    ensures var (host, path) := CutRegistry(name);
            if host == "" then path == name
            else name == host + ['/'] + path && Lacks(host, '/') && Delimits(host)
  {
    var i := Index(name, '/');
    if i >= 0 {
      Cut(name, i);
    }
  }

  lemma CutTagParts(name: string)
    ensures var (base, tag) := CutTag(name);
            name == base || (name == base + [':'] + tag && Lacks(tag, '/'))
  {
    var i := LastIndex(name, ':');
    if i >= 0 {
      Cut(name, i);
    }
  }

  lemma CutRegistryPrinted(host: string, path: string)
    requires Lacks(host, '/') && Delimits(host)
    ensures CutRegistry(host + ['/'] + path) == (host, path)
  {
    IndexOfSeparator(host, '/', path);
  }

  lemma CutTagPrinted(base: string, tag: string)
    requires TagOk(tag)
    ensures CutTag(base + [':'] + tag) == (base, tag)
  {
    IdsAreSimple(Tag, tag);
    LastIndexOfSeparator(base, ':', tag);
  }

  /** A ':' in the registry of a printed repository is not mistaken for a tag. */
  lemma CutTagUntagged(host: string, path: string)
    requires Lacks(path, ':')
    ensures CutTag(host + ['/'] + path) == (host + ['/'] + path, "")
  {
    var s := host + ['/'] + path;
    Glue(host, '/', path);
    var i := LastIndex(s, ':');
    if i >= 0 {
      assert i < |host| by {
        assert forall k | |host| < k < |s| :: s[k] == path[k - |host| - 1];
      }
      assert s[i + 1..][|host| - i - 1] == '/';
    }
  }

  lemma NoAtIn(a: string, c: char, b: string)
    requires Lacks(a, '@') && c != '@' && Lacks(b, '@')
    ensures Lacks(a + [c] + b, '@')
  {
  }

  lemma RepositoriesHaveNoAt(name: string, fallback: string)
    requires NewRepository(name, fallback).Some?
    ensures Lacks(name, '@')
  {
    CutRegistryParts(name);
    var (host, path) := CutRegistry(name);
    PathsAreSimple(path);
    if host != "" {
      HostsHaveNoSlashOrAt(host);
      NoAtIn(host, '/', path);
    }
  }

  lemma NewRepositoryShape(name: string, fallback: string)
    requires NewRepository(name, fallback).Some?
    ensures var r := NewRepository(name, fallback).value;
            && RepoOk(r.path)
            && (CanonicalRegistry(fallback) ==> CanonicalRegistry(r.registry))
  {
    HubIsCanonical();
    CutRegistryParts(name);
  }

  lemma TagsHaveNoAt(s: string, fallback: string)
    requires NewTag(s, fallback).Some?
    ensures Lacks(s, '@')
  {
    CutTagParts(s);
    var (base, tag) := CutTag(s);
    RepositoriesHaveNoAt(base, fallback);
    if s != base {
      if tag != "" {
        IdsAreSimple(Tag, tag);
      }
      NoAtIn(base, ':', tag);
    }
  }

  /** A text with a ':' after its last '/' is never a repository. */
  lemma TaggedIsNoRepository(base: string, tag: string, fallback: string)
    requires Lacks(tag, '/')
    ensures NewRepository(base + [':'] + tag, fallback).None?
  {
    var s := base + [':'] + tag;
    Glue(base, ':', tag);
    assert forall k | |base| < k < |s| :: s[k] == tag[k - |base| - 1];
    CutRegistryParts(s);
    var (host, path) := CutRegistry(s);
    if host != "" {
      Glue(host, '/', path);
      assert s[|host|] == '/' && |host| < |base|;
      assert path[|base| - |host| - 1] == s[|base|];
    }
    assert !Lacks(path, ':');
    if RepoOk(path) {
      PathsAreSimple(path);
      assert false;
    }
  }

  /** When the tag parse of a digest's base fails, its repository parse fails too. */
  lemma FailedTagIsNoRepository(s: string, fallback: string)
    requires NewTag(s, fallback).None?
    ensures NewRepository(s, fallback).None?
  {
    CutTagParts(s);
    var (base, tag) := CutTag(s);
    if s != base {
      TaggedIsNoRepository(base, tag, fallback);
    }
  }

  /** A printed repository splits back into its registry and its printed path. */
  lemma NewRepositoryOfPrinted(host: string, path: string, fallback: string)
    requires CanonicalRegistry(host)
    ensures NewRepository(host + ['/'] + path, fallback) ==
            if RepoOk(path) then Some(Repo(host, path)) else None
  {
    HostsHaveNoSlashOrAt(host);
    CutRegistryPrinted(host, path);
    assert host != "" by {
      if host == "" { assert Lacks(host, '.') && Lacks(host, ':'); }
    }
  }

  lemma PrintedIsExplicit(r: Repo)
    ensures RepoStr(Repo(r.registry, RepoStr(r))) == RepoStr(r)
  {
    if r.registry == HUB && Lacks(r.path, '/') {
      Glue(LIBRARY, '/', r.path);
    }
  }

  lemma NewTagShape(s: string)
    requires NewTag(s, HUB).Some?
    ensures Canonical(NewTag(s, HUB).value)
  {
    HubIsCanonical();
    LatestIsATag();
    NewRepositoryShape(CutTag(s).0, HUB);
  }

  lemma ParseIsCanonical(s: string)
    requires Parse(s).Some?
    ensures Canonical(Parse(s).value)
  {
    if NewTag(s, HUB).Some? {
      NewTagShape(s);
    } else {
      var base := s[..Index(s, '@')];
      if NewTag(base, HUB).None? {
        FailedTagIsNoRepository(base, HUB);
      } else {
        NewTagShape(base);
        var repo := NewTag(base, HUB).value.repo;
        NewRepositoryOfPrinted(repo.registry, RepoStr(repo), HUB);
        PrintedIsExplicit(repo);
      }
    }
  }

  // ---------- Printing and parsing again ----------

  lemma NewTagOfPrinted(host: string, path: string)
    requires CanonicalRegistry(host) && RepoOk(path)
    ensures NewTag(host + ['/'] + path, HUB) == Some(Ref(Repo(host, path), Tag, LATEST))
  {
    PathsAreSimple(path);
    CutTagUntagged(host, path);
    NewRepositoryOfPrinted(host, path, HUB);
  }

  lemma ParseTagged(host: string, path: string, tag: string)
    requires CanonicalRegistry(host) && TagOk(tag) && Lacks(path, '@')
    ensures Parse(host + ['/'] + path + [':'] + tag) ==
            if RepoOk(path) then Some(Ref(Repo(host, path), Tag, tag)) else None
  {
    var base := host + ['/'] + path;
    CutTagPrinted(base, tag);
    NewRepositoryOfPrinted(host, path, HUB);
    HostsHaveNoSlashOrAt(host);
    IdsAreSimple(Tag, tag);
    NoAtIn(host, '/', path);
    NoAtIn(base, ':', tag);
  }

  lemma ParseDigested(host: string, path: string, digest: string)
    requires CanonicalRegistry(host) && DigestOk(digest) && Lacks(path, '@') && Lacks(path, ':')
    requires RepoStr(Repo(host, path)) == path
    ensures var s := host + ['/'] + path + ['@'] + digest;
            && Parse(s) == NewDigest(s, HUB)
            && Parse(s) == if RepoOk(path) then Some(Ref(Repo(host, path), Digest, digest)) else None
  {
    var base := host + ['/'] + path;
    var s := base + ['@'] + digest;
    HostsHaveNoSlashOrAt(host);
    NoAtIn(host, '/', path);
    IndexOfSeparator(base, '@', digest);
    CutTagUntagged(host, path);
    NewRepositoryOfPrinted(host, path, HUB);
    Glue(base, '@', digest);
    if NewTag(s, HUB).Some? {
      TagsHaveNoAt(s, HUB);
      assert false;
    }
  }

  lemma PrintedPathIsSimple(r: Repo)
    requires RepoOk(r.path)
    ensures Lacks(RepoStr(r), '@') && Lacks(RepoStr(r), ':')
    ensures RepoOk(RepoStr(r)) <==> |RepoStr(r)| <= MAX_REPOSITORY
    ensures forall i | 0 <= i < |RepoStr(r)| :: RepoChar(RepoStr(r)[i])
  {
    PathsAreSimple(r.path);
    var p := RepoStr(r);
    if p != r.path {
      assert |LIBRARY| == 7;
      forall i | 0 <= i < |p|
        ensures RepoChar(p[i]) && p[i] != '@' && p[i] != ':'
      {
        if i > 7 { assert p[i] == r.path[i - 8]; }
      }
    }
  }

  /** Whether the printed path still meets the length bound; only `library/` can push it past. */
  predicate Fits(r: Repo) { |RepoStr(r)| <= MAX_REPOSITORY }

  lemma ParseSpelled(host: string, path: string, kind: Kind, id: string)
    requires CanonicalRegistry(host) && IdOk(kind, id) && Lacks(path, '@') && Lacks(path, ':')
    requires RepoStr(Repo(host, path)) == path
    ensures Parse(host + ['/'] + path + [Mark(kind)] + id) ==
            if RepoOk(path) then Some(Ref(Repo(host, path), kind, id)) else None
  {
    if kind.Tag? {
      ParseTagged(host, path, id);
    } else {
      ParseDigested(host, path, id);
    }
  }

  /** Printing a reference and parsing the result gives the reference with its path spelled
      out, exactly when the printed path meets the length bound. */
  lemma ParsePrinted(r: Ref)
    requires CanonicalRegistry(r.repo.registry) && RepoOk(r.repo.path) && IdOk(r.kind, r.id)
    ensures Parse(Name(r)) ==
            if Fits(r.repo) then Some(Ref(Repo(r.repo.registry, RepoStr(r.repo)), r.kind, r.id)) else None
  {
    var host, path := r.repo.registry, RepoStr(r.repo);
    PrintedPathIsSimple(r.repo);
    PrintedIsExplicit(r.repo);
    ParseSpelled(host, path, r.kind, r.id);
    assert Name(r) == host + ['/'] + path + [Mark(r.kind)] + r.id;
  }

  /** Normal forms: for every string that parses, the printed name parses again exactly when
      it meets the length bound, and then has the same printed name, kind, path and
      identifier. */
  lemma NormalForm(s: string)
    requires Parse(s).Some?
    ensures var r := Parse(s).value; var again := Parse(Name(r));
            && (again.Some? <==> Fits(r.repo))
            && (again.Some? ==> && Name(again.value) == Name(r)
                                && again.value.kind == r.kind
                                && again.value.id == r.id
                                && again.value.repo.registry == r.repo.registry
                                && RepoStr(again.value.repo) == RepoStr(r.repo))
  {
    ParseIsCanonical(s);
    ParsePrinted(Parse(s).value);
    PrintedIsExplicit(Parse(s).value.repo);
  }
}
