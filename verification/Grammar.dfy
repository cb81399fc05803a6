/** What a reference is, as a grammar: an independent account of the parsing and printing of
    references, in literal characters and lengths, which the parser is proved to meet exactly. */
module Grammar {
  import opened Strs
  import opened Names
  import opened Paths
  import opened Relocation

  // ---------- The grammar ----------

  const LOWER := "abcdefghijklmnopqrstuvwxyz"
  const UPPER := "ABCDEFGHIJKLMNOPQRSTUVWXYZ"
  const DIGITS := "0123456789"

  predicate Among(s: string, chars: string) { forall i | 0 <= i < |s| :: s[i] in chars }

  /** A repository's path. */
  predicate PathText(s: string) { 2 <= |s| <= 255 && Among(s, LOWER + DIGITS + "_-./") }

  predicate TagText(s: string) {
    1 <= |s| <= 128 && Among(s, LOWER + UPPER + DIGITS + "_-.")
  }

  predicate DigestText(s: string) { |s| == 71 && Among(s, "sh:" + DIGITS + "abcdef") }

  predicate PortText(s: string) { s == "" || (s[0] == ':' && Among(s[1..], DIGITS)) }

  predicate HighOrAmong(s: string, chars: string) { forall i | 0 <= i < |s| :: s[i] as int >= 128 || s[i] in chars }

  ghost predicate BracketThenPort(s: string) { exists a, port :: s == a + "]" + port && PortText(port) }

  ghost predicate PortAtEnd(s: string) { exists a, port :: s == a + port && port != "" && PortText(port) }

  /** A host, with a port or without: an address in brackets, or any other text. */
  ghost predicate HostText(s: string) {
    HighOrAmong(s, LOWER + UPPER + DIGITS + "-_.~:[]!$&'()*+,;=<>\"") && HostShape(s)
  }

  ghost predicate HostShape(s: string) {
    if s != "" && s[0] == '[' then BracketThenPort(s) else Lacks(s, ':') || PortAtEnd(s)
  }

  /** A host that names a registry in front of a path. */
  ghost predicate RegistryText(s: string) { HostText(s) && ('.' in s || ':' in s) }

  /** The registry a name stands for. */
  function Standing(host: string): string {
    if host == "" || host == "docker.io" then "index.docker.io" else host
  }

  /** A path whose first segment is not taken for a registry. */
  ghost predicate NoRegistryFirst(path: string) {
    Lacks(path, '/') || exists first, rest :: path == first + "/" + rest && Lacks(first, '/') && Lacks(first, '.')
  }

  /** A text that names a repository, under a registry that stands where none is named. */
  ghost predicate NamesRepository(s: string, fallback: string, repo: Repo) {
    && PathText(repo.path)
    && (|| (s == repo.path && NoRegistryFirst(s) && repo.registry == Standing(fallback))
        || exists host :: RegistryText(host) && s == host + "/" + repo.path && repo.registry == Standing(host))
  }

  /** A repository and, behind a ':', a tag; none, or an empty one, means `latest`. */
  ghost predicate NamesTag(s: string, fallback: string, r: Ref) {
    && r.kind == Tag
    && (|| (NamesRepository(s, fallback, r.repo) && r.id == "latest")
        || exists base, tag :: && s == base + ":" + tag && NamesRepository(base, fallback, r.repo)
                               && if tag == "" then r.id == "latest" else TagText(tag) && r.id == tag)
  }

  /** The path as it is printed. */
  function PathPrinted(repo: Repo): string {
    if repo.registry == "index.docker.io" && Lacks(repo.path, '/') then "library/" + repo.path else repo.path
  }

  /** A repository, perhaps with a tag that is dropped, and a digest behind '@'; the path is that which
      is printed, and must not be longer than another. */
  ghost predicate NamesDigest(s: string, r: Ref) {
    && r.kind == Digest && DigestText(r.id) && |r.repo.path| <= 255
    && exists base, named :: && s == base + "@" + r.id && NamesTag(base, "index.docker.io", named)
                             && r.repo == Repo(named.repo.registry, PathPrinted(named.repo))
  }

  /** A text that is read as a reference where no registry is given. */
  ghost predicate Reads(s: string, r: Ref) { NamesTag(s, "index.docker.io", r) || NamesDigest(s, r) }

  /** A reference, printed. */
  function Printed(r: Ref): string {
    r.repo.registry + "/" + PathPrinted(r.repo) + (if r.kind == Tag then ":" else "@") + r.id
  }

  // ---------- The parser meets it ----------

  lemma LowerAre(c: char)
    ensures Lower(c) <==> c in LOWER
  {
  }

  lemma UpperAre(c: char)
    ensures Upper(c) <==> c in UPPER
  {
  }

  lemma DigitsAre(c: char)
    ensures Digit(c) <==> c in DIGITS
  {
  }

  lemma RepoCharactersAre(c: char)
    ensures RepoChar(c) <==> c in LOWER + DIGITS + "_-./"
  {
    LowerAre(c);
    DigitsAre(c);
  }

  lemma TagCharactersAre(c: char)
    ensures TagChar(c) <==> c in LOWER + UPPER + DIGITS + "_-."
  {
    LowerAre(c);
    UpperAre(c);
    DigitsAre(c);
  }

  lemma DigestCharactersAre(c: char)
    ensures DigestChar(c) <==> c in "sh:" + DIGITS + "abcdef"
  {
    DigitsAre(c);
  }

  lemma HostCharactersAre(c: char)
    ensures HostChar(c) <==> c as int >= 128 || c in LOWER + UPPER + DIGITS + "-_.~:[]!$&'()*+,;=<>\""
  {
    LowerAre(c);
    UpperAre(c);
    DigitsAre(c);
  }

  lemma TextsAre(s: string)
    ensures RepoOk(s) <==> PathText(s)
    ensures TagOk(s) <==> TagText(s)
    ensures DigestOk(s) <==> DigestText(s)
  {
    forall i | 0 <= i < |s|
      ensures RepoChar(s[i]) <==> s[i] in LOWER + DIGITS + "_-./"
      ensures TagChar(s[i]) <==> s[i] in LOWER + UPPER + DIGITS + "_-."
      ensures DigestChar(s[i]) <==> s[i] in "sh:" + DIGITS + "abcdef"
    {
      RepoCharactersAre(s[i]);
      TagCharactersAre(s[i]);
      DigestCharactersAre(s[i]);
    }
  }

  lemma PortsAre(s: string)
    ensures ValidPort(s) <==> PortText(s)
    ensures PortText(s) ==> Lacks(s, ']')
    ensures PortText(s) && s != "" ==> LastIndex(s, ':') == 0
  {
    if s != "" {
      var d := s[1..];
      assert forall i | 1 <= i < |s| :: s[i] == d[i - 1];
      forall i | 0 <= i < |d| ensures Digit(d[i]) <==> d[i] in DIGITS {
        DigitsAre(d[i]);
      }
      assert forall i | 0 <= i < |d| :: d[i] == s[i + 1];
      if PortText(s) {
        assert forall i | 1 <= i < |s| :: Digit(s[i]);
        LastIndexIs(s, ':', 0);
      }
    }
  }

  lemma LastIndexOfPort(a: string, port: string)
    requires PortText(port) && port != ""
    ensures LastIndex(a + port, ':') == |a| && (a + port)[|a|..] == port
  {
    PortsAre(port);
    var s := a + port;
    assert s[|a|] == port[0];
    assert forall k | |a| < k < |s| :: s[k] == port[k - |a|];
    LastIndexIs(s, ':', |a|);
  }

  predicate AllHostChars(s: string) { forall i | 0 <= i < |s| :: HostChar(s[i]) }

  lemma HostCharsAre(s: string, chars: string)
    requires forall c :: HostChar(c) <==> c as int >= 128 || c in chars
    ensures HighOrAmong(s, chars) <==> AllHostChars(s)
  {
  }

  lemma BracketedAre(s: string)
    ensures (var j := LastIndex(s, ']'); j >= 0 && ValidPort(s[j + 1..])) <==> BracketThenPort(s)
  {
    var j := LastIndex(s, ']');
    if j >= 0 {
      Cut(s, j);
      PortsAre(s[j + 1..]);
      assert s == s[..j] + "]" + s[j + 1..];
    }
    if a, port :| s == a + "]" + port && PortText(port) {
      PortsAre(port);
      LastIndexOfSeparator(a, ']', port);
    }
  }

  lemma OthersAre(s: string)
    ensures (var i := LastIndex(s, ':'); i == -1 || ValidPort(s[i..])) <==> Lacks(s, ':') || PortAtEnd(s)
  {
    var i := LastIndex(s, ':');
    if i >= 0 {
      PortsAre(s[i..]);
      assert s == s[..i] + s[i..];
    }
    if a, port :| s == a + port && port != "" && PortText(port) {
      LastIndexOfPort(a, port);
      PortsAre(port);
    }
  }

  lemma ValidHostsAre(s: string)
    ensures ValidHost(s) <==> AllHostChars(s) && HostShape(s)
  {
    BracketedAre(s);
    OthersAre(s);
  }

  lemma HostsAre(s: string)
    ensures ValidHost(s) <==> HostText(s)
  {
    ValidHostsAre(s);
    forall c ensures HostChar(c) <==>
                       c as int >= 128 || c in LOWER + UPPER + DIGITS + "-_.~:[]!$&'()*+,;=<>\"" {
      HostCharactersAre(c);
    }
    HostCharsAre(s, LOWER + UPPER + DIGITS + "-_.~:[]!$&'()*+,;=<>\"");
  }

  lemma RegistriesAre(s: string)
    ensures SelfDelimiting(s) <==> RegistryText(s)
    ensures RegistryText(s) ==> Lacks(s, '/') && s != ""
  {
    HostsAre(s);
    if ValidHost(s) {
      HostsHaveNoSlashOrAt(s);
    }
  }

  lemma StandingIs(host: string)
    ensures Standing(host) == Normal(host)
  {
  }

  lemma UndividedIs(path: string)
    requires PathText(path)
    ensures CutRegistry(path).0 == "" <==> NoRegistryFirst(path)
  {
    TextsAre(path);
    PathsAreSimple(path);
    var i := Index(path, '/');
    if i >= 0 {
      Cut(path, i);
      assert path == path[..i] + "/" + path[i + 1..];
      assert Lacks(path[..i], ':');
      if Delimits(path[..i]) {
        assert path[..i] != "";
      }
      if first, rest :| path == first + "/" + rest && Lacks(first, '/') && Lacks(first, '.') {
        IndexOfSeparator(first, '/', rest);
      }
    }
  }

  /** The parser of repositories accepts exactly what names one. */
  lemma RepositoriesParseExactly(s: string, fallback: string, repo: Repo)
    ensures NewRepository(s, fallback) == Some(repo) <==> NamesRepository(s, fallback, repo)
  {
    CutRegistryParts(s);
    TextsAre(repo.path);
    var (host, path) := CutRegistry(s);
    StandingIs(host);
    StandingIs(fallback);
    HostsAre("");
    assert ValidHost("");
    RegistriesAre(host);
    if NewRepository(s, fallback) == Some(repo) {
      if host == "" {
        UndividedIs(path);
      } else {
        assert RegistryText(host) && s == host + "/" + repo.path;
      }
    }
    if PathText(repo.path) && s == repo.path && NoRegistryFirst(s) && repo.registry == Standing(fallback) {
      UndividedIs(s);
    }
    if h :| PathText(repo.path) && RegistryText(h) && s == h + "/" + repo.path && repo.registry == Standing(h) {
      RegistriesAre(h);
      StandingIs(h);
      CutRegistryPrinted(h, repo.path);
    }
  }

  lemma RepositoriesAreUntagged(s: string, fallback: string, repo: Repo)
    requires NewRepository(s, fallback) == Some(repo)
    ensures CutTag(s) == (s, "")
  {
    CutRegistryParts(s);
    var (host, path) := CutRegistry(s);
    PathsAreSimple(path);
    if host != "" {
      CutTagUntagged(host, path);
    } else {
      assert LastIndex(s, ':') == -1;
    }
  }

  lemma CutTagOfTagged(base: string, tag: string)
    requires tag == "" || TagOk(tag)
    ensures CutTag(base + ":" + tag) == (base, tag)
  {
    if tag != "" {
      IdsAreSimple(Tag, tag);
    }
    LastIndexOfSeparator(base, ':', tag);
  }

  lemma TagIsNamed(s: string, fallback: string, r: Ref)
    requires NewTag(s, fallback) == Some(r)
    ensures NamesTag(s, fallback, r)
  {
    CutTagParts(s);
    var (base, tag) := CutTag(s);
    TextsAre(tag);
    RepositoriesParseExactly(base, fallback, r.repo);
    if s != base {
      assert s == base + ":" + tag;
    }
  }

  lemma UntaggedParses(s: string, fallback: string, repo: Repo)
    requires NamesRepository(s, fallback, repo)
    ensures NewTag(s, fallback) == Some(Ref(repo, Tag, "latest"))
  {
    RepositoriesParseExactly(s, fallback, repo);
    RepositoriesAreUntagged(s, fallback, repo);
  }

  lemma TaggedParses(base: string, tag: string, fallback: string, repo: Repo)
    requires NamesRepository(base, fallback, repo) && (tag == "" || TagText(tag))
    ensures NewTag(base + ":" + tag, fallback) == Some(Ref(repo, Tag, if tag == "" then "latest" else tag))
  {
    TextsAre(tag);
    RepositoriesParseExactly(base, fallback, repo);
    CutTagOfTagged(base, tag);
  }

  /** The same of references with a tag. */
  lemma TagsParseExactly(s: string, fallback: string, r: Ref)
    ensures NewTag(s, fallback) == Some(r) <==> NamesTag(s, fallback, r)
  {
    if NewTag(s, fallback) == Some(r) {
      TagIsNamed(s, fallback, r);
    }
    if NamesTag(s, fallback, r) {
      if NamesRepository(s, fallback, r.repo) && r.id == "latest" {
        UntaggedParses(s, fallback, r.repo);
      } else {
        var base, tag :| && s == base + ":" + tag && NamesRepository(base, fallback, r.repo)
                         && if tag == "" then r.id == "latest" else TagText(tag) && r.id == tag;
        TaggedParses(base, tag, fallback, r.repo);
      }
    }
  }

  lemma PrintedIs(r: Ref)
    ensures PathPrinted(r.repo) == RepoStr(r.repo) && Printed(r) == Name(r)
  {
  }

  lemma DigestBaseIs(base: string)
    ensures var t := NewTag(base, HUB);
            DigestBase(base, HUB) ==
            if t.Some? && |PathPrinted(t.value.repo)| <= 255
            then Some(Repo(t.value.repo.registry, PathPrinted(t.value.repo))) else None
  {
    var t := NewTag(base, HUB);
    if t.None? {
      FailedTagIsNoRepository(base, HUB);
    } else {
      NewTagShape(base);
      PrintedIs(t.value);
      PrintedPathIsSimple(t.value.repo);
      NewRepositoryOfPrinted(t.value.repo.registry, RepoStr(t.value.repo), HUB);
    }
  }

  lemma DigestIsNamed(s: string, r: Ref)
    requires NewDigest(s, HUB) == Some(r)
    ensures NamesDigest(s, r)
  {
    TextsAre(r.id);
    var i := Index(s, '@');
    var base := s[..i];
    Cut(s, i);
    DigestBaseIs(base);
    DigestIsOf(base, r);
    assert s == base + "@" + r.id;
  }

  lemma DigestIsOf(base: string, r: Ref)
    requires NewTag(base, HUB).Some? && r.kind == Digest && DigestText(r.id)
    requires r.repo == Repo(NewTag(base, HUB).value.repo.registry, PathPrinted(NewTag(base, HUB).value.repo))
    requires |r.repo.path| <= 255
    ensures NamesDigest(base + "@" + r.id, r)
  {
    TagIsNamed(base, HUB, NewTag(base, HUB).value);
  }

  lemma DigestedParses(base: string, id: string, named: Ref)
    requires NamesTag(base, HUB, named) && DigestText(id) && |PathPrinted(named.repo)| <= 255
    ensures NewDigest(base + "@" + id, HUB) ==
            Some(Ref(Repo(named.repo.registry, PathPrinted(named.repo)), Digest, id))
  {
    TextsAre(id);
    TagsParseExactly(base, HUB, named);
    TagsHaveNoAt(base, HUB);
    IndexOfSeparator(base, '@', id);
    DigestBaseIs(base);
  }

  lemma DigestsParseExactly(s: string, r: Ref)
    ensures NewDigest(s, HUB) == Some(r) <==> NamesDigest(s, r)
  {
    if NewDigest(s, HUB) == Some(r) {
      DigestIsNamed(s, r);
    }
    if NamesDigest(s, r) {
      var base, named :| && s == base + "@" + r.id && NamesTag(base, "index.docker.io", named)
                         && r.repo == Repo(named.repo.registry, PathPrinted(named.repo));
      DigestedParses(base, r.id, named);
    }
  }

  /** The parser accepts exactly what the grammar does, and reads it as the grammar says. */
  lemma ParsesExactly(s: string, r: Ref)
    ensures Parse(s) == Some(r) <==> Reads(s, r)
  {
    TagsParseExactly(s, HUB, r);
    DigestsParseExactly(s, r);
    if NewTag(s, HUB).Some? {
      TagsHaveNoAt(s, HUB);
      assert NewDigest(s, HUB).None?;
    }
  }

  /** And a relocation is just what reading the path anew, under the target, and printing the result
      with the old tag or digest gives. */
  lemma RelocatesTo(s: string, target: string, moved: string)
    ensures Relocate(s, target) == Some(moved) <==>
              exists r, repo :: && Reads(s, r)
                                && NamesRepository(PathPrinted(r.repo), target, repo)
                                && moved == Printed(Ref(repo, r.kind, r.id))
  {
    if Parse(s).Some? {
      var r := Parse(s).value;
      ParsesExactly(s, r);
      RelocateParsed(s, target);
      PrintedIs(r);
      var rp := NewRepository(RepoStr(r.repo), target);
      if rp.Some? {
        RepositoriesParseExactly(RepoStr(r.repo), target, rp.value);
        PrintedIs(Ref(rp.value, r.kind, r.id));
      }
    }
    if r, repo :| && Reads(s, r)
                  && NamesRepository(PathPrinted(r.repo), target, repo) && moved == Printed(Ref(repo, r.kind, r.id)) {
      ParsesExactly(s, r);
      PrintedIs(r);
      RelocateParsed(s, target);
      RepositoriesParseExactly(PathPrinted(r.repo), target, repo);
      PrintedIs(Ref(repo, r.kind, r.id));
    }
  }

  // ---------- The addresses, spelled out ----------

  /** The keys of packages. */
  lemma KeyIsSpelled(name: string)
    requires CleanName(name)
    ensures Reference(name) == "kevi/" + name
  {
    ReferenceUnderNamespace(name);
    assert NAMESPACE + ['/'] == "kevi/";
  }

  /** The place of the operator's image. */
  lemma ControllerIsSpelled(host: string, digest: string)
    ensures ControllerAt(host, digest) == Standing(host) + ("/kevi/kevi-controller@" + digest)
  {
    assert CONTROLLER == "kevi/kevi-controller";
    assert ['/'] + (CONTROLLER + ['@'] + digest) == "/kevi/kevi-controller@" + digest;
  }

  lemma TextOf(name: string, host: string)
    requires CleanName(name)
    ensures host + ['/'] + Reference(name) == host + ("/kevi/" + name)
  {
    KeyIsSpelled(name);
    assert ['/'] + ("kevi/" + name) == "/kevi/" + name;
  }

  lemma LocatesText(name: string, host: string)
    requires CleanName(name) && SelfDelimiting(host) && host != "."
    ensures var text := host + ("/kevi/" + name);
            Locate(host, name) == if Parse(text).Some? then Name(Parse(text).value) else text
  {
    RegistriesAre(host);
    NamespaceIsPlain();
    CleanNamesAreTidy(name);
    InsideIsContained(NAMESPACE, name);
    LocateInHost(host, name);
    TextOf(name, host);
  }

  /** A package is looked for under what its name, behind the host and the namespace, is read as. */
  lemma LocatesAt(name: string, host: string, at: string)
    requires CleanName(name) && RegistryText(host) && host != "."
    ensures var text := host + ("/kevi/" + name);
            Locate(host, name) == at <==>
              || (exists r :: Reads(text, r) && at == Printed(r))
              || ((forall r :: !Reads(text, r)) && at == text)
  {
    RegistriesAre(host);
    LocatesText(name, host);
    var text := host + ("/kevi/" + name);
    forall r ensures Reads(text, r) <==> Parse(text) == Some(r) {
      ParsesExactly(text, r);
    }
    if Parse(text).Some? {
      PrintedIs(Parse(text).value);
    }
  }

  /** The webhook asks for the relocation, read and printed once more. */
  lemma RewritesTo(image: string, host: string, asked: string)
    ensures Rewrite(image, host) == Some(asked) <==>
              Relocate(image, host).Some?
              && exists r :: Reads(Relocate(image, host).value, r) && asked == Printed(r)
  {
    if Relocate(image, host).Some? {
      var moved := Relocate(image, host).value;
      if Parse(moved).Some? {
        ParsesExactly(moved, Parse(moved).value);
        PrintedIs(Parse(moved).value);
      }
      if r :| Reads(moved, r) && asked == Printed(r) {
        ParsesExactly(moved, r);
        PrintedIs(r);
      }
    }
  }

  /** An image is stored under its name, printed. */
  lemma StoredUnder(image: string, key: string)
    ensures ImageKey(image) == Some(key) <==>
              exists r :: Reads(image, r) && key == Printed(r)
  {
    if Parse(image).Some? {
      ParsesExactly(image, Parse(image).value);
      PrintedIs(Parse(image).value);
    }
    if r :| Reads(image, r) && key == Printed(r) {
      ParsesExactly(image, r);
      PrintedIs(r);
    }
  }
}
