/** Concrete inputs on which the ways differ: one for each of the conditions that the theorems on
    addresses and detection carry. */
module Witnesses {
  import opened Strs
  import opened Names
  import opened Paths
  import opened Relocation
  import opened Addresses
  import opened Packing
  import opened Stores

  lemma Short(name: string)
    requires name == "a"
    ensures CleanName(name) && Reference(name) == "kevi/a"
  {
    assert Split(name) == [name];
    assert Plain(name);
    ReferenceUnderNamespace(name);
    assert NAMESPACE + ['/'] + name == "kevi/a";
  }

  lemma ShortParses()
    ensures Parse("kevi/a") == Some(Ref(Repo(HUB, "kevi/a"), Tag, LATEST))
    ensures UnderNamespace("kevi/a")
  {
    var s := "kevi/a";
    assert s[..4] == NAMESPACE;
    UnderNamespaceIsUndelimited(s);
    assert LastIndex(s, ':') == -1 by { assert Lacks(s, ':'); }
    assert RepoOk(s);
    NewRepositoryUndelimited(s, HUB);
    HubIsCanonical();
  }

  /** A package copied to the host ".", which is self-delimiting, is not read there. */
  lemma DotLosesPackages()
    ensures SelfDelimiting(".") && CleanName("a")
    ensures Relocate(Reference("a"), ".").Some? && Relocate(Reference("a"), ".") != Some(Locate(".", "a"))
  {
    DotIsSelfDelimiting();
    Short("a");
    ShortParses();
    UnderNamespaceIsUndelimited("kevi/a");
    RelocateUndelimited("kevi/a", ".");
    CleanNamesAreFound("a", ".");
  }

  /** Nor is one with the empty name, on an ordinary host. */
  lemma TheEmptyNameIsLost()
    ensures SelfDelimiting("a.b")
    ensures Relocate(Reference(""), "a.b").Some? && Relocate(Reference(""), "a.b") != Some(Locate("a.b", ""))
  {
    DottedHostExample();
    assert Cleaned("") == [] by { assert Split("") == [""]; }
    NamespaceIsPlain();
    JoinTidy(NAMESPACE, "");
    NamespaceRelocates("a.b");
    EmptyNamesAreLost("", "a.b");
    assert |HUB| == 15 && |HUB_ALIAS| == 9;
  }

  /** A repository of one segment, without a tag, is a Docker Hub image. */
  lemma SingleImage(s: string)
    requires RepoOk(s) && Lacks(s, '/') && Lacks(s, ':')
    ensures Parse(s) == Some(Ref(Repo(HUB, s), Tag, LATEST))
  {
    SingleRepository(s);
    TagFrom(s, s, "", Some(Repo(HUB, s)));
  }

  lemma ImageOfTwo()
    ensures Parse("xy") == Some(Ref(Repo(HUB, "xy"), Tag, LATEST)) && Lacks("xy", '/') && RepoOk("xy")
  {
    SingleImage("xy");
  }

  lemma LibraryImageRelocates(s: string, x: string, target: string)
    requires Parse(s) == Some(Ref(Repo(HUB, x), Tag, LATEST)) && Lacks(x, '/') && |x| <= 200
    ensures Relocate(s, target).Some? && !Dotted(RepoStr(Parse(s).value.repo))
  {
    var path := LIBRARY + ['/'] + x;
    ParseIsCanonical(s);
    PrintedPathIsSimple(Repo(HUB, x));
    LibraryIsDotless(x);
    assert |LIBRARY| == 7;
    RelocateParsed(s, target);
    NewRepositoryOfPath(path, target);
  }

  lemma RegistryIsNoRegistry()
    ensures Lacks("registry", '/') && !SelfDelimiting(Normal("registry"))
  {
    var target := "registry";
    assert |HUB| == 15 && |HUB_ALIAS| == 9 && |target| == 8;
    assert Lacks(target, '/') && Lacks(target, '.') && Lacks(target, ':');
  }

  /** With the target `registry` the webhook does not ask for what the copy wrote. */
  lemma RegistryDelimitsNothing()
    ensures Relocate("xy", "registry").Some? && Rewrite("xy", "registry") != Relocate("xy", "registry")
  {
    ImageOfTwo();
    LibraryImageRelocates("xy", "xy", "registry");
    RegistryIsNoRegistry();
    RewriteAgreesExactly("xy", "registry");
  }

  /** A dotted image goes to its own first segment, whatever the target. */
  lemma DottedMovesToItsSegment(s: string, host: string, path: string, segment: string, rest: string, target: string)
    requires s == host + ['/'] + path && path == segment + ['/'] + rest
    requires CanonicalRegistry(host) && host != HUB && RepoOk(path) && RepoOk(rest)
    requires Lacks(segment, '/') && !Lacks(segment, '.')
    ensures Relocate(s, target) == Some(Name(Ref(Repo(Normal(segment), rest), Tag, LATEST)))
  {
    NewTagOfPrinted(host, path);
    ParseIsCanonical(s);
    IndexOfSeparator(segment, '/', rest);
    RelocateParsed(s, target);
    NewRepositoryOfPath(path, target);
    assert FirstSegment(path) == segment && Rest(path) == rest;
  }

  lemma DottedParts()
    ensures "a.b" + ['/'] + "c.d/xy" == "a.b/c.d/xy" && "c.d" + ['/'] + "xy" == "c.d/xy"
    ensures RepoOk("c.d/xy") && RepoOk("xy") && Lacks("c.d", '/') && !Lacks("c.d", '.')
  {
    assert "c.d"[1] == '.';
  }

  lemma DottedName()
    ensures Name(Ref(Repo(Normal("c.d"), "xy"), Tag, LATEST)) == "c.d/xy:latest"
  {
    assert |HUB| == 15 && |HUB_ALIAS| == 9 && |"c.d"| == 3;
    assert "c.d" + ['/'] + "xy" + [':'] + LATEST == "c.d/xy:latest";
  }

  lemma ADottedImageMovesAway(target: string)
    ensures Relocate("a.b/c.d/xy", target) == Some("c.d/xy:latest")
  {
    DottedHostExample();
    DottedParts();
    DottedName();
    assert |HUB| == 15;
    DottedMovesToItsSegment("a.b/c.d/xy", "a.b", "c.d/xy", "c.d", "xy", target);
  }

  /** A good package name that deploying takes for a configuration's. */
  lemma MarkedPackageIsDetected()
    ensures GoodPackageName("app/kevi-x") && Detected(Reference("app/kevi-x"))
  {
    var name, a, b := "app/kevi-x", "app", "kevi-x";
    assert name == a + ['/'] + b && Lacks(a, '/') && Lacks(b, '/');
    SplitUnder(a, b);
    assert Split(b) == [b];
    assert Split(name) == [a, b] && Plain(a) && Plain(b);
    assert CONFIG_PREFIX <= Split(name)[1];
    assert name[0] == 'a' && CONFIG_PREFIX[0] == 'k';
    CleanPackagesDetectedExactly(name);
  }

  /** A configuration name that deploying does not see. */
  lemma UncleanConfigIsMissed()
    ensures !Detected(ConfigReference("x/../a"))
  {
    Short("a");
    assert Split("a") == ["a"];
    CleanPackagesDetectedExactly("a");
    UncleanConfigsCanBeMissed("a");
    assert "x/../" + "a" == "x/../a";
  }
}
