/**
 * What PackageHelper::download builds from a specifier: the package
 * descriptor of the registry branch (an archive URL on pecl.php.net) or of
 * the repository branch (a git source URL and reference), or nothing when
 * neither pattern matches. `Resolve` is the specification that the
 * imperative `PackageHelper.Download` is proved against.
 */
module Resolution {
  import opened Wrappers
  import opened Pcre
  import opened Grammar

  /** A package as the two branches leave it: Dist carries only an archive URL, Source only the
      repository URL, type and reference, so no descriptor has both or neither. */
  datatype Descriptor =
    | Dist(name: string, version: string, prettyVersion: string, distUrl: string)
    | Source(name: string, version: string, prettyVersion: string,
             sourceUrl: string, sourceType: string, sourceReference: string)

  const PeclGetUrl := "http://pecl.php.net/get/"
  const LatestVersion := "latest"
  const DefaultStability := "stable"
  const DefaultReference := "master"
  const GitSourceType := "git"

  /** `isset($x) && '' !== $x`: a capture that took part in the match and is not empty. */
  predicate Given(o: Option<string>) {
    o.Some? && o.value != ""
  }

  /** The registry branch: the archive URL grows by the stability channel, then by the version. */
  function PeclDescriptor(c: PeclCaptures): Descriptor {
    var stability := if Given(c.stability) then c.stability.value else DefaultStability;
    var url := PeclGetUrl + c.package
      + (if Given(c.stability) then "-" + c.stability.value else "")
      + (if Given(c.version) then "/" + c.version.value else "");
    if Given(c.version) then Dist(c.package, c.version.value, c.version.value, url)
    else Dist(c.package, LatestVersion, "latest-" + stability, url)
  }

  /** `preg_replace('/#.*$/', '', s)`: the dot stops at a newline and `$` only closes at the end or
      before a final newline, so the cut starts at the first `#` of the last line of the subject,
      and a final newline survives it. */
  function StripFragment(s: string): (r: string)
    ensures exists i :: FragmentCut(s, i, r)
  {
    var t := Line(s);
    var k := LineStart(t);
    match FirstIndex(t[k..], '#')
    case None => (assert t[k..|t|] == t[k..] && FragmentCut(s, |t|, s); s)
    case Some(i) =>
      var r := t[..k + i] + LineEnd(s);
      assert t[k..k + i] == t[k..][..i] && FragmentCut(s, k + i, r);
      r
  }

  /** `r` is `s` with the match of `#.*$` that starts at `i` removed: `i` is the first `#` of the
      last line, or the end of the line when that line has none, and then nothing is removed. */
  predicate FragmentCut(s: string, i: int, r: string) {
    var t, k := Line(s), LineStart(Line(s));
    k <= i <= |t| && '#' !in t[k..i] &&
    (if i == |t| then r == s else t[i] == '#' && r == t[..i] + LineEnd(s))
  }

  /** The repository branch: version, pretty version and source reference are the fragment, or master. */
  function GitDescriptor(s: string, c: GitCaptures): Descriptor {
    var reference := if c.reference.Some? then c.reference.value else DefaultReference;
    Source(c.package, reference, reference, StripFragment(s), GitSourceType, reference)
  }

  /** The descriptor `download` returns for specifier `s`: the registry pattern is tried first. */
  function Resolve(s: string): Option<Descriptor> {
    match MatchPecl(s)
    case Some(c) => Some(PeclDescriptor(c))
    case None =>
      match MatchGit(s)
      case Some(g) => Some(GitDescriptor(s, g))
      case None => None
  }

  /** The registry branch of Resolve. */
  lemma ResolveRegistry(s: string, c: PeclCaptures)
    requires MatchPecl(s) == Some(c)
    ensures Resolve(s) == Some(PeclDescriptor(c))
  {
  }

  /** The repository branch of Resolve. */
  lemma ResolveRepository(s: string, g: GitCaptures)
    requires MatchPecl(s).None? && MatchGit(s) == Some(g)
    ensures Resolve(s) == Some(GitDescriptor(s, g))
  {
  }

  // ---------------------------------------------------------------------
  // The repository branch's source URL

  /** On a single-line subject the source URL is the specifier cut before its first `#`. */
  lemma StripFragmentCut(s: string, u: string, f: string)
    requires NoNewline(Line(s))
    ensures '#' !in Line(s) ==> StripFragment(s) == s
    ensures Line(s) == u + "#" + f && '#' !in u ==> StripFragment(s) == u + LineEnd(s)
  {
    var t := Line(s);
    var k := LineStart(t);
    assert k == 0 && t[k..] == t;
    var r := StripFragment(s);
    var i :| FragmentCut(s, i, r);
    if t == u + "#" + f && '#' !in u {
      assert t[|u|] == '#';
      assert t[..|u|] == u;
      assert i == |u|;
    }
  }

  // ---------------------------------------------------------------------
  // Registry specifiers

  lemma LatestDescriptor(package: string)
    ensures PeclDescriptor(PeclCaptures(package, None, None))
         == Dist(package, LatestVersion, "latest-stable", PeclGetUrl + package)
  {
  }

  lemma ChannelDescriptor(package: string, stability: string)
    requires IsStability(stability)
    ensures PeclDescriptor(PeclCaptures(package, Some(stability), None))
         == Dist(package, LatestVersion, "latest-" + stability, PeclGetUrl + package + "-" + stability)
  {
  }

  lemma PinnedDescriptor(package: string, version: string)
    requires version != ""
    ensures PeclDescriptor(PeclCaptures(package, None, Some(version)))
         == Dist(package, version, version, PeclGetUrl + package + "/" + version)
  {
  }

  /** A version token is never empty, so `Given` holds of every version capture. */
  lemma VersionNotEmpty(v: string)
    requires IsPeclVersion(v)
    ensures v != ""
  {
    if IsDottedVersion(v) {
      var i :| 0 < i < |v| && v[i] == '.';
    }
  }

  /** `foo` and `pecl/foo`: the latest stable release. */
  lemma RegistryLatest(namespaced: bool, package: string)
    requires IsWord(package)
    ensures Resolve(NamespacePrefix(namespaced) + package)
         == Some(Dist(package, LatestVersion, "latest-stable", PeclGetUrl + package))
  {
    var c := PeclCaptures(package, None, None);
    var t := NamespacePrefix(namespaced) + package;
    assert MatchPecl(t) == Some(c) by {
      assert t == PeclText(namespaced, c);
      PeclComplete(namespaced, c);
    }
    ResolveRegistry(t, c);
    LatestDescriptor(package);
  }

  /** `foo-beta` and `pecl/foo-beta`: the latest release of a stability channel. */
  lemma RegistryChannel(namespaced: bool, package: string, stability: string)
    requires IsWord(package) && IsStability(stability)
    ensures Resolve(NamespacePrefix(namespaced) + package + "-" + stability)
         == Some(Dist(package, LatestVersion, "latest-" + stability, PeclGetUrl + package + "-" + stability))
  {
    var c := PeclCaptures(package, Some(stability), None);
    var t := NamespacePrefix(namespaced) + package + "-" + stability;
    assert MatchPecl(t) == Some(c) by {
      assert PeclSuffix(c) == "-" + stability;
      assert t == PeclText(namespaced, c);
      PeclComplete(namespaced, c);
    }
    ResolveRegistry(t, c);
    ChannelDescriptor(package, stability);
  }

  /** `foo@1.2.3` and `pecl/foo@1.2.3`: one release, fetched from its own URL segment. */
  lemma RegistryPinned(namespaced: bool, package: string, version: string)
    requires IsWord(package) && IsPeclVersion(version)
    ensures Resolve(NamespacePrefix(namespaced) + package + "@" + version)
         == Some(Dist(package, version, version, PeclGetUrl + package + "/" + version))
  {
    var c := PeclCaptures(package, None, Some(version));
    var t := NamespacePrefix(namespaced) + package + "@" + version;
    assert MatchPecl(t) == Some(c) by {
      assert PeclSuffix(c) == "@" + version;
      assert t == PeclText(namespaced, c);
      PeclComplete(namespaced, c);
    }
    ResolveRegistry(t, c);
    VersionNotEmpty(version);
    PinnedDescriptor(package, version);
  }

  /** Conversely, every registry descriptor comes from one of those three spellings (of the line of
      the specifier, that is, without a final newline), and its archive URL never holds the namespace. */
  lemma RegistryForms(s: string)
    requires Resolve(s).Some? && Resolve(s).value.Dist?
    ensures var d, ns := Resolve(s).value, NamespacePrefix(StartsWith(Line(s), Namespace));
      IsWord(d.name) &&
      ((Line(s) == ns + d.name && d.version == LatestVersion && d.prettyVersion == "latest-stable" &&
        d.distUrl == PeclGetUrl + d.name) ||
       (StartsWith(d.prettyVersion, "latest-") && IsStability(d.prettyVersion[7..]) &&
        Line(s) == ns + d.name + "-" + d.prettyVersion[7..] && d.version == LatestVersion &&
        d.distUrl == PeclGetUrl + d.name + "-" + d.prettyVersion[7..]) ||
       (IsPeclVersion(d.version) && d.prettyVersion == d.version &&
        Line(s) == ns + d.name + "@" + d.version && d.distUrl == PeclGetUrl + d.name + "/" + d.version))
  {
    var c := MatchPecl(s).value;
    ResolveRegistry(s, c);
    PeclSound(s);
    RegistryShape(Line(s), NamespacePrefix(StartsWith(Line(s), Namespace)), c);
  }

  /** RegistryForms on the line itself, for the captures it was spelled from. */
  lemma RegistryShape(t: string, ns: string, c: PeclCaptures)
    requires ValidPecl(c) && t == ns + (c.package + PeclSuffix(c))
    ensures var d := PeclDescriptor(c);
      IsWord(d.name) &&
      ((t == ns + d.name && d.version == LatestVersion && d.prettyVersion == "latest-stable" &&
        d.distUrl == PeclGetUrl + d.name) ||
       (StartsWith(d.prettyVersion, "latest-") && IsStability(d.prettyVersion[7..]) &&
        t == ns + d.name + "-" + d.prettyVersion[7..] && d.version == LatestVersion &&
        d.distUrl == PeclGetUrl + d.name + "-" + d.prettyVersion[7..]) ||
       (IsPeclVersion(d.version) && d.prettyVersion == d.version &&
        t == ns + d.name + "@" + d.version && d.distUrl == PeclGetUrl + d.name + "/" + d.version))
  {
    if c.stability.Some? {
      var st := c.stability.value;
      ChannelDescriptor(c.package, st);
      assert ("latest-" + st)[7..] == st;
      assert t == ns + c.package + "-" + st;
    } else if c.version.Some? {
      VersionNotEmpty(c.version.value);
      PinnedDescriptor(c.package, c.version.value);
      assert t == ns + c.package + "@" + c.version.value;
    } else {
      LatestDescriptor(c.package);
      assert t == ns + c.package;
    }
  }

  lemma NamespaceLine(x: string)
    ensures Line(Namespace + x) == Namespace + Line(x)
  {
    var s := Namespace + x;
    if |x| > 0 {
      assert s[|s| - 1] == x[|x| - 1];
      if x[|x| - 1] == '\n' {
        assert s[..|s| - 1] == Namespace + x[..|x| - 1];
      }
    }
  }

  lemma NamespaceMatchLine(y: string)
    requires !StartsWith(y, Namespace)
    ensures MatchPeclLine(Namespace + y) == MatchPeclLine(y)
    ensures SchemeLength(Namespace + y) == 0
  {
    var t := Namespace + y;
    HalvesOf(Namespace, y);
    assert StripNamespace(t) == y;
    assert t[0] == 'p';
    NoSchemeLetter(t);
  }

  lemma LineKeepsPrefix(x: string, prefix: string)
    requires !StartsWith(x, prefix)
    ensures !StartsWith(Line(x), prefix)
  {
    var y := Line(x);
    if |y| >= |prefix| {
      assert x == y + LineEnd(x);
      assert x[..|prefix|] == y[..|prefix|];
    }
  }

  lemma NamespaceMatch(x: string)
    requires !StartsWith(x, Namespace)
    ensures MatchPecl(Namespace + x) == MatchPecl(x)
    ensures SchemeLength(Line(Namespace + x)) == 0
  {
    NamespaceLine(x);
    LineKeepsPrefix(x, Namespace);
    NamespaceMatchLine(Line(x));
  }

  /** The namespace changes nothing: `pecl/x` resolves as `x` when `x` is a registry specifier, and
      to nothing otherwise (a namespaced specifier never reaches the repository pattern). */
  lemma NamespaceIrrelevant(x: string)
    requires !StartsWith(x, Namespace)
    ensures Resolve(Namespace + x) == if MatchPecl(x).Some? then Resolve(x) else None
  {
    NamespaceMatch(x);
    if MatchPecl(x).Some? {
      ResolveRegistry(x, MatchPecl(x).value);
      ResolveRegistry(Namespace + x, MatchPecl(x).value);
    }
  }

  // ---------------------------------------------------------------------
  // Repository specifiers

  /** `scheme://lead/package[.git][#reference]`: the repository branch, with the fragment as the
      reference (master when there is none) and the URL without the fragment as the source. */
  lemma RepositoryUrl(scheme: string, lead: string, c: GitCaptures, dotGit: bool)
    requires IsScheme(scheme) && '#' !in lead && NoNewline(lead)
    requires IsWord(c.package) && (c.reference.Some? ==> NoNewline(c.reference.value))
    ensures var reference := if c.reference.Some? then c.reference.value else DefaultReference;
      Resolve(GitUrlText(scheme, lead, c, dotGit))
      == Some(Source(c.package, reference, reference,
                     scheme + "://" + lead + "/" + c.package + Extension(dotGit), GitSourceType, reference))
  {
    var t := GitUrlText(scheme, lead, c, dotGit);
    GitUrl(scheme, lead, c, dotGit);
    PeclExcludesGit(t);
    ResolveRepository(t, c);
    RepositorySourceUrl(scheme, lead, c, dotGit);
  }

  /** The source URL of a repository specifier is everything before its fragment. */
  lemma RepositorySourceUrl(scheme: string, lead: string, c: GitCaptures, dotGit: bool)
    requires IsScheme(scheme) && '#' !in lead && NoNewline(lead)
    requires IsWord(c.package) && (c.reference.Some? ==> NoNewline(c.reference.value))
    ensures StripFragment(GitUrlText(scheme, lead, c, dotGit))
         == scheme + "://" + lead + "/" + c.package + Extension(dotGit)
  {
    var head := scheme + "://" + lead + "/";
    var u := head + c.package + Extension(dotGit);
    var t := GitUrlText(scheme, lead, c, dotGit);
    Regroup(head, c.package + Extension(dotGit), Fragment(c.reference));
    UrlNoNewline(scheme, lead, c, dotGit);
    assert '#' !in u by {
      assert '#' !in scheme && '#' !in c.package;
    }
    StripSingleLine(t, u, Fragment(c.reference));
  }

  /** On a subject without a newline, a cut at a `#` that nothing before it contains. */
  lemma StripSingleLine(t: string, u: string, fragment: string)
    requires NoNewline(t) && '#' !in u && t == u + fragment
    requires fragment == "" || fragment[0] == '#'
    ensures StripFragment(t) == u
  {
    if t != [] {
      assert t[|t| - 1] in t;
    }
    LineOfLine(t, "");
    assert t + "" == t;
    if fragment == "" {
      assert t == u;
      StripFragmentCut(t, u, "");
    } else {
      assert t == u + "#" + fragment[1..];
      StripFragmentCut(t, u, fragment[1..]);
    }
  }

  /** Every repository descriptor: fixed source type, one reference in three fields (the fragment
      whenever the pattern captured one, even an empty one; master otherwise), and a source URL
      that is the line cut before its first `#`, with any final newline kept. */
  lemma RepositoryForms(s: string)
    requires Resolve(s).Some? && Resolve(s).value.Source?
    ensures var d, g := Resolve(s).value, MatchGit(s).value;
      MatchPecl(s).None? && d.name == g.package && IsWord(d.name) &&
      d.sourceType == GitSourceType &&
      d.version == d.prettyVersion == d.sourceReference &&
      d.sourceReference == (if g.reference.Some? then g.reference.value else DefaultReference) &&
      (forall u, f :: Line(s) == u + "#" + f && '#' !in u ==> d.sourceUrl == u + LineEnd(s)) &&
      ('#' !in Line(s) ==> d.sourceUrl == s)
  {
    var g := MatchGit(s).value;
    assert NoNewline(Line(s));
    forall u, f | Line(s) == u + "#" + f && '#' !in u ensures StripFragment(s) == u + LineEnd(s) {
      StripFragmentCut(s, u, f);
    }
    StripFragmentCut(s, "", "");
  }

  // ---------------------------------------------------------------------
  // Branch choice

  /** PECL is tried first, and when it matches the repository pattern cannot: a descriptor is a
      Dist exactly for registry matches and a Source exactly for repository matches. */
  lemma BranchChoice(s: string)
    ensures Resolve(s).Some? && Resolve(s).value.Dist? <==> MatchPecl(s).Some?
    ensures Resolve(s).Some? && Resolve(s).value.Source? <==> MatchGit(s).Some?
    ensures Resolve(s).Some? ==>
      Resolve(s).value.name == if MatchPecl(s).Some? then MatchPecl(s).value.package else MatchGit(s).value.package
  {
    PeclExcludesGit(s);
  }

  /** A specifier that resolves to nothing has no parse in either pattern. */
  lemma Unrecognised(s: string)
    requires Resolve(s).None?
    ensures forall namespaced, c :: ValidPecl(c) ==> Line(s) != PeclText(namespaced, c)
    ensures forall p, c :: !GitParse(Line(s), p, c)
  {
    forall namespaced, c | ValidPecl(c) ensures Line(s) != PeclText(namespaced, c) {
      PeclLineComplete(namespaced, c);
    }
    GitNoMatch(s);
  }

  /** One final newline, which `$` lets through, changes nothing but the end of a source URL. */
  lemma FinalNewline(s: string)
    requires |s| == 0 || s[|s| - 1] != '\n'
    ensures Resolve(s + "\n").Some? <==> Resolve(s).Some?
    ensures Resolve(s).Some? && Resolve(s).value.Dist? ==> Resolve(s + "\n") == Resolve(s)
    ensures Resolve(s).Some? && Resolve(s).value.Source? ==>
      Resolve(s + "\n") == Some(Resolve(s).value.(sourceUrl := Resolve(s).value.sourceUrl + "\n"))
  {
    LineOfLine(s, "");
    LineOfLine(s, "\n");
    assert s + "" == s;
    assert MatchPecl(s + "\n") == MatchPecl(s) && MatchGit(s + "\n") == MatchGit(s);
    StripFragmentNewline(s);
  }

  lemma StripFragmentNewline(s: string)
    requires |s| == 0 || s[|s| - 1] != '\n'
    ensures StripFragment(s + "\n") == StripFragment(s) + "\n"
  {
    LineOfLine(s, "");
    LineOfLine(s, "\n");
    assert s + "" == s;
  }
}
