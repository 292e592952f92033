/**
 * Concrete specifiers and the descriptors `download` builds for them, each
 * obtained from the general lemmas of Resolution. The specifier is a
 * parameter fixed by the precondition, so that the verifier reasons with the
 * general lemmas rather than by evaluating the recognisers on a literal.
 */
module ResolutionExamples {
  import opened Wrappers
  import opened Pcre
  import opened Grammar
  import opened Resolution

  lemma PlainName(s: string, ns: string)
    requires s == "foo" && ns == "pecl/foo"
    ensures Resolve(s) == Some(Dist("foo", "latest", "latest-stable", "http://pecl.php.net/get/foo"))
    ensures Resolve(ns) == Resolve(s)
  {
    assert NamespacePrefix(false) + s == s && NamespacePrefix(true) + s == ns;
    assert PeclGetUrl + s == "http://pecl.php.net/get/foo";
    assert IsWordChar('f') && IsWordChar('o');
    RegistryLatest(false, s);
    RegistryLatest(true, s);
  }

  lemma StabilityChannel(s: string)
    requires s == "foo-beta"
    ensures Resolve(s) == Some(Dist("foo", "latest", "latest-beta", "http://pecl.php.net/get/foo-beta"))
  {
    var package, stability := "foo", "beta";
    assert NamespacePrefix(false) + package + "-" + stability == s;
    assert PeclGetUrl + package + "-" + stability == "http://pecl.php.net/get/foo-beta";
    assert "latest-" + stability == "latest-beta";
    assert IsWordChar('f') && IsWordChar('o');
    RegistryChannel(false, package, stability);
  }

  lemma PinnedVersion(s: string)
    requires s == "foo@1.2.3"
    ensures Resolve(s) == Some(Dist("foo", "1.2.3", "1.2.3", "http://pecl.php.net/get/foo/1.2.3"))
  {
    var package, version := "foo", "1.2.3";
    assert NamespacePrefix(false) + package + "@" + version == s;
    assert PeclGetUrl + package + "/" + version == "http://pecl.php.net/get/foo/1.2.3";
    assert version[..1] == "1" && version[2..3] == "2" && version[4..] == "3";
    assert IsDottedVersion(version);
    assert IsWordChar('f') && IsWordChar('o');
    RegistryPinned(false, package, version);
  }

  lemma RepositoryWithReference(s: string)
    requires s == "git://example.com/foo.git#v2"
    ensures Resolve(s) == Some(Source("foo", "v2", "v2", "git://example.com/foo.git", "git", "v2"))
  {
    var c := GitCaptures("foo", Some("v2"));
    WithReferenceSpelling(s);
    assert IsWordChar('f') && IsWordChar('o');
    RepositoryUrl("git", "example.com", c, true);
  }

  lemma WithReferenceSpelling(s: string)
    requires s == "git://example.com/foo.git#v2"
    ensures s == GitUrlText("git", "example.com", GitCaptures("foo", Some("v2")), true)
    ensures "git" + "://" + "example.com" + "/" + "foo" + Extension(true) == "git://example.com/foo.git"
  {
    WithReferenceSourceUrl();
  }

  lemma WithReferenceSourceUrl()
    ensures "git" + "://" + "example.com" + "/" + "foo" + Extension(true) == "git://example.com/foo.git"
  {
  }

  lemma RepositoryWithoutReference(s: string)
    requires s == "https://example.com/foo"
    ensures Resolve(s) == Some(Source("foo", "master", "master", "https://example.com/foo", "git", "master"))
  {
    var c := GitCaptures("foo", None);
    WithoutReferenceSpelling(s);
    assert IsWordChar('f') && IsWordChar('o');
    RepositoryUrl("https", "example.com", c, false);
  }

  lemma WithoutReferenceSpelling(s: string)
    requires s == "https://example.com/foo"
    ensures s == GitUrlText("https", "example.com", GitCaptures("foo", None), false)
    ensures "https" + "://" + "example.com" + "/" + "foo" + Extension(false) == s
  {
  }

  /** The lazy `.*?/` stops at the first slash that lets the rest match, so a slash inside the
      fragment stays in the reference. */
  lemma SlashInReference(s: string)
    requires s == "git://h/foo.git#a/bar"
    ensures Resolve(s) == Some(Source("foo", "a/bar", "a/bar", "git://h/foo.git", "git", "a/bar"))
  {
    var c := GitCaptures("foo", Some("a/bar"));
    assert GitUrlText("git", "h", c, true) == s;
    assert "git" + "://" + "h" + "/" + "foo" + Extension(true) == "git://h/foo.git";
    assert IsWordChar('f') && IsWordChar('o');
    RepositoryUrl("git", "h", c, true);
  }

  /** A `#` before the package name: the pattern still finds the package, but the fragment cut
      starts at that first `#`, so the source URL loses its path. */
  lemma HashBeforePackage(s: string)
    requires s == "git://h#x/foo"
    ensures Resolve(s) == Some(Source("foo", "master", "master", "git://h", "git", "master"))
  {
    HashBeforePackageLine(s);
    SchemeIsNotPecl(s);
    HashBeforePackageMatch(s);
    HashBeforePackageStrip(s);
    ResolveRepository(s, GitCaptures("foo", None));
  }

  lemma HashBeforePackageStrip(s: string)
    requires s == "git://h#x/foo"
    ensures StripFragment(s) == "git://h"
  {
    var u, f := "git://h", "x/foo";
    assert s == u + "#" + f && u + "" == u && '#' !in u;
    HashBeforePackageLine(s);
    StripFragmentCut(s, u, f);
  }

  lemma HashBeforePackageLine(s: string)
    requires s == "git://h#x/foo"
    ensures Line(s) == s && LineEnd(s) == "" && SchemeLength(s) == 6
  {
    assert s[|s| - 1] == 'o';
    assert s + "" == s;
    LineOfLine(s, "");
  }

  lemma HashBeforePackageMatch(s: string)
    requires s == "git://h#x/foo"
    ensures MatchGit(s) == Some(GitCaptures("foo", None))
  {
    var c := GitCaptures("foo", None);
    assert s[10..] == "foo" && s[9] == '/';
    HashBeforePackageLine(s);
    assert IsWordChar('f') && IsWordChar('o');
    assert GitParse(s, 9, c);
    forall q, c' | q < 9 ensures !GitParse(s, q, c') {
    }
    GitComplete(s, 9, c);
  }

  /** Neither pattern: a path without a scheme. */
  lemma NoDescriptor(s: string)
    requires s == "foo/bar"
    ensures Resolve(s) == None
  {
    NoDescriptorLine(s);
    NoDescriptorName(s);
    NoSchemeLetter(s);
  }

  lemma NoDescriptorLine(s: string)
    requires s == "foo/bar"
    ensures Line(s) == s && !StartsWith(s, Namespace) && s[0] == 'f'
  {
    assert s[|s| - 1] == 'r' && s[..5][0] == 'f';
    assert s + "" == s;
    LineOfLine(s, "");
  }

  lemma NoDescriptorName(s: string)
    requires s == "foo/bar"
    ensures MatchPeclName(s).None?
  {
    assert s == "foo" + "/bar";
    assert IsWordChar('f') && IsWordChar('o');
    WordPrefixOfConcat("foo", "/bar");
    HalvesOf("foo", "/bar");
  }

  /** Neither pattern: the empty specifier. */
  lemma EmptySpecifier(e: string)
    requires e == ""
    ensures Resolve(e) == None
  {
  }
}
