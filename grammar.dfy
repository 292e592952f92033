/**
 * The two specifier patterns of PackageHelper: RE_PECL_PACKAGE (a PECL
 * registry name with an optional stability channel or version) and
 * RE_GIT_PACKAGE (a git or HTTP(S) repository URL with an optional
 * reference). Each pattern is given twice: as a recogniser that returns the
 * named captures, and as a declarative description of the strings it
 * accepts; the lemmas show that the two agree.
 */
module Grammar {
  import opened Wrappers
  import opened Pcre

  // ---------------------------------------------------------------------
  // RE_PECL_PACKAGE: ^(?:pecl/)?(?<package>\w+)
  //                  (?:-(?<stability>beta|stable|alpha)|@(?<version>...))?$

  const Namespace := "pecl/"

  function NamespacePrefix(namespaced: bool): string {
    if namespaced then Namespace else ""
  }

  /** `beta|stable|alpha` */
  predicate IsStability(t: string) {
    t == "beta" || t == "stable" || t == "alpha"
  }

  /** `\d+(?:\.\d+){1,2}`: two or three dot-separated runs of digits. */
  predicate IsDottedVersion(v: string) {
    exists i | 0 < i < |v| :: v[i] == '.' && IsDigits(v[..i]) &&
      (IsDigits(v[i + 1..]) ||
       exists j | i + 1 < j < |v| :: v[j] == '.' && IsDigits(v[i + 1..j]) && IsDigits(v[j + 1..]))
  }

  /** `[1-2]\d{3}[0-1]\d[0-3]\d`: eight digits shaped like YYYYMMDD; only the
      first digit of the year, the month and the day is restricted, so this is
      no calendar check. */
  predicate IsDateVersion(v: string) {
    |v| == 8 && '1' <= v[0] <= '2' && IsDigit(v[1]) && IsDigit(v[2]) && IsDigit(v[3]) &&
    '0' <= v[4] <= '1' && IsDigit(v[5]) && '0' <= v[6] <= '3' && IsDigit(v[7])
  }

  predicate IsPeclVersion(v: string) {
    IsDottedVersion(v) || IsDateVersion(v)
  }

  /** The named captures of a registry match; None stands for a group that took no part in it. */
  datatype PeclCaptures = PeclCaptures(package: string, stability: Option<string>, version: Option<string>)

  /** The captures the registry pattern can produce: a word package and at most one of the two suffixes. */
  predicate ValidPecl(c: PeclCaptures) {
    IsWord(c.package) &&
    (c.stability.None? || c.version.None?) &&
    (c.stability.Some? ==> IsStability(c.stability.value)) &&
    (c.version.Some? ==> IsPeclVersion(c.version.value))
  }

  function PeclSuffix(c: PeclCaptures): string {
    (if c.stability.Some? then "-" + c.stability.value else "") +
    (if c.version.Some? then "@" + c.version.value else "")
  }

  /** The specifier that spells out captures `c`, with or without the namespace. */
  function PeclText(namespaced: bool, c: PeclCaptures): string {
    NamespacePrefix(namespaced) + (c.package + PeclSuffix(c))
  }

  /** The registry pattern applied to the text between `^` and `$`: the optional namespace. */
  function MatchPeclLine(t: string): Option<PeclCaptures> {
    MatchPeclName(StripNamespace(t))
  }

  function StripNamespace(t: string): string {
    if StartsWith(t, Namespace) then t[|Namespace|..] else t
  }

  /** The greedy package run, which must not be empty, and what follows it. */
  function MatchPeclName(rest: string): (r: Option<PeclCaptures>)
    ensures r.Some? ==> ValidPecl(r.value)
  {
    var n := WordPrefixLen(rest);
    if n == 0 then None else MatchPeclSuffix(rest[..n], rest[n..])
  }

  /** The optional suffix group and `$`, on what follows the greedy package run. */
  function MatchPeclSuffix(package: string, tail: string): Option<PeclCaptures> {
    if tail == "" then Some(PeclCaptures(package, None, None))
    else if tail[0] == '-' && IsStability(tail[1..]) then Some(PeclCaptures(package, Some(tail[1..]), None))
    else if tail[0] == '@' && IsPeclVersion(tail[1..]) then Some(PeclCaptures(package, None, Some(tail[1..])))
    else None
  }

  /** `preg_match(RE_PECL_PACKAGE, s, $matches) > 0`, with the captures it leaves in `$matches`. */
  function MatchPecl(s: string): (r: Option<PeclCaptures>)
    ensures r.Some? ==> ValidPecl(r.value)
  {
    MatchPeclLine(Line(s))
  }

  /** Every character of a version is a digit or a dot. */
  lemma VersionChars(v: string)
    requires IsPeclVersion(v)
    ensures forall k :: 0 <= k < |v| ==> IsDigit(v[k]) || v[k] == '.'
  {
    if IsDottedVersion(v) {
      var i :| 0 < i < |v| && v[i] == '.' && IsDigits(v[..i]) &&
        (IsDigits(v[i + 1..]) ||
         exists j | i + 1 < j < |v| :: v[j] == '.' && IsDigits(v[i + 1..j]) && IsDigits(v[j + 1..]));
      forall k | 0 <= k < |v| ensures IsDigit(v[k]) || v[k] == '.' {
        if k < i {
          assert v[..i][k] == v[k];
        } else if k > i {
          if IsDigits(v[i + 1..]) {
            assert v[i + 1..][k - i - 1] == v[k];
          } else {
            var j :| i + 1 < j < |v| && v[j] == '.' && IsDigits(v[i + 1..j]) && IsDigits(v[j + 1..]);
            if k < j {
              assert v[i + 1..j][k - i - 1] == v[k];
            } else if k > j {
              assert v[j + 1..][k - j - 1] == v[k];
            }
          }
        }
      }
    }
  }

  /** What follows the package in a registry specifier: no word character first, no slash, no newline. */
  lemma PeclSuffixChars(c: PeclCaptures)
    requires ValidPecl(c)
    ensures PeclSuffix(c) == [] || !IsWordChar(PeclSuffix(c)[0])
    ensures '/' !in PeclSuffix(c) && '\n' !in PeclSuffix(c)
    ensures '/' !in c.package && '\n' !in c.package
  {
    if c.version.Some? {
      VersionChars(c.version.value);
    }
  }

  lemma PeclSuffixSound(package: string, tail: string)
    requires MatchPeclSuffix(package, tail).Some?
    ensures MatchPeclSuffix(package, tail).value.package == package
    ensures tail == PeclSuffix(MatchPeclSuffix(package, tail).value)
  {
    if tail != "" {
      assert tail == [tail[0]] + tail[1..];
    }
  }

  lemma NamespaceSplit(t: string)
    ensures t == NamespacePrefix(StartsWith(t, Namespace)) + StripNamespace(t)
  {
    if StartsWith(t, Namespace) {
      SplitAt(t, |Namespace|);
    }
  }

  lemma PeclNameSound(rest: string)
    requires MatchPeclName(rest).Some?
    ensures rest == MatchPeclName(rest).value.package + PeclSuffix(MatchPeclName(rest).value)
  {
    var n := WordPrefixLen(rest);
    var package, tail := rest[..n], rest[n..];
    assert MatchPeclName(rest) == MatchPeclSuffix(package, tail);
    PeclSuffixSound(package, tail);
    SplitAt(rest, n);
  }

  lemma PeclLineSound(t: string)
    requires MatchPeclLine(t).Some?
    ensures t == PeclText(StartsWith(t, Namespace), MatchPeclLine(t).value)
  {
    NamespaceSplit(t);
    PeclNameSound(StripNamespace(t));
  }

  /** Soundness: whatever the recogniser accepts is the spelling of its captures. */
  lemma PeclSound(s: string)
    requires MatchPecl(s).Some?
    ensures Line(s) == PeclText(StartsWith(Line(s), Namespace), MatchPecl(s).value)
  {
    PeclLineSound(Line(s));
  }

  lemma PeclSuffixComplete(c: PeclCaptures)
    requires ValidPecl(c)
    ensures MatchPeclSuffix(c.package, PeclSuffix(c)) == Some(c)
  {
    var tail := PeclSuffix(c);
    if c.stability.Some? {
      assert tail == "-" + c.stability.value;
      assert tail[1..] == c.stability.value;
    } else if c.version.Some? {
      assert tail == "@" + c.version.value;
      assert tail[1..] == c.version.value;
    }
  }

  lemma PeclLineComplete(namespaced: bool, c: PeclCaptures)
    requires ValidPecl(c)
    ensures MatchPeclLine(PeclText(namespaced, c)) == Some(c)
  {
    var t := PeclText(namespaced, c);
    var body := c.package + PeclSuffix(c);
    PeclSuffixChars(c);
    var rest := if StartsWith(t, Namespace) then t[|Namespace|..] else t;
    assert rest == body by {
      if namespaced {
        assert t[..|Namespace|] == Namespace;
        assert t[|Namespace|..] == body;
      } else {
        assert t == body;
        if |body| >= |Namespace| {
          assert body[..|Namespace|][4] == body[4] && body[4] in body;
        }
      }
    }
    WordPrefixOfConcat(c.package, PeclSuffix(c));
    assert body[..|c.package|] == c.package && body[|c.package|..] == PeclSuffix(c);
    PeclSuffixComplete(c);
  }

  /** Completeness: the spelling of any captures the pattern can produce matches, with exactly those
      captures, with or without the namespace and with or without one final newline. */
  lemma PeclComplete(namespaced: bool, c: PeclCaptures)
    requires ValidPecl(c)
    ensures MatchPecl(PeclText(namespaced, c)) == Some(c)
    ensures MatchPecl(PeclText(namespaced, c) + "\n") == Some(c)
  {
    var t := PeclText(namespaced, c);
    PeclSuffixChars(c);
    assert '\n' !in t;
    assert t[|t| - 1] in t;
    LineOfLine(t, "");
    LineOfLine(t, "\n");
    assert t + "" == t;
    PeclLineComplete(namespaced, c);
  }

  // ---------------------------------------------------------------------
  // RE_GIT_PACKAGE: ^(?:git|https?)://.*?/(?P<package>\w+)
  //                 (?:(?:\.git|)(?:\#(?P<reference>.*?)|))?$

  /** The named captures of a repository match; `reference` is present exactly when a `#` fragment is. */
  datatype GitCaptures = GitCaptures(package: string, reference: Option<string>)

  predicate IsScheme(scheme: string) {
    scheme == "git" || scheme == "http" || scheme == "https"
  }

  /** `(?:git|https?)://`: the length of the scheme prefix `t` starts with, or 0 when it has none. */
  function SchemeLength(t: string): nat {
    if StartsWith(t, "git://") then 6
    else if StartsWith(t, "http://") then 7
    else if StartsWith(t, "https://") then 8
    else 0
  }

  /** Every scheme starts with `g` or `h`. */
  lemma NoSchemeLetter(t: string)
    requires t == [] || (t[0] != 'g' && t[0] != 'h')
    ensures SchemeLength(t) == 0
  {
    if |t| >= 6 {
      assert t[..6][0] == t[0];
    }
  }

  function Extension(dotGit: bool): string {
    if dotGit then ".git" else ""
  }

  function Fragment(reference: Option<string>): string {
    if reference.Some? then "#" + reference.value else ""
  }

  /** What follows the lazy `.*?/`: the package, an optional `.git`, an optional fragment. */
  function GitTail(c: GitCaptures, dotGit: bool): string {
    c.package + Extension(dotGit) + Fragment(c.reference)
  }

  /** Declarative reading of the pattern: line `t` matches with the lazy `.*?` ending just before
      the slash at `p`, giving captures `c` (the dot never crosses a newline; no other part can take one). */
  predicate GitParse(t: string, p: int, c: GitCaptures) {
    NoNewline(t) && 0 < SchemeLength(t) <= p < |t| && t[p] == '/' && IsWord(c.package) &&
    (t[p + 1..] == GitTail(c, false) || t[p + 1..] == GitTail(c, true))
  }

  /** `.*?` is lazy: the match uses the first slash from which the rest of the pattern succeeds. */
  ghost predicate Leftmost(t: string, p: int) {
    forall q, c :: q < p ==> !GitParse(t, q, c)
  }

  /** `(?:(?:\.git|)(?:\#(?P<reference>.*?)|))?$` on the text after the package: the reference capture
      (None when no fragment), or None when the text does not fit. */
  function GitRest(x: string): Option<Option<string>> {
    if x == "" || x == ".git" then Some(None)
    else if x[0] == '#' then Some(Some(x[1..]))
    else if StartsWith(x, ".git#") then Some(Some(x[5..]))
    else None
  }

  /** The rest of the pattern tried from the slash at `p`: `\w+` is greedy and cannot give back,
      since what may follow the package never starts with a word character. */
  function TailAt(t: string, p: nat): Option<GitCaptures>
    requires p < |t|
  {
    if t[p] != '/' then None
    else
      var rest := t[p + 1..];
      var n := WordPrefixLen(rest);
      if n == 0 then None
      else match GitRest(rest[n..])
        case None => None
        case Some(reference) => Some(GitCaptures(rest[..n], reference))
  }

  /** The first position at or after `from` where the rest of the pattern succeeds. */
  function FirstTail(t: string, from: nat): (r: Option<nat>)
    decreases |t| - from
    ensures r.Some? ==> from <= r.value < |t| && TailAt(t, r.value).Some?
    ensures forall q :: from <= q < |t| && (r.None? || q < r.value) ==> TailAt(t, q).None?
  {
    if from >= |t| then None
    else if TailAt(t, from).Some? then Some(from)
    else FirstTail(t, from + 1)
  }

  /** The repository pattern applied to the text between `^` and `$`. */
  function MatchGitLine(t: string): Option<GitCaptures> {
    if NoNewline(t) && SchemeLength(t) > 0 then
      match FirstTail(t, SchemeLength(t))
      case None => None
      case Some(p) => TailAt(t, p)
    else None
  }

  /** `preg_match(RE_GIT_PACKAGE, s, $matches) > 0`, with the captures it leaves in `$matches`. */
  function MatchGit(s: string): (r: Option<GitCaptures>)
    ensures r.Some? ==> IsWord(r.value.package)
  {
    MatchGitLine(Line(s))
  }

  lemma GitRestShape(x: string, r: Option<string>)
    ensures GitRest(x) == Some(r) <==> x == Fragment(r) || x == ".git" + Fragment(r)
  {
    if r.Some? {
      var y := ".git" + Fragment(r);
      assert y == ".git#" + r.value;
      assert y[..5] == ".git#" && y[5..] == r.value && y[0] == '.';
      assert ("#" + r.value)[1..] == r.value;
    }
    if GitRest(x) == Some(r) && x != "" && x != ".git" {
      if x[0] == '#' {
        assert x == "#" + x[1..];
      } else {
        assert x == x[..5] + x[5..];
      }
    }
  }

  /** From a slash at `p`, the recogniser answers exactly the declarative reading. */
  lemma TailAtParse(t: string, p: nat, c: GitCaptures)
    requires NoNewline(t) && 0 < SchemeLength(t) <= p < |t|
    ensures TailAt(t, p) == Some(c) <==> GitParse(t, p, c)
  {
    if TailAt(t, p) == Some(c) {
      TailAtSound(t, p, c);
    }
    if GitParse(t, p, c) {
      TailAtComplete(t, p, c);
    }
  }

  lemma TailAtSound(t: string, p: nat, c: GitCaptures)
    requires NoNewline(t) && 0 < SchemeLength(t) <= p < |t|
    requires TailAt(t, p) == Some(c)
    ensures GitParse(t, p, c)
  {
    var rest := t[p + 1..];
    var n := WordPrefixLen(rest);
    RestSound(rest, n, c);
  }

  /** The text after the slash of a parse: the package run, then what GitRest reads. */
  lemma RestSound(rest: string, n: nat, c: GitCaptures)
    requires 0 < n <= |rest| && c.package == rest[..n] && GitRest(rest[n..]) == Some(c.reference)
    ensures rest == GitTail(c, false) || rest == GitTail(c, true)
  {
    var after := rest[n..];
    GitRestShape(after, c.reference);
    SplitAt(rest, n);
    var dotGit := after != Fragment(c.reference);
    assert after == Extension(dotGit) + Fragment(c.reference) by {
      assert "" + Fragment(c.reference) == Fragment(c.reference);
    }
    Regroup(c.package, Extension(dotGit), Fragment(c.reference));
  }

  lemma TailAtComplete(t: string, p: nat, c: GitCaptures)
    requires GitParse(t, p, c)
    ensures TailAt(t, p) == Some(c)
  {
    var rest := t[p + 1..];
    var dotGit := rest != GitTail(c, false);
    var after := Extension(dotGit) + Fragment(c.reference);
    assert rest == c.package + after;
    WordPrefixOfConcat(c.package, after);
    HalvesOf(c.package, after);
    GitRestShape(after, c.reference);
  }

  /** Soundness: a repository match parses at its slash, and no earlier slash parses. */
  lemma GitSound(s: string)
    requires MatchGit(s).Some?
    ensures exists p :: GitParse(Line(s), p, MatchGit(s).value) && Leftmost(Line(s), p)
  {
    var t, c := Line(s), MatchGit(s).value;
    var e := SchemeLength(t);
    var p := FirstTail(t, e).value;
    TailAtParse(t, p, c);
    forall q, c' | q < p ensures !GitParse(t, q, c') {
      if e <= q {
        TailAtParse(t, q, c');
      }
    }
    assert GitParse(t, p, c) && Leftmost(t, p);
  }

  lemma GitLineComplete(t: string, p: int, c: GitCaptures)
    requires GitParse(t, p, c) && Leftmost(t, p)
    ensures MatchGitLine(t) == Some(c)
  {
    var e := SchemeLength(t);
    TailAtParse(t, p, c);
    var r := FirstTail(t, e);
    assert r.Some?;
    var c' := TailAt(t, r.value).value;
    TailAtParse(t, r.value, c');
    assert GitParse(t, r.value, c');
    assert r.value == p;
  }

  /** Completeness: the leftmost parse is what the recogniser returns. */
  lemma GitComplete(s: string, p: int, c: GitCaptures)
    requires GitParse(Line(s), p, c) && Leftmost(Line(s), p)
    ensures MatchGit(s) == Some(c)
  {
    GitLineComplete(Line(s), p, c);
  }

  /** A string outside the repository pattern has no parse at all. */
  lemma GitNoMatch(s: string)
    requires MatchGit(s).None?
    ensures forall p, c :: !GitParse(Line(s), p, c)
  {
    var t := Line(s);
    forall p, c ensures !GitParse(t, p, c) {
      if 0 <= p < |t| && NoNewline(t) && 0 < SchemeLength(t) <= p {
        TailAtParse(t, p, c);
      }
    }
  }

  /** A repository URL spelled out from its parts. */
  function GitUrlText(scheme: string, lead: string, c: GitCaptures, dotGit: bool): string {
    scheme + "://" + lead + "/" + GitTail(c, dotGit)
  }

  /** In the tail of a parse, a slash can only stand inside the fragment. */
  lemma SlashAfterHash(x: string, c: GitCaptures, dotGit: bool, m: nat)
    requires x == GitTail(c, dotGit) && IsWord(c.package)
    requires m < |x| && x[m] == '/'
    ensures '#' in x[..m]
  {
    var k := |c.package| + |Extension(dotGit)|;
    assert x[..k] == c.package + Extension(dotGit);
    assert '/' !in c.package + Extension(dotGit);
    assert x[m] in x[..k] || m >= k;
    assert x[k..] == Fragment(c.reference);
    assert x[k] == '#';
    assert x[..m][k] == '#';
  }

  /** What follows position `j` of the lead in a URL spelled by GitUrlText. */
  lemma UrlFrom(scheme: string, lead: string, c: GitCaptures, dotGit: bool, j: nat)
    requires j <= |lead|
    ensures GitUrlText(scheme, lead, c, dotGit)[|scheme| + 3 + j..] == lead[j..] + ("/" + GitTail(c, dotGit))
  {
    var head, tail := scheme + "://", GitTail(c, dotGit);
    Regroup(head + lead, "/", tail);
    Regroup(head, lead, "/" + tail);
    DropAfter(head, lead + ("/" + tail), |head| + j);
    DropWithin(lead, "/" + tail, j);
  }

  /** Inside a lead free of `#`, no slash can start a parse of a URL spelled by GitUrlText. */
  lemma NoParseInLead(scheme: string, lead: string, c: GitCaptures, dotGit: bool, q: int, c': GitCaptures)
    requires IsScheme(scheme) && '#' !in lead && IsWord(c.package)
    ensures q < |scheme| + 3 + |lead| ==> !GitParse(GitUrlText(scheme, lead, c, dotGit), q, c')
  {
    var t := GitUrlText(scheme, lead, c, dotGit);
    var e := |scheme| + 3;
    UrlSchemeLength(scheme, lead, c, dotGit);
    if q < e + |lead| && GitParse(t, q, c') {
      var j := q - e + 1;
      var x := t[q + 1..];
      UrlFrom(scheme, lead, c, dotGit, j);
      HalvesOf(lead[j..], "/" + GitTail(c, dotGit));
      var dotGit' := x != GitTail(c', false);
      SlashAfterHash(x, c', dotGit', |lead[j..]|);
    }
  }

  /** The length of a scheme prefix spelled from one of the three schemes. */
  lemma SchemeOfUrl(scheme: string, rest: string)
    requires IsScheme(scheme)
    ensures SchemeLength(scheme + "://" + rest) == |scheme| + 3
  {
    var t := scheme + "://" + rest;
    assert t[..|scheme| + 3] == scheme + "://";
    assert t[0] == scheme[0] && t[3] == (scheme + "://")[3] && t[4] == (scheme + "://")[4];
  }

  lemma UrlSchemeLength(scheme: string, lead: string, c: GitCaptures, dotGit: bool)
    requires IsScheme(scheme)
    ensures SchemeLength(GitUrlText(scheme, lead, c, dotGit)) == |scheme| + 3
  {
    var head, tail := scheme + "://", GitTail(c, dotGit);
    Regroup(head + lead, "/", tail);
    Regroup(head, lead, "/" + tail);
    SchemeOfUrl(scheme, lead + ("/" + tail));
  }

  /** No newline in a URL spelled from newline-free parts. */
  lemma UrlNoNewline(scheme: string, lead: string, c: GitCaptures, dotGit: bool)
    requires IsScheme(scheme) && NoNewline(lead)
    requires IsWord(c.package) && (c.reference.Some? ==> NoNewline(c.reference.value))
    ensures NoNewline(GitUrlText(scheme, lead, c, dotGit))
  {
    assert '\n' !in c.package;
    assert '\n' !in GitTail(c, dotGit);
    assert '\n' !in scheme;
  }

  /** A URL spelled by GitUrlText parses at the slash just after `lead`, and nowhere earlier. */
  lemma GitUrlParse(scheme: string, lead: string, c: GitCaptures, dotGit: bool)
    requires IsScheme(scheme) && '#' !in lead && NoNewline(lead)
    requires IsWord(c.package) && (c.reference.Some? ==> NoNewline(c.reference.value))
    ensures var t, p := GitUrlText(scheme, lead, c, dotGit), |scheme| + 3 + |lead|;
      NoNewline(t) && GitParse(t, p, c) && Leftmost(t, p)
  {
    UrlNoNewline(scheme, lead, c, dotGit);
    UrlParseAt(scheme, lead, c, dotGit);
    UrlLeftmost(scheme, lead, c, dotGit);
  }

  lemma UrlParseAt(scheme: string, lead: string, c: GitCaptures, dotGit: bool)
    requires IsScheme(scheme) && NoNewline(lead)
    requires IsWord(c.package) && (c.reference.Some? ==> NoNewline(c.reference.value))
    ensures GitParse(GitUrlText(scheme, lead, c, dotGit), |scheme| + 3 + |lead|, c)
  {
    var t := GitUrlText(scheme, lead, c, dotGit);
    var tail := GitTail(c, dotGit);
    var p := |scheme| + 3 + |lead|;
    UrlNoNewline(scheme, lead, c, dotGit);
    UrlSchemeLength(scheme, lead, c, dotGit);
    UrlFrom(scheme, lead, c, dotGit, |lead|);
    assert lead[|lead|..] == "";
    assert t[p..] == "/" + tail;
    assert t[p] == '/' && t[p + 1..] == tail;
  }

  lemma UrlLeftmost(scheme: string, lead: string, c: GitCaptures, dotGit: bool)
    requires IsScheme(scheme) && '#' !in lead && IsWord(c.package)
    ensures Leftmost(GitUrlText(scheme, lead, c, dotGit), |scheme| + 3 + |lead|)
  {
    var t := GitUrlText(scheme, lead, c, dotGit);
    forall q, c' | q < |scheme| + 3 + |lead| ensures !GitParse(t, q, c') {
      NoParseInLead(scheme, lead, c, dotGit, q, c');
    }
  }

  /** Round trip for repository URLs: when the part between `://` and the slash before the
      package holds no `#`, the package and the fragment come back as the captures. */
  lemma GitUrl(scheme: string, lead: string, c: GitCaptures, dotGit: bool)
    requires IsScheme(scheme) && '#' !in lead && NoNewline(lead)
    requires IsWord(c.package) && (c.reference.Some? ==> NoNewline(c.reference.value))
    ensures MatchGit(GitUrlText(scheme, lead, c, dotGit)) == Some(c)
    ensures MatchGit(GitUrlText(scheme, lead, c, dotGit) + "\n") == Some(c)
  {
    var t := GitUrlText(scheme, lead, c, dotGit);
    var p := |scheme| + 3 + |lead|;
    GitUrlParse(scheme, lead, c, dotGit);
    assert t[|t| - 1] in t;
    LineOfLine(t, "");
    LineOfLine(t, "\n");
    assert t + "" == t;
    GitComplete(t, p, c);
    GitComplete(t + "\n", p, c);
  }

  /** The two patterns never both match: a registry specifier has no `:`, so it has no scheme. */
  lemma SchemeIsNotPecl(t: string)
    ensures SchemeLength(t) > 0 ==> MatchPeclLine(t).None?
  {
    if SchemeLength(t) > 0 {
      var k := SchemeLength(t) - 3;
      assert t[k] == ':';
      assert forall i :: 0 <= i < k ==> IsWordChar(t[i]);
      assert t == t[..k] + t[k..];
      WordPrefixOfConcat(t[..k], t[k..]);
      assert !StartsWith(t, Namespace);
    }
  }

  lemma PeclExcludesGit(s: string)
    ensures MatchPecl(s).Some? ==> MatchGit(s).None?
  {
    SchemeIsNotPecl(Line(s));
  }
}
