# PackageHelper::download, modelled in Dafny

Pickle's `PackageHelper::download` takes a package specifier and turns it into a
package descriptor. It then hands that descriptor to a downloader, which fetches the
package into `path/<package>`. A specifier takes one of two forms:

- **Registry form.** This is matched by `RE_PECL_PACKAGE`. It is an optional `pecl/`
  namespace, a package name of word characters, and then either nothing, a stability
  channel `-beta|-stable|-alpha`, or a pinned version `@1.2` / `@1.2.3` / `@YYYYMMDD`.
  It gives an archive descriptor with `distUrl` `http://pecl.php.net/get/<package>`.
  The URL is extended by `-<stability>` or `/<version>`. The version defaults to
  `latest`, and the pretty version to `latest-<stability>`, where the stability
  defaults to `stable`.
- **Repository form.** This is matched by `RE_GIT_PACKAGE`. It is a `git://`,
  `http://` or `https://` URL, with a lazily matched path up to the slash before the
  package name, an optional `.git`, and an optional `#reference` fragment. It gives a
  source descriptor. The version, pretty version and source reference are all the
  fragment, or `master`. The source URL is the specifier with the fragment cut off, and
  the source type is `git`.

The registry pattern is tried first. The repository pattern is tried only when no
package was built.

The project has the following modules:

- `Wrappers`: the `Option` type.
- `Pcre`: the parts of PCRE the two patterns rely on.
  - `\w` and `\d`.
  - The dot, which never crosses a newline.
  - `$` without the `D` modifier, which lets one final newline stay outside the match
    (`Line`, `LineEnd`).
- `Grammar`: recognisers for the two patterns (`MatchPecl`, `MatchGit`). Each is given
  with a declarative reading of its pattern (`PeclText`/`ValidPecl`,
  `GitParse`/`Leftmost`), and lemmas prove that the two agree in both directions. For
  the repository pattern this includes the laziness of `.*?` (the leftmost slash from
  which the rest matches) and a round trip for well-formed URLs.
- `Resolution`: the descriptor datatype and `Resolve`. `Resolve` is the specification
  of `download`'s result: the registry branch (`PeclDescriptor`), the repository branch
  (`GitDescriptor`, with `StripFragment` modelling `preg_replace('/#.*$/', '', $url)`),
  and no descriptor. Its lemmas state the three registry forms, the repository
  descriptor, the branch choice, namespace irrelevance and the effect of a final
  newline.
- `PackageHelper`: `download` itself, as imperative code.
  - A `Package` class whose setters fill four optional fields.
  - A `DownloadLog` that records each `$downloader->download($package, $target)` call.
  - `Build` (lines 82-119) and `Download` (the whole method), proved against `Resolve`.
- `ResolutionExamples`: concrete specifiers and their descriptors. These are derived
  from the general lemmas, among them the `git://h#x/foo` quirk described below.

Points where the code decides and this model follows it:

- **Empty fragment.** The reference capture is used whenever it is set
  (`isset($matches['reference'])`, line 111). So `git://h/foo#` gives version, pretty
  version and source reference "", not `master`. An empty capture is not treated as
  absent in this branch, unlike the `'' !==` tests of the registry branch (lines 90
  and 96).
- **`#` before the package.** The fragment cut (line 114) starts at the first `#` of
  the last line, even when that `#` comes before the package. So `git://h#x/foo` has
  package `foo` and reference `master`, but source URL `git://h` (lemma
  `ResolutionExamples.HashBeforePackage`).
- **Final newline.** Neither pattern carries the `D` modifier, so a specifier ending in
  one newline matches as if the newline were absent. `preg_replace` keeps that newline
  in the source URL (lemma `Resolution.FinalNewline`). The model covers this instead of
  restricting specifiers to newline-free strings.

## Model

| member | source | states |
|---|---|---|
| Pcre.WordPrefixLen | src/Console/Helper/PackageHelper.php:19 | what greedy `\w+` takes: every character before the returned length is a word character, and the one at it (if any) is not |
| Pcre.WordPrefixOfConcat | src/Console/Helper/PackageHelper.php:19 | a word run followed by a non-word character, or by nothing, is exactly what the greedy `\w+` takes |
| Pcre.Line | src/Console/Helper/PackageHelper.php:24 | the text an anchored pattern must cover, plus the newline `$` may leave, is the whole subject |
| Pcre.LineEnd | src/Console/Helper/PackageHelper.php:24 | `$` leaves out either nothing or exactly one newline, and a newline only when the subject ends in one |
| Pcre.LineOfLine | src/Console/Helper/PackageHelper.php:33 | a text that does not end in a newline, with or without one newline appended, has that text as its line |
| Pcre.FirstIndex | src/Console/Helper/PackageHelper.php:114 | gives no position exactly when the character is absent; otherwise the position of its first occurrence |
| Pcre.LineStart | src/Console/Helper/PackageHelper.php:114 | the start of the last line: no newline after it, and a newline (or the start of the text) just before it |
| Grammar.MatchPeclName | src/Console/Helper/PackageHelper.php:19-23 | a match of the package run and its suffix gives captures the pattern can produce |
| Grammar.MatchPecl | src/Console/Helper/PackageHelper.php:17-24 | any registry match has a word package, at most one of stability and version, a stability from beta/stable/alpha, and a dotted or date version |
| Grammar.VersionChars | src/Console/Helper/PackageHelper.php:22 | a pinned version consists only of digits and dots |
| Grammar.PeclSuffixChars | src/Console/Helper/PackageHelper.php:19-23 | the suffix never starts with a word character, and neither the suffix nor the package holds a slash or a newline |
| Grammar.PeclSuffixSound | src/Console/Helper/PackageHelper.php:20-23 | a suffix that matches spells out exactly its captures |
| Grammar.PeclSuffixComplete | src/Console/Helper/PackageHelper.php:20-23 | the spelling of any valid captures' suffix matches with those captures |
| Grammar.PeclNameSound | src/Console/Helper/PackageHelper.php:19-23 | a matched name-and-suffix text is the package followed by the suffix of its captures |
| Grammar.PeclLineSound | src/Console/Helper/PackageHelper.php:17-24 | a matched line is the optional namespace, the package and the suffix of its captures |
| Grammar.PeclSound | src/Console/Helper/PackageHelper.php:17-24 | soundness: whenever the registry pattern matches, the subject's line spells out its captures |
| Grammar.PeclLineComplete | src/Console/Helper/PackageHelper.php:17-24 | every valid capture set, spelled with or without the namespace, is matched with exactly those captures |
| Grammar.PeclComplete | src/Console/Helper/PackageHelper.php:17-24 | completeness: every spelled-out valid capture set matches with those captures, also when followed by one newline |
| Grammar.NoSchemeLetter | src/Console/Helper/PackageHelper.php:27 | a text that does not start with `g` or `h` has no scheme prefix |
| Grammar.FirstTail | src/Console/Helper/PackageHelper.php:27 | the lazy `.*?/`: the first position from which the rest of the pattern matches, and none before it |
| Grammar.MatchGit | src/Console/Helper/PackageHelper.php:26-33 | any repository match captures a word package |
| Grammar.GitRestShape | src/Console/Helper/PackageHelper.php:29-32 | the text after the package fits the pattern exactly when it is a fragment, or `.git` followed by a fragment, with the same reference |
| Grammar.TailAtParse | src/Console/Helper/PackageHelper.php:27-32 | trying the rest of the pattern at a slash succeeds with given captures if and only if the line parses there with them |
| Grammar.GitSound | src/Console/Helper/PackageHelper.php:26-33 | soundness: a repository match parses its line at some slash, and no earlier slash gives any parse |
| Grammar.GitLineComplete | src/Console/Helper/PackageHelper.php:26-33 | a parse at the leftmost parsing slash is what the recogniser returns for the line |
| Grammar.GitComplete | src/Console/Helper/PackageHelper.php:26-33 | completeness: a parse at the leftmost parsing slash of the subject's line is the match |
| Grammar.GitNoMatch | src/Console/Helper/PackageHelper.php:26-33 | when the repository pattern fails, the line has no parse at any slash |
| Grammar.SlashAfterHash | src/Console/Helper/PackageHelper.php:28-31 | a slash after the parsed slash can only stand inside the fragment |
| Grammar.NoParseInLead | src/Console/Helper/PackageHelper.php:27 | when the path holds no `#`, no slash inside the path gives a parse |
| Grammar.SchemeOfUrl | src/Console/Helper/PackageHelper.php:27 | `git://`, `http://` and `https://` are recognised with their own lengths |
| Grammar.UrlParseAt | src/Console/Helper/PackageHelper.php:27-32 | a built URL parses at the slash before its package, with its captures |
| Grammar.UrlLeftmost | src/Console/Helper/PackageHelper.php:27 | when the path holds no `#`, the slash before the package is the leftmost parsing slash |
| Grammar.GitUrlParse | src/Console/Helper/PackageHelper.php:26-33 | a built URL whose path holds no `#` parses at the slash before its package, and at no earlier slash |
| Grammar.GitUrl | src/Console/Helper/PackageHelper.php:26-33 | round trip: a URL built from a scheme, a `#`-free path, a package, an optional `.git` and a fragment matches with that package and reference, also with one final newline |
| Grammar.SchemeIsNotPecl | src/Console/Helper/PackageHelper.php:17-27 | a line that starts with a repository scheme never matches the registry pattern |
| Grammar.PeclExcludesGit | src/Console/Helper/PackageHelper.php:17-33 | no specifier matches both patterns |
| Resolution.StripFragment | src/Console/Helper/PackageHelper.php:114 | the cut starts at the first `#` of the last line (the subject is unchanged when that line holds none), and a final newline is kept |
| Resolution.StripFragmentCut | src/Console/Helper/PackageHelper.php:114 | with a single-line subject: no `#` leaves it unchanged, and otherwise it is cut to the text before its first `#`, with any final newline kept |
| Resolution.StripSingleLine | src/Console/Helper/PackageHelper.php:114 | a newline-free text followed by nothing or by a `#` fragment is cut back to that text |
| Resolution.StripFragmentNewline | src/Console/Helper/PackageHelper.php:114 | appending one newline to the subject appends it to the cut result |
| Resolution.ResolveRegistry | src/Console/Helper/PackageHelper.php:87-105 | a registry match gives the archive descriptor built from its captures |
| Resolution.ResolveRepository | src/Console/Helper/PackageHelper.php:110-116 | a repository match, when the registry pattern fails, gives the source descriptor built from its captures |
| Resolution.LatestDescriptor | src/Console/Helper/PackageHelper.php:88-104 | no suffix: version `latest`, pretty version `latest-stable`, URL `http://pecl.php.net/get/<package>` |
| Resolution.ChannelDescriptor | src/Console/Helper/PackageHelper.php:88-104 | a stability: version `latest`, pretty version `latest-<stability>`, URL extended by `-<stability>` |
| Resolution.PinnedDescriptor | src/Console/Helper/PackageHelper.php:96-104 | a non-empty version: it is the version and the pretty version, and the URL is extended by `/<version>` |
| Resolution.VersionNotEmpty | src/Console/Helper/PackageHelper.php:22 | a captured version is never empty, so the `'' !==` test on line 96 always holds for it |
| Resolution.RegistryLatest | src/Console/Helper/PackageHelper.php:87-105 | `[pecl/]<package>` resolves to the latest-stable archive of that package |
| Resolution.RegistryChannel | src/Console/Helper/PackageHelper.php:87-105 | `[pecl/]<package>-<stability>` resolves to the latest archive of that channel, with the channel in the URL |
| Resolution.RegistryPinned | src/Console/Helper/PackageHelper.php:87-105 | `[pecl/]<package>@<version>` resolves to that version's archive |
| Resolution.RegistryShape | src/Console/Helper/PackageHelper.php:88-104 | the descriptor of any valid captures takes one of the three registry forms, for the line that spells them |
| Resolution.RegistryForms | src/Console/Helper/PackageHelper.php:87-105 | every archive descriptor is one of the three registry forms, with name, version, pretty version and URL fixed by the specifier's line |
| Resolution.NamespaceMatchLine | src/Console/Helper/PackageHelper.php:18 | a `pecl/` prefix on a line not already namespaced changes no registry match, and the line has no scheme |
| Resolution.NamespaceMatch | src/Console/Helper/PackageHelper.php:18 | a `pecl/` prefix on a specifier not already namespaced changes no registry match, and the repository pattern cannot match |
| Resolution.NamespaceIrrelevant | src/Console/Helper/PackageHelper.php:18 | `pecl/<x>` resolves like `<x>` when `<x>` is a registry specifier, and to nothing otherwise |
| Resolution.RepositorySourceUrl | src/Console/Helper/PackageHelper.php:114 | the source URL of a well-formed repository URL is the URL up to and including the optional `.git` |
| Resolution.RepositoryUrl | src/Console/Helper/PackageHelper.php:110-116 | a well-formed repository URL resolves to a git source descriptor: the fragment (or master) as version, pretty version and reference, and the URL without its fragment as source URL |
| Resolution.RepositoryForms | src/Console/Helper/PackageHelper.php:110-116 | every source descriptor has the captured package as name, type `git`, one reference in three fields (the fragment whenever captured, even empty; master otherwise), and a source URL that is the line cut before its first `#` |
| Resolution.BranchChoice | src/Console/Helper/PackageHelper.php:87-110 | the descriptor is an archive exactly when the registry pattern matches and a source exactly when the repository pattern does, named by that match's package |
| Resolution.Unrecognised | src/Console/Helper/PackageHelper.php:83-110 | a specifier without a descriptor spells no valid registry captures and has no repository parse |
| Resolution.FinalNewline | src/Console/Helper/PackageHelper.php:87-114 | one final newline keeps whether a descriptor exists, leaves archive descriptors unchanged, and adds the newline to a source URL |
| PackageHelper.Package.constructor | src/Console/Helper/PackageHelper.php:104 | a new package holds its name, version and pretty version, with no URL, type or reference set |
| PackageHelper.Package.SetDistUrl | src/Console/Helper/PackageHelper.php:105 | sets the archive URL and leaves the other fields unchanged |
| PackageHelper.Package.SetSourceUrl | src/Console/Helper/PackageHelper.php:114 | sets the source URL and leaves the other fields unchanged |
| PackageHelper.Package.SetSourceType | src/Console/Helper/PackageHelper.php:115 | sets the source type and leaves the other fields unchanged |
| PackageHelper.Package.SetSourceReference | src/Console/Helper/PackageHelper.php:116 | sets the source reference and leaves the other fields unchanged |
| PackageHelper.Package.View | src/Console/Helper/PackageHelper.php:104-116 | a package is a descriptor only when it has either an archive URL alone or the whole source triple alone |
| PackageHelper.DownloadLog.constructor | src/Console/Helper/PackageHelper.php:122 | no download has been asked for yet |
| PackageHelper.DownloadLog.Download | src/Console/Helper/PackageHelper.php:122 | one download request, of this package into this target, is appended |
| PackageHelper.NewPeclPackage | src/Console/Helper/PackageHelper.php:88-105 | a fresh package holding exactly the archive descriptor of the captures, and the rebuilt URL is its archive URL |
| PackageHelper.NewGitPackage | src/Console/Helper/PackageHelper.php:111-116 | a fresh package holding exactly the source descriptor of the specifier and captures |
| PackageHelper.Build | src/Console/Helper/PackageHelper.php:82-119 | null exactly when neither pattern matches, and then no downloader; otherwise a fresh package holding `Resolve`'s descriptor, the downloader of its branch, and its name as the matched package |
| PackageHelper.Download | src/Console/Helper/PackageHelper.php:81-126 | returns null exactly when neither pattern matches; otherwise the package holds `Resolve`'s descriptor, and exactly one download into `path/<package>` is asked of that branch's downloader (none when null) |
| ResolutionExamples.PlainName | src/Console/Helper/PackageHelper.php:87-105 | `foo` and `pecl/foo` both resolve to version `latest`, pretty version `latest-stable`, URL `http://pecl.php.net/get/foo` |
| ResolutionExamples.StabilityChannel | src/Console/Helper/PackageHelper.php:87-105 | `foo-beta` resolves to pretty version `latest-beta` and URL `http://pecl.php.net/get/foo-beta` |
| ResolutionExamples.PinnedVersion | src/Console/Helper/PackageHelper.php:87-105 | `foo@1.2.3` resolves to version `1.2.3` and URL `http://pecl.php.net/get/foo/1.2.3` |
| ResolutionExamples.RepositoryWithReference | src/Console/Helper/PackageHelper.php:110-116 | `git://example.com/foo.git#v2` resolves to package `foo`, reference `v2`, source URL `git://example.com/foo.git`, type `git` |
| ResolutionExamples.RepositoryWithoutReference | src/Console/Helper/PackageHelper.php:110-116 | `https://example.com/foo` resolves to version and pretty version `master` |
| ResolutionExamples.SlashInReference | src/Console/Helper/PackageHelper.php:26-33 | in `git://h/foo.git#a/bar`, the lazy path stops at the first slash that works, so the reference is `a/bar` |
| ResolutionExamples.HashBeforePackage | src/Console/Helper/PackageHelper.php:110-116 | `git://h#x/foo` resolves to package `foo`, reference `master` and source URL `git://h` |
| ResolutionExamples.NoDescriptor | src/Console/Helper/PackageHelper.php:83-125 | `foo/bar` resolves to nothing, so `download` returns null |
| ResolutionExamples.EmptySpecifier | src/Console/Helper/PackageHelper.php:83-125 | the empty specifier resolves to nothing |

## Left out

- `getName`, `showInfo`, `showOptions` (lines 41-79): they return a constant or render console tables, and no descriptor logic is involved.
- `ConsoleIO` and `Config` (lines 85, 107, 118): objects passed through to the downloaders, with no effect on resolution.
- The downloaders' own work (fetching the archive over HTTP, cloning the repository, their failures): network and filesystem I/O. Each call is recorded as a request in `DownloadLog`. This is the only effect of `download` that the model keeps.
- `Pickle\Package` internals: the `Package` class is not part of this model. Its constructor and the four setters are modelled only as storing their arguments.
- Locale-dependent `\w`: `\w` and `\d` are the ASCII classes of PCRE's default tables. No non-ASCII character is a word character, a digit, a newline, `/` or `#`, so treating a `char` as one unit matches what PCRE does on the bytes.
- The PCRE backtracking and recursion limits: `preg_match` and `preg_replace` failing on a huge subject are not modelled. Every subject is matched to completion.
- `DIRECTORY_SEPARATOR` is fixed to `/`.
- The `$matches` array is modelled as the named captures only. Numbered groups and the "" that PHP stores for a group that took no part in the match are read as an absent capture. The `isset && '' !==` tests of lines 90 and 96 treat both alike.
