/**
 * PackageHelper::download, step by step: the specifier is tried against the
 * registry pattern and then the repository pattern, a Package is constructed
 * and filled in through its setters, and the chosen downloader is asked to
 * fetch it into `path/package`. The downloaders themselves are outside the
 * model; each call to one is recorded in a DownloadLog.
 */
module PackageHelper {
  import opened Wrappers
  import opened Grammar
  import opened Resolution

  /** DIRECTORY_SEPARATOR, taken as the POSIX one. */
  const DirectorySeparator := "/"

  /** Which downloader `download` instantiates: PECLDownloader or Composer's GitDownloader. */
  datatype Strategy = PeclDownloader | GitDownloader

  /** The downloader that goes with each kind of descriptor. */
  function StrategyFor(d: Descriptor): Strategy {
    if d.Dist? then PeclDownloader else GitDownloader
  }

  /** A package: the three constructor arguments, and the four fields the setters fill in. */
  class Package {
    const name: string
    const version: string
    const prettyVersion: string
    var distUrl: Option<string>
    var sourceUrl: Option<string>
    var sourceType: Option<string>
    var sourceReference: Option<string>

    constructor (name: string, version: string, prettyVersion: string)
      ensures this.name == name && this.version == version && this.prettyVersion == prettyVersion
      ensures distUrl == None && sourceUrl == None && sourceType == None && sourceReference == None
    {
      this.name := name;
      this.version := version;
      this.prettyVersion := prettyVersion;
      distUrl := None;
      sourceUrl := None;
      sourceType := None;
      sourceReference := None;
    }

    method SetDistUrl(url: string)
      modifies this
      ensures distUrl == Some(url)
      ensures sourceUrl == old(sourceUrl) && sourceType == old(sourceType)
      ensures sourceReference == old(sourceReference)
    {
      distUrl := Some(url);
    }

    method SetSourceUrl(url: string)
      modifies this
      ensures sourceUrl == Some(url)
      ensures distUrl == old(distUrl) && sourceType == old(sourceType)
      ensures sourceReference == old(sourceReference)
    {
      sourceUrl := Some(url);
    }

    method SetSourceType(kind: string)
      modifies this
      ensures sourceType == Some(kind)
      ensures distUrl == old(distUrl) && sourceUrl == old(sourceUrl)
      ensures sourceReference == old(sourceReference)
    {
      sourceType := Some(kind);
    }

    method SetSourceReference(reference: string)
      modifies this
      ensures sourceReference == Some(reference)
      ensures distUrl == old(distUrl) && sourceUrl == old(sourceUrl) && sourceType == old(sourceType)
    {
      sourceReference := Some(reference);
    }

    /** The descriptor this package holds: an archive URL alone, or a source URL, type and reference
        alone. Any other combination of set fields is not a descriptor. */
    function View(): (d: Option<Descriptor>)
      reads this
      ensures d.Some? ==> (distUrl.Some? <==> sourceUrl.None?)
      ensures d.Some? ==> (sourceUrl.Some? <==> sourceType.Some?) && (sourceUrl.Some? <==> sourceReference.Some?)
    {
      match (distUrl, sourceUrl, sourceType, sourceReference)
      case (Some(d), None, None, None) => Some(Dist(name, version, prettyVersion, d))
      case (None, Some(u), Some(k), Some(r)) => Some(Source(name, version, prettyVersion, u, k, r))
      case _ => None
    }
  }

  /** One call `$downloader->download($package, $target)`. */
  datatype Request = Request(strategy: Strategy, package: Package, target: string)

  /** The downloads asked for, in order. */
  class DownloadLog {
    var requests: seq<Request>

    constructor ()
      ensures requests == []
    {
      requests := [];
    }

    method Download(strategy: Strategy, package: Package, target: string)
      modifies this
      ensures requests == old(requests) + [Request(strategy, package, target)]
    {
      requests := requests + [Request(strategy, package, target)];
    }
  }

  /** The registry branch's body: the archive URL is built by appending the stability channel and
      then the version, the defaults are written back for the captures that were not given, and
      the package is constructed and given its dist URL. The new URL is returned, as it replaces
      `$url`. */
  method NewPeclPackage(matches: PeclCaptures) returns (package: Package, url: string)
    ensures fresh(package) && package.View() == Some(PeclDescriptor(matches))
    ensures url == PeclDescriptor(matches).distUrl
  {
    url := PeclGetUrl + matches.package;
    var stability := matches.stability;
    if Given(stability) {
      url := url + ("-" + stability.value);
    } else {
      stability := Some(DefaultStability);
    }
    assert url == PeclGetUrl + matches.package
      + (if Given(matches.stability) then "-" + matches.stability.value else "");
    var version := matches.version;
    var prettyVersion;
    if Given(version) {
      url := url + ("/" + version.value);
      prettyVersion := version.value;
    } else {
      version := Some(LatestVersion);
      prettyVersion := "latest-" + stability.value;
    }
    assert url == PeclDescriptor(matches).distUrl;
    assert Dist(matches.package, version.value, prettyVersion, url) == PeclDescriptor(matches);
    package := new Package(matches.package, version.value, prettyVersion);
    package.SetDistUrl(url);
  }

  /** The repository branch's body: the fragment, or master, is the version, the pretty version
      and the source reference, and the source URL is the specifier with its fragment cut off. */
  method NewGitPackage(url: string, matches: GitCaptures) returns (package: Package)
    ensures fresh(package) && package.View() == Some(GitDescriptor(url, matches))
  {
    var version := if matches.reference.Some? then matches.reference.value else DefaultReference;
    package := new Package(matches.package, version, version);
    package.SetSourceUrl(StripFragment(url));
    package.SetSourceType(GitSourceType);
    package.SetSourceReference(version);
  }

  /** Lines 82-119 of `download`: the registry pattern is tried on the specifier, then, only when
      no package was built, the repository pattern. The package is null exactly when neither
      matches; otherwise it holds the descriptor Resolve gives, the downloader is the one for its
      branch, and the `package` capture is the package's name. */
  method Build(url: string) returns (package: Package?, downloader: Option<Strategy>, matchedPackage: string)
    ensures package == null <==> Resolve(url).None?
    ensures package == null <==> downloader.None?
    ensures package != null ==> fresh(package) && package.View() == Resolve(url)
    ensures package != null ==>
      downloader == Some(StrategyFor(Resolve(url).value)) && matchedPackage == package.name
  {
    package := null;
    downloader := None;
    var specifier := url;
    matchedPackage := "";

    var pecl := MatchPecl(specifier);
    if pecl.Some? {
      var matches := pecl.value;
      ResolveRegistry(url, matches);
      package, specifier := NewPeclPackage(matches);
      downloader := Some(PeclDownloader);
      matchedPackage := matches.package;
    }

    if package == null {
      var git := MatchGit(specifier);
      if git.Some? {
        var matches := git.value;
        ResolveRepository(url, matches);
        package := NewGitPackage(specifier, matches);
        downloader := Some(GitDownloader);
        matchedPackage := matches.package;
      }
    }
  }

  /** `download($input, $output, $url, $path)`: the package is null exactly when neither pattern
      matches; otherwise it holds the descriptor Resolve gives (so the fields of one branch and
      none of the other), and exactly one download into `path/package` is asked of the downloader
      of that branch. */
  method Download(url: string, path: string, downloads: DownloadLog) returns (package: Package?)
    modifies downloads
    ensures package == null <==> Resolve(url).None?
    ensures package != null ==> fresh(package) && package.View() == Resolve(url)
    ensures downloads.requests == old(downloads.requests) +
      if package == null then []
      else [Request(StrategyFor(Resolve(url).value), package, path + DirectorySeparator + package.name)]
  {
    var downloader, matchedPackage;
    package, downloader, matchedPackage := Build(url);
    if downloader.Some? {
      downloads.Download(downloader.value, package, path + DirectorySeparator + matchedPackage);
    } else {
      assert downloads.requests == old(downloads.requests) + [];
    }
  }
}
