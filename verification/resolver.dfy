/** The resolver the host package manager calls: `match`, `locate`,
    `releases` and `fetch`. */
module Resolver {
  import opened Wrappers
  import opened Errors
  import opened Text
  import opened Tree
  import opened Coordinate
  import opened Metadata
  import opened Credentials
  import opened Artifact

  /** `match`: `/^maven3\+https?/i`. The optional `s` cannot change the
      answer, so this is a test for the prefix `maven3+http`. */
  function Match(source: string): (r: bool)
    ensures r <==> StartsWithIgnoringCase(source, "maven3+http")
  {
    StartsWithIgnoringCase(source, "maven3+https") || StartsWithIgnoringCase(source, "maven3+http")
  }

  /** A coordinate the resolver accepts loses exactly its marker on
      normalization, leaving a URL that starts with `http`. */
  lemma MatchedCoordinateNormalizes(source: string)
    requires Match(source)
    ensures HasSchemeMarker(source)
    ensures RequestUrl(source) == source[7..]
    ensures StartsWithIgnoringCase(RequestUrl(source), "http")
  {
  }

  /** Any text starting with an accepted coordinate is accepted. */
  lemma MatchExtends(head: string, tail: string)
    requires Match(head)
    ensures Match(head + tail)
  {
    assert forall i :: 0 <= i < |head| ==> (head + tail)[i] == head[i];
  }

  /** The lower-case coordinates the resolver's test suite expects to be
      accepted. The long one is written as its marker and transport
      followed by the rest. */
  lemma MatchAcceptsExamples()
    ensures Match("maven3+http://my.server:8180/my/url")
    ensures Match("maven3+https://url")
    ensures Match("maven3+http" + "://www.server.com:9090/context/path/com/org/proj/projectId/artifactId/v1.1.0")
  {
    MatchExtends("maven3+http", "://www.server.com:9090/context/path/com/org/proj/projectId/artifactId/v1.1.0");
  }

  /** The coordinates the resolver's test suite expects to be accepted with
      an upper-case marker. */
  lemma MatchAcceptsUpperCaseMarker()
    ensures Match("Maven3+https://url")
    ensures Match("MAVEN3+https://url")
  {
  }

  /** The coordinates the resolver's test suite expects to be accepted with
      an upper-case transport. */
  lemma MatchAcceptsUpperCaseTransport()
    ensures Match("MAVEN3+HTTPS://url")
    ensures Match("maven3+HTTPS://url")
  {
  }

  /** Coordinates of other schemes the resolver's test suite expects to be
      rejected. */
  lemma MatchRejectsExamples()
    ensures !Match("maven+http://url")
    ensures !Match("mvn+http://url")
    ensures !Match("svn+http://url")
  {
    assert LowerAscii("maven+http://url"[5]) != LowerAscii("maven3+http"[5]);
    assert LowerAscii("mvn+http://url"[1]) != LowerAscii("maven3+http"[1]);
    assert LowerAscii("svn+http://url"[0]) != LowerAscii("maven3+http"[0]);
  }

  /** A plain URL and a non-HTTP transport, which the resolver's test suite
      expects to be rejected. */
  lemma MatchRejectsUnmarkedAndFtp()
    ensures !Match("http://url")
    ensures !Match("maven3+ftp://file/server")
  {
    assert LowerAscii("http://url"[0]) != LowerAscii("maven3+http"[0]);
    assert LowerAscii("maven3+ftp://file/server"[7]) != LowerAscii("maven3+http"[7]);
  }

  /** `locate`: the coordinate needs no resolving. */
  function Locate(source: string): (r: string)
    ensures r == source
  {
    source
  }

  /** `=` at `k` ends a non-empty, `=`-free name prefix: what `/^[^\=]+=/`
      matches is `s[..k + 1]`. */
  ghost predicate NamePrefixEnd(s: string, k: int) {
    1 <= k < |s| && s[k] == '=' && '=' !in s[..k]
  }

  /** `source.replace(/^[^\=]+=/, '')`: drop a leading `name=`. */
  function StripName(s: string): (r: string)
    ensures forall k :: NamePrefixEnd(s, k) ==> r == s[k + 1..]
    ensures (forall k :: !NamePrefixEnd(s, k)) ==> r == s
  {
    match IndexOf(s, '=')
    case None => s
    case Some(k) => if k >= 1 then assert NamePrefixEnd(s, k); s[k + 1..] else s
  }

  /** The strip undoes prefixing with any non-empty `=`-free name. */
  lemma StripNameRemovesName(name: string, rest: string)
    requires name != "" && '=' !in name
    ensures StripName(name + "=" + rest) == rest
  {
    var s := name + "=" + rest;
    assert s[..|name|] == name;
    assert NamePrefixEnd(s, |name|);
    assert s[|name| + 1..] == rest;
  }

  /** Text without `=`, or starting with `=`, is left alone. */
  lemma StripNameKeeps(s: string)
    requires '=' !in s || (|s| > 0 && s[0] == '=')
    ensures StripName(s) == s
  {
  }

  /** One selectable release; target and version are both the version
      as listed. */
  datatype Release = Release(target: Value, version: Value)

  /** The mapping of listed versions to releases. */
  function ReleasesOf(versions: seq<Value>): (rs: seq<Release>)
    ensures |rs| == |versions|
    ensures forall i :: 0 <= i < |rs| ==> rs[i].target == versions[i] && rs[i].version == versions[i]
  {
    seq(|versions|, i requires 0 <= i < |versions| => Release(versions[i], versions[i]))
  }

  const MetadataFileName := "maven-metadata.xml"

  /** The metadata request and parse, a boundary: given the URL and the
      request options, the parsed document or the failure. */
  type MetadataSource = (string, AuthOptions) -> Result<Value, Error>

  /** `releases` through `getRemoteVersions`: credentials and the metadata
      URL come from the source with its `name=` prefix dropped. */
  function Releases(source: string, inline: Option<map<string, InlineEntry>>, settings: SettingsRead,
                    metadata: MetadataSource): (r: Result<seq<Release>, Error>)
    ensures var s := StripName(source);
      var opts := AuthOption(s, inline, settings);
      && (opts.Failure? ==> r == Failure(opts.error))
      && (opts.Success? ==> var doc := metadata(RequestUrl(s) + "/" + MetadataFileName, opts.value);
            && (doc.Failure? ==> r == Failure(doc.error))
            && (doc.Success? ==> r == Success(ReleasesOf(Versions(doc.value)))))
  {
    var s := StripName(source);
    var opts :- AuthOption(s, inline, settings);
    var doc :- metadata(RequestUrl(s) + "/" + MetadataFileName, opts);
    Success(ReleasesOf(Versions(doc)))
  }

  /** What `fetch` returns: nothing when the cache holds the version, else
      the directory the package was unpacked into. */
  datatype FetchResult = UseCache | Unpacked(tempPath: string, removeIgnores: bool)

  datatype Endpoint = Endpoint(source: string, target: string)

  /** The streaming download and untar into a fresh temporary directory, a
      boundary: given the URL and options, the directory or the failure. */
  type Unpacker = (string, AuthOptions) -> Result<string, Error>

  /** `cached && cached.version` */
  predicate CachedVersion(cached: Option<Value>) {
    Truthy(cached) && Truthy(Child(cached.value, "version"))
  }

  /** `fetch` through `downloadAndUnpackPackage`. */
  function Fetch(endpoint: Endpoint, cached: Option<Value>, inline: Option<map<string, InlineEntry>>,
                 settings: SettingsRead, unpack: Unpacker): (r: Result<FetchResult, Error>)
    ensures r == Success(UseCache) <==> CachedVersion(cached)
    ensures r.Success? && r.value.Unpacked? ==> r.value.removeIgnores
    ensures !CachedVersion(cached) ==>
      var s := StripName(endpoint.source);
      var opts := AuthOption(s, inline, settings);
      var url := PackageUrl(s, endpoint.target);
      && (opts.Failure? ==> r == Failure(opts.error))
      && (opts.Success? && url.Failure? ==> r == Failure(url.error))
      && (opts.Success? && url.Success? ==>
            var dir := unpack(url.value, opts.value);
            && (dir.Failure? ==> r == Failure(dir.error))
            && (dir.Success? ==> r == Success(Unpacked(dir.value, true))))
  {
    if CachedVersion(cached) then Success(UseCache)
    else
      var s := StripName(endpoint.source);
      var opts :- AuthOption(s, inline, settings);
      var url :- PackageUrl(s, endpoint.target);
      var dir :- unpack(url, opts);
      Success(Unpacked(dir, true))
  }

  /** A settings.xml read error reaches both entry points unchanged when no
      inline entry answers for the source as given: neither the metadata
      request nor the download is consulted. */
  lemma SettingsErrorSurfaces(endpoint: Endpoint, cached: Option<Value>,
                              inline: Option<map<string, InlineEntry>>, settings: SettingsRead,
                              metadata: MetadataSource, unpack: Unpacker)
    requires settings.Failure? && !InlineHas(inline, StripName(endpoint.source))
    ensures Releases(endpoint.source, inline, settings, metadata) == Failure(settings.error)
    ensures !CachedVersion(cached) ==> Fetch(endpoint, cached, inline, settings, unpack) == Failure(settings.error)
  {
  }

  /** A cached version short-circuits: the downloader is never consulted,
      so any two downloaders give the same answer. */
  lemma FetchCachedIgnoresUnpacker(endpoint: Endpoint, cached: Option<Value>,
                                   inline: Option<map<string, InlineEntry>>, settings: SettingsRead,
                                   unpack1: Unpacker, unpack2: Unpacker)
    requires CachedVersion(cached)
    ensures Fetch(endpoint, cached, inline, settings, unpack1) == Fetch(endpoint, cached, inline, settings, unpack2)
  {
  }

  /** The end-to-end fetch of a marked coordinate with no credentials
      configured: the artifact is requested anonymously from
      `<base>/<version>/<artifact>-<version>.tar.gz`. */
  lemma FetchVersionArchive(prefix: string, artifact: string, version: string,
                            settings: Option<Settings>, unpack: Unpacker)
    requires prefix != "" && prefix[|prefix| - 1] == '/' && '=' !in prefix
    requires artifact != "" && '/' !in artifact && '=' !in artifact
    requires version != "" && '/' !in version
    requires settings.Some? ==> var base := prefix + artifact;
      AuthFromSettings("maven3+" + base, settings.value).None? && AuthFromSettings(base, settings.value).None?
    ensures var base := prefix + artifact;
      var url := ArchiveUrl(base + "/" + version, artifact, version);
      Fetch(Endpoint("maven3+" + base, version), None, None, Success(settings), unpack)
        == match unpack(url, NoAuth)
           case Success(dir) => Success(Unpacked(dir, true))
           case Failure(e) => Failure(e)
  {
    var base := prefix + artifact;
    var source := "maven3+" + base;
    assert '=' !in source by {
      assert source == "maven3+" + prefix + artifact;
    }
    StripNameKeeps(source);
    RequestUrlRemovesMarker("maven3+", base);
    PackageUrlOfVersion(source, prefix, artifact, version);
  }

  /** The releases of a document listing `vs`: one per version, in order. */
  lemma ReleasesListed(source: string, inline: Option<map<string, InlineEntry>>, settings: SettingsRead,
                       metadata: MetadataSource, vs: seq<string>)
    requires |vs| >= 1
    requires AuthOption(StripName(source), inline, settings).Success?
    requires metadata(RequestUrl(StripName(source)) + "/" + MetadataFileName,
                      AuthOption(StripName(source), inline, settings).value) == Success(MetadataDocument(vs))
    ensures Releases(source, inline, settings, metadata).Success?
    ensures var rs := Releases(source, inline, settings, metadata).value;
      |rs| == |vs| && forall i :: 0 <= i < |vs| ==> rs[i] == Release(Str(vs[i]), Str(vs[i]))
  {
    VersionsRoundTrip(vs);
  }
}
