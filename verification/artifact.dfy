/** The artifact URL builder `getPackageUrl`. */
module Artifact {
  import opened Wrappers
  import opened Errors
  import opened Text
  import opened Coordinate

  /** `([^\/]+)\/([^\/]+)$` matches `u` starting at `i` with its slash at
      `j`: a non-empty slash-free segment, a slash, and a non-empty
      slash-free segment that runs to the end. */
  ghost predicate MatchAt(u: string, i: int, j: int) {
    0 <= i < j < |u| - 1 && '/' !in u[i..j] && u[j] == '/' && '/' !in u[j + 1..]
  }

  /** The two capture groups of the leftmost match of that pattern. */
  function LastTwoSegments(u: string): Option<(string, string)> {
    match LastIndexOf(u, '/')
    case None => None
    case Some(j) =>
      if j == |u| - 1 then None
      else
        var i := match LastIndexOf(u[..j], '/') case None => 0 case Some(k) => k + 1;
        if i == j then None else Some((u[i..j], u[j + 1..]))
  }

  /** `LastTwoSegments` is the regular expression: it fails exactly when no
      match exists, and otherwise returns the groups of the leftmost one. */
  lemma LastTwoSegmentsIsRegex(u: string)
    ensures LastTwoSegments(u).None? <==> forall i, j :: !MatchAt(u, i, j)
    ensures LastTwoSegments(u).Some? ==>
      exists i, j :: && MatchAt(u, i, j)
                     && LastTwoSegments(u).value == (u[i..j], u[j + 1..])
                     && forall i', j' :: 0 <= i' < i ==> !MatchAt(u, i', j')
  {
    var last := LastIndexOf(u, '/');
    if last.None? {
      forall i, j ensures !MatchAt(u, i, j) {
        if 0 <= j < |u| { assert u[j] in u; }
      }
    } else {
      var j := last.value;
      // any match has its slash at the last slash
      forall i, j' | MatchAt(u, i, j') ensures j' == j {
      }
      if j == |u| - 1 {
      } else {
        var p := u[..j];
        var prev := LastIndexOf(p, '/');
        var i := if prev.None? then 0 else prev.value + 1;
        assert u[i..j] == p[i..];
        // no match starts before i
        forall i', j' | 0 <= i' < i ensures !MatchAt(u, i', j') {
        }
        if i < j {
          assert MatchAt(u, i, j);
        }
      }
    }
  }

  /** The archive file name template `%s/%s-%s.tar.gz`. */
  function ArchiveUrl(url: string, artifact: string, version: string): string {
    url + "/" + artifact + "-" + version + ".tar.gz"
  }

  /** `getPackageUrl`. The trimming `replace` calls of the source discard
      their results, so neither the base nor the target is trimmed. */
  function PackageUrl(source: string, target: string): (r: Result<string, Error>)
    ensures var u := RequestUrl(source) + "/" + target;
      && (r.Failure? <==> LastTwoSegments(u).None?)
      && (r.Failure? ==> r.error == NonConformingUrl(u))
      && (r.Success? ==> r.value == ArchiveUrl(u, LastTwoSegments(u).value.0, LastTwoSegments(u).value.1))
  {
    var u := RequestUrl(source) + "/" + target;
    match LastTwoSegments(u)
    case None => Failure(NonConformingUrl(u))
    case Some((artifact, version)) => Success(ArchiveUrl(u, artifact, version))
  }

  /** A slash followed only by slash-free text is the last slash. */
  lemma LastSlashAt(s: string, k: nat)
    requires k < |s| && s[k] == '/' && '/' !in s[k + 1..]
    ensures LastIndexOf(s, '/') == Some(k)
  {
  }

  /** The artifact URL of a version: the normalized base ends in a non-empty
      artifact segment and the version is one non-empty segment. */
  lemma PackageUrlOfVersion(source: string, prefix: string, artifact: string, version: string)
    requires RequestUrl(source) == prefix + artifact
    requires artifact != "" && '/' !in artifact
    requires prefix == "" || prefix[|prefix| - 1] == '/'
    requires version != "" && '/' !in version
    ensures PackageUrl(source, version)
         == Success(ArchiveUrl(prefix + artifact + "/" + version, artifact, version))
  {
    var p := prefix + artifact;
    var u := p + "/" + version;
    var j := |p|;
    assert u[..j] == p && u[j] == '/' && u[j + 1..] == version;
    LastSlashAt(u, j);
    var i := |prefix|;
    assert p[i..] == artifact;
    if prefix == "" {
      assert p == artifact;
    } else {
      LastSlashAt(p, i - 1);
    }
    assert u[i..j] == artifact;
    assert LastTwoSegments(u) == Some((artifact, version));
  }

  /** With nothing trimmed, a base ending in a slash fails for a one-segment
      version: the segment before the version is empty. */
  lemma PackageUrlTrailingSlashBase(source: string, version: string)
    requires |RequestUrl(source)| > 0 && RequestUrl(source)[|RequestUrl(source)| - 1] == '/'
    requires '/' !in version
    ensures PackageUrl(source, version).Failure?
  {
    var base := RequestUrl(source);
    var u := base + "/" + version;
    var j := |base|;
    assert u[..j] == base && u[j] == '/' && u[j + 1..] == version;
    LastSlashAt(u, j);
    LastSlashAt(base, j - 1);
  }

  /** A version that is empty or ends in a slash always fails. */
  lemma PackageUrlVersionEndsInSlash(source: string, version: string)
    requires version == "" || version[|version| - 1] == '/'
    ensures PackageUrl(source, version).Failure?
  {
  }
}
