# bower-maven-resolver core, modelled in Dafny

This project models the decision logic of a Bower resolver that serves packages
from a Maven-style repository. The logic covered:

- how a `maven3+http(s)://…` coordinate is recognised (`match`);
- how the coordinate is normalized into a request URL (`getRequestUrl`);
- how a leading `name=` is dropped from a source;
- how the versions are read from a parsed `maven-metadata.xml` (`getObjectChildAt`, `getVersionsFromMavenMetadataXml`) and turned into releases;
- how credentials are resolved from the host's inline `config.maven` map and from settings.xml through mirror-to-server indirection (`getRepoCredentials`, `getRepoAuthFromSettings`, `getAuthOption`);
- how the artifact URL `<base>/<version>/<artifact>-<version>.tar.gz` is built (`getPackageUrl`);
- how `fetch` short-circuits on a cached version and shapes its result.

Everything is pure: immutable datatypes and total functions. JavaScript's
`undefined` is `Option.None`. A thrown error is `Result.Failure`. The network,
the file system, the XML parser and the tar extractor are boundaries, so their
outputs are inputs to the model:

- the parsed metadata document is a `Tree.Value`;
- the settings read is a `Credentials.SettingsRead`, which is a parsed document, nothing, or a read/parse error;
- the metadata request and the streaming download-and-unpack are function parameters (`Resolver.MetadataSource`, `Resolver.Unpacker`).

Modules, one per component:

| module | file | models |
|---|---|---|
| `Wrappers`, `Errors` | wrappers.dfy | `Option`, `Result`, and the error kinds |
| `Text` | text.dfy | ASCII case folding (the JavaScript `/i` flag on ASCII patterns), prefixes, `indexOf`, `lastIndexOf` |
| `Tree` | tree.dfy | the xml2js value shape, JavaScript truthiness, `getObjectChildAt`, and `split('.')` |
| `Coordinate` | coordinate.dfy | `getRequestUrl` |
| `Metadata` | metadata.dfy | the post-parse part of `getVersionsFromMavenMetadataXml` |
| `Credentials`, `CredentialProperties` | credentials.dfy | `getRepoAuthFromSettings`, `getRepoCredentials`, `getAuthOption`, and their properties |
| `Artifact` | artifact.dfy | `getPackageUrl` and the regular expression it uses |
| `Resolver` | resolver.dfy | `match`, `locate`, the `name=` strip, `releases` (through `getRemoteVersions`), and `fetch` (through `downloadAndUnpackPackage`) |

## Behaviour worth knowing

Each item follows from the cited source lines, and the model states it as the code computes it.

- **Last mirror wins.** The mirror-list loop at src/MavenHelper.js:177-181 has no `break`, so the **last** matching mirror picks the server id (`Credentials.ScanMirrors`, `CredentialProperties.LastMatchingMirrorWins`). A later matching mirror with an empty id cancels an earlier match, because lines 185-186 then return `undefined` (`CredentialProperties.LaterEmptyIdCancels`).
- **Single and listed mirrors differ.** A single mirror (src/MavenHelper.js:182-183) needs a non-empty `id` and `url` besides the prefix match (`Credentials.MirrorServerId`). A listed mirror without a `url` is compared with the text `"undefined"` at line 178, because `startsWith(undefined)` converts its argument. A listed mirror without an `id` makes the server id `undefined` at line 179. That id then matches a listed server that also has no `id` at line 193.
- **Single and listed servers differ.** A single `<server>` (src/MavenHelper.js:199-200) needs a non-empty `id` equal to the server id and a non-empty username, and it returns its password as is, even when absent (`Credentials.ServerCreds`). A server in a list gets `password || ''` at line 195 instead (`CredentialProperties.SingleServerPasswordNotDefaulted`).
- **No trimming.** `getPackageUrl` calls `replace` three times at src/MavenHelper.js:270-272 but discards the results. So a base ending in `/` fails for a one-segment version, and so does a version that is empty or ends in `/` (`Artifact.PackageUrlTrailingSlashBase`, `Artifact.PackageUrlVersionEndsInSlash`).
- **Failure rule for the URL.** By the regular expression at src/MavenHelper.js:274-278, the URL fails exactly when `<base>/<version>` does not end in two non-empty slash-free segments. A base with a single segment, such as `host`, still works.
- **Normalization is not idempotent.** The pattern at src/MavenHelper.js:116 is anchored and not global, so only one marker is removed: `maven3+maven3+http://x` normalizes to `maven3+http://x` (`Coordinate.RequestUrlNotIdempotent`).
- **Empty element on the version path.** xml2js parses an empty element to `''`. The walk at src/MavenHelper.js:130-132 stops at that falsy value, and line 47 wraps it, so the result is `['']` rather than `[]` (`Metadata.VersionsOfEmptyVersioning`). Only an absent element gives `[]`, through lines 44-46.
- **Inline entry without a username.** An inline entry for a URL ends the credential search at src/MavenHelper.js:84-87 even when it has no username. Settings.xml is then never read, and line 208 attaches no authentication (`CredentialProperties.InlineWithoutUsernameBlocksSettings`).

## Model

| member | source | states |
|---|---|---|
| Tree.ChildAt | src/MavenHelper.js:128-134 | the walk returns a falsy starting value, or any value given no keys, unchanged |
| Tree.ChildAtAppend | src/MavenHelper.js:130-132 | walking `a + b` is walking `a`, then `b` from wherever `a` stopped |
| Tree.ChildAtStopsAtFirstFalsy | src/MavenHelper.js:130-133 | once a falsy value is met after some prefix of the keys, that value is the result |
| Tree.ChildAtStep | src/MavenHelper.js:130-131 | while the value reached is truthy, one more key descends into its child of that name |
| Tree.Split | src/MavenHelper.js:129 | `split('.')` yields at least one part, and no part contains the separator |
| Tree.JoinSplit | src/MavenHelper.js:129 | joining the parts of a split with the separator gives back the original text |
| Tree.SplitJoin | src/MavenHelper.js:129 | splitting the join of separator-free parts gives back exactly those parts |
| Tree.ObjectChildAtKeys | src/MavenHelper.js:128-134 | a dotted path of dot-free keys is walked key by key |
| Coordinate.RequestUrl | src/MavenHelper.js:115-118 | the request URL is a suffix of the source, strictly shorter exactly when the source starts with the marker in any ASCII casing |
| Coordinate.RequestUrlRemovesMarker | src/MavenHelper.js:115-118 | any casing of `maven3+` followed by any text normalizes to exactly that text |
| Coordinate.RequestUrlKeepsUnmarked | src/MavenHelper.js:115-118 | text without the marker is returned unchanged |
| Coordinate.RequestUrlIdempotentIff | src/MavenHelper.js:115-118 | normalizing twice equals normalizing once iff the normalized URL does not start with the marker again |
| Coordinate.RequestUrlNotIdempotent | src/MavenHelper.js:115-118 | a doubled marker loses only one marker per normalization |
| Metadata.Versions | src/MavenHelper.js:43-47 | an undefined version node gives no versions, a list gives its items in order, any other value gives a one-element list |
| Metadata.VersionPathKeys | src/MavenHelper.js:43 | the dotted version path is the four keys metadata, versioning, versions, version |
| Metadata.VersionsRoundTrip | src/MavenHelper.js:43-47 | a document listing versions `vs` yields exactly `vs`, in document order, duplicates kept, a single one wrapped |
| Metadata.VersionsWithoutVersioning | src/MavenHelper.js:43-46 | a document without a versioning element yields no versions |
| Metadata.VersionsOfEmptyVersioning | src/MavenHelper.js:43-47 | an empty versioning element yields one empty version, not none |
| Credentials.ScanMirrors | src/MavenHelper.js:176-181 | with no matching mirror the server id is unchanged, otherwise it is the id of the last matching mirror |
| Credentials.FirstServer | src/MavenHelper.js:190-198 | a list yields nothing iff no server has the id and a username, else the first such server with its password defaulted to `''` |
| Credentials.MirrorServerId | src/MavenHelper.js:174-184 | no mirrors means no server id; a mirror list is scanned from the empty id, so the last matching mirror decides; a single mirror yields its id iff it has a non-empty id and url and its url prefixes the source, and no server id otherwise |
| Credentials.ServerCreds | src/MavenHelper.js:189-202 | no servers means no credentials; a server list yields its first accepted server with the password defaulted to `''`; a single server yields credentials iff it has a non-empty username and a non-empty id equal to the server id, and then its username and password as they are; found credentials always carry a non-empty username |
| Credentials.AuthFromSettings | src/MavenHelper.js:173-203 | no server id from the mirrors means no credentials; a server id chosen by the mirrors is looked up among the servers; returned credentials have a non-empty username |
| Credentials.Candidate | src/MavenHelper.js:83-95 | an inline entry for the candidate URL answers, with its password defaulted to `''`, whatever settings.xml holds; without one, a settings read error surfaces, a missing document gives nothing, and a read document answers through the settings lookup for that URL |
| Credentials.RepoCredentials | src/MavenHelper.js:80-98 | an inline entry for the source wins even over an unreadable settings.xml; with no such entry a read error surfaces; any credentials come from the inline map or settings.xml for one of the two candidates |
| Credentials.AuthOption | src/MavenHelper.js:205-218 | it fails exactly when the credential lookup throws, with that lookup's own error, which is the settings.xml read error; otherwise authentication is attached iff the credentials have a non-empty username, carries their username and password, and is not sent before a challenge |
| CredentialProperties.ScanMirrorsChoosesMatch | src/MavenHelper.js:177-181 | a server id that changed was taken from a mirror whose url prefixes the source |
| CredentialProperties.FirstServerChoosesAccepted | src/MavenHelper.js:190-197 | credentials from a server list come from a server with the id and a non-empty username |
| CredentialProperties.SettingsCredentialsBacked | src/MavenHelper.js:173-203 | settings credentials come from a mirror whose url prefixes the source and a server with that mirror's id and a non-empty username |
| CredentialProperties.LastMatchingMirrorWins | src/MavenHelper.js:176-181 | with a mirror list, the last matching mirror's id decides the server, whatever matched before |
| CredentialProperties.LaterEmptyIdCancels | src/MavenHelper.js:177-187 | a later matching mirror with an empty id cancels an earlier match and yields no credentials |
| CredentialProperties.NoMatchingMirror | src/MavenHelper.js:176-187 | a mirror list with no matching mirror yields no credentials |
| CredentialProperties.SingleMirrorSelectsServer | src/MavenHelper.js:182-189 | a single matching mirror with a non-empty id and url hands its id to the server lookup, for any shape of servers |
| CredentialProperties.SingleElementsGiveServerCredentials | src/MavenHelper.js:182-200 | one matching mirror and one server of its id with a username yield that server's username and password as written |
| CredentialProperties.SingleServerPasswordNotDefaulted | src/MavenHelper.js:190-200 | a lone server returns an absent password as absent, and the same server in a list returns `''` |
| CredentialProperties.SettingsForSourceBeforeInlineForNormalized | src/MavenHelper.js:81-95 | settings credentials for the source as given win over an inline entry for the normalized URL |
| CredentialProperties.NormalizedCandidateSecond | src/MavenHelper.js:81-95 | when nothing answers for the source as given, the result is that of the normalized URL |
| CredentialProperties.NoCredentialsIff | src/MavenHelper.js:80-98 | the result is undefined iff neither candidate has an inline entry or settings credentials and settings.xml was readable |
| CredentialProperties.InlineWithoutUsernameBlocksSettings | src/MavenHelper.js:85-87 | an inline entry without a username ends the search and comes back with no username and its password defaulted to `''`; no authentication is attached |
| CredentialProperties.InlineKeysAreExact | test/MavenHelperTest.js:271-275 | an inline map registering only the marked coordinate of repo1 yields no credentials for repoZ, nor for the unmarked source of repo1 |
| CredentialProperties.InlineFoundThroughNormalizedUrl | src/MavenHelper.js:81-87 | a marked coordinate finds an entry registered under its unmarked URL |
| Artifact.LastTwoSegmentsIsRegex | src/MavenHelper.js:274-275 | segment extraction fails iff `([^\/]+)\/([^\/]+)$` has no match, and otherwise yields the groups of the leftmost match |
| Artifact.PackageUrl | src/MavenHelper.js:268-281 | with `u` the normalized source, a slash and the untrimmed target: failure iff the pattern does not match `u`, reporting `u`; otherwise `u/<group1>-<group2>.tar.gz` |
| Artifact.PackageUrlOfVersion | src/MavenHelper.js:268-281 | a base ending in artifact segment A with one-segment version V yields `<base>/V/A-V.tar.gz` |
| Artifact.PackageUrlTrailingSlashBase | src/MavenHelper.js:269-277 | because nothing is trimmed, a base ending in a slash fails for a one-segment version |
| Artifact.PackageUrlVersionEndsInSlash | src/MavenHelper.js:271-277 | a target that is empty or ends in a slash always fails |
| Resolver.Match | src/Maven3Resolver.js:5-14 | a source is accepted iff it starts with `maven3+http`, letters in any ASCII case |
| Resolver.MatchedCoordinateNormalizes | src/Maven3Resolver.js:5-14 | an accepted coordinate loses exactly its 7-character marker and normalizes to text starting with `http` |
| Resolver.MatchAcceptsExamples | test/Maven3ResolverTest.js:24-31 | the lower-case test coordinates, including the long one with host, port and path, are accepted |
| Resolver.MatchAcceptsUpperCaseMarker | test/Maven3ResolverTest.js:27-28 | coordinates whose marker is capitalised or upper case are accepted |
| Resolver.MatchAcceptsUpperCaseTransport | test/Maven3ResolverTest.js:29-30 | coordinates whose transport is upper case are accepted |
| Resolver.MatchRejectsExamples | test/Maven3ResolverTest.js:34-36 | the `maven+`, `mvn+` and `svn+` coordinates of the test are rejected |
| Resolver.MatchRejectsUnmarkedAndFtp | test/Maven3ResolverTest.js:37-38 | a plain `http` URL and a coordinate with an ftp transport are rejected |
| Resolver.Locate | src/Maven3Resolver.js:19-21 | the coordinate is returned unchanged |
| Resolver.StripName | src/Maven3Resolver.js:27 | text through the first `=` is dropped when a non-empty `=`-free name precedes it; otherwise the source is unchanged |
| Resolver.StripNameRemovesName | src/Maven3Resolver.js:44 | `name=rest` with a non-empty `=`-free name becomes `rest` |
| Resolver.StripNameKeeps | src/Maven3Resolver.js:27 | text with no `=`, or starting with `=`, is unchanged |
| Resolver.ReleasesOf | src/Maven3Resolver.js:29-31 | one release per version, same length and order, target and version both equal to it |
| Resolver.Releases | src/Maven3Resolver.js:26-32 | credentials and `<normalized>/maven-metadata.xml` use the stripped source; errors surface; success maps the document's versions |
| Resolver.ReleasesListed | src/Maven3Resolver.js:26-31 | a metadata document listing `vs` gives exactly one release per version, in order |
| Resolver.Fetch | src/Maven3Resolver.js:37-52 | returns the cache marker iff the cached entry has a truthy version; otherwise the downloader gets the artifact URL of the stripped source and the unchanged target, with the auth option; the directory comes back with removeIgnores set |
| Resolver.SettingsErrorSurfaces | src/MavenHelper.js:78-97 | with no inline entry for the source as given, a settings.xml read error is what `releases` and an uncached `fetch` fail with |
| Resolver.FetchCachedIgnoresUnpacker | src/Maven3Resolver.js:39-41 | with a cached version the result does not depend on the downloader |
| Resolver.FetchVersionArchive | src/Maven3Resolver.js:44-51 | a marked coordinate with no credentials downloads `<base>/<version>/<artifact>-<version>.tar.gz` anonymously |

## Left out

- HTTP transport and the streaming untar into a temporary directory (`slurpUrlViaPromise`, `unpackRemotePackageViaPromise`, `request`, `tmp`, `tar.gz`): these are I/O. They are the `MetadataSource` and `Unpacker` parameters, and their failures are `Failure` values.
- XML parsing by xml2js: the model takes the parse tree as input. A parse that yields `null` is not modelled. A parse error is a `Failure` of the metadata source or of the settings read.
- Locating and reading settings.xml (`getMavenSettings`, `getM2Dir`, the `OVERRIDE_M2_DIR`, home-directory and `M2_HOME` lookups): these touch the file system and environment. Their outcome is the `SettingsRead` parameter. The source reads the file again for each candidate, and the model assumes both reads return the same thing.
- Tree.Child: property lookup on text or on an array always gives `undefined`. JavaScript gives something else only for numeric indices, `length` and built-in property names, and no key the core walks is one of these.
- Credentials.RepoCredentials: the inline map is a map from URL to a username/password record. JavaScript's `in` would also find inherited keys such as `toString`, and an entry that is `null` would throw. Neither is modelled.
- Credentials.AuthFromSettings: mirrors and servers are records whose fields are text or absent. A `<mirror>` or `<server>` that parses to bare text, and fields that parse to objects, are not modelled.
- Resolver.Fetch: the source throws synchronously when credentials or the URL fail, and rejects a promise when the download fails. Both are one `Failure` here. "Never calls the downloader" when cached is stated as the result not depending on the downloader.
- Promise chaining, the test HTTP servers and fixtures, and the plugin registration with the host are out of scope.
