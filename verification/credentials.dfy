/** The credential resolver: `getRepoCredentials`, its settings.xml lookup
    `getRepoAuthFromSettings`, and the request option `getAuthOption`. */
module Credentials {
  import opened Wrappers
  import opened Errors
  import opened Text
  import opened Coordinate

  /** A `<mirror>` of settings.xml; absent child elements are `undefined`. */
  datatype Mirror = Mirror(id: Option<string>, url: Option<string>)

  /** A `<server>` of settings.xml. */
  datatype Server = Server(id: Option<string>, username: Option<string>, password: Option<string>)

  /** The parser yields a record for one element and a list for several. */
  datatype OneOrMany<T> = One(item: T) | Many(items: seq<T>)

  /** What `settings.mirrors.mirror` and `settings.servers.server` hold in a
      parsed settings.xml. */
  datatype Settings = Settings(mirror: Option<OneOrMany<Mirror>>, server: Option<OneOrMany<Server>>)

  /** An entry of the host's `config.maven` map, keyed by exact URL. */
  datatype InlineEntry = InlineEntry(username: Option<string>, password: Option<string>)

  /** The `{username, password}` record the resolver returns. */
  datatype Creds = Creds(username: Option<string>, password: Option<string>)

  /** What reading settings.xml gives: a parsed document, nothing (no file,
      or a falsy parse), or the error the read or parse threw. */
  type SettingsRead = Result<Option<Settings>, Error>

  /** The request option bag: Basic authentication, or none. */
  datatype AuthOptions = NoAuth | Auth(user: string, pass: Option<string>, sendImmediately: bool)

  /** JavaScript truthiness of a string field. */
  predicate Present(s: Option<string>) {
    s.Some? && s.value != ""
  }

  /** `s || ''` */
  function OrEmpty(s: Option<string>): string {
    if Present(s) then s.value else ""
  }

  /** `source.startsWith(url)`: an undefined argument is converted to the
      text "undefined" before the comparison. */
  predicate UrlPrefixOf(url: Option<string>, source: string) {
    StartsWith(source, if url.Some? then url.value else "undefined")
  }

  // ---------------------------------------------------------------------
  // Mirror to server id

  /** The loop over a mirror list: every mirror whose url prefixes the
      source overwrites the server id, so the last one wins. */
  function ScanMirrors(source: string, ms: seq<Mirror>, serverId: Option<string>): (r: Option<string>)
    ensures (forall i :: 0 <= i < |ms| ==> !UrlPrefixOf(ms[i].url, source)) ==> r == serverId
    ensures forall i :: (0 <= i < |ms| && UrlPrefixOf(ms[i].url, source)
                         && (forall j :: i < j < |ms| ==> !UrlPrefixOf(ms[j].url, source))) ==> r == ms[i].id
    decreases |ms|
  {
    if |ms| == 0 then serverId
    else ScanMirrors(source, ms[1..], if UrlPrefixOf(ms[0].url, source) then ms[0].id else serverId)
  }

  /** The server id chosen by the mirrors; `Some("")` means none was. A
      single mirror needs a non-empty id and url, unlike a listed one. */
  function MirrorServerId(source: string, mirror: Option<OneOrMany<Mirror>>): (r: Option<string>)
    ensures mirror.None? ==> r == Some("")
    ensures mirror.Some? && mirror.value.Many? ==> r == ScanMirrors(source, mirror.value.items, Some(""))
    ensures mirror.Some? && mirror.value.One? ==> var m := mirror.value.item;
      && (r != Some("") <==> Present(m.id) && Present(m.url) && StartsWith(source, m.url.value))
      && (r != Some("") ==> r == m.id)
  {
    match mirror
    case None => Some("")
    case Some(Many(ms)) => ScanMirrors(source, ms, Some(""))
    case Some(One(m)) =>
      if Present(m.id) && Present(m.url) && StartsWith(source, m.url.value) then m.id else Some("")
  }

  // ---------------------------------------------------------------------
  // Server id to credentials

  /** A server of a list is taken when its id equals the server id (both
      may be undefined) and it has a non-empty username. */
  predicate Accepts(s: Server, serverId: Option<string>) {
    s.id == serverId && Present(s.username)
  }

  /** The loop over a server list: the first accepted server, its password
      defaulted to the empty string. */
  function FirstServer(ss: seq<Server>, serverId: Option<string>): (r: Option<Creds>)
    ensures r.None? <==> forall i :: 0 <= i < |ss| ==> !Accepts(ss[i], serverId)
    ensures forall i :: (0 <= i < |ss| && Accepts(ss[i], serverId)
                         && (forall j :: 0 <= j < i ==> !Accepts(ss[j], serverId)))
                         ==> r == Some(Creds(ss[i].username, Some(OrEmpty(ss[i].password))))
    ensures r.Some? ==> Present(r.value.username)
    decreases |ss|
  {
    if |ss| == 0 then None
    else if Accepts(ss[0], serverId) then Some(Creds(ss[0].username, Some(OrEmpty(ss[0].password))))
    else FirstServer(ss[1..], serverId)
  }

  /** Credentials for a server id. A single server needs a username and an
      id equal to the server id, and its password is returned as is. */
  function ServerCreds(server: Option<OneOrMany<Server>>, serverId: Option<string>): (r: Option<Creds>)
    ensures server.None? ==> r.None?
    ensures server.Some? && server.value.Many? ==> r == FirstServer(server.value.items, serverId)
    ensures server.Some? && server.value.One? ==> var s := server.value.item;
      && (r.Some? <==> Present(s.username) && Present(s.id) && s.id == serverId)
      && (r.Some? ==> r.value == Creds(s.username, s.password))
    ensures r.Some? ==> Present(r.value.username)
  {
    match server
    case None => None
    case Some(Many(ss)) => FirstServer(ss, serverId)
    case Some(One(s)) =>
      if Present(s.username) && Present(s.id) && s.id == serverId then Some(Creds(s.username, s.password))
      else None
  }

  /** `getRepoAuthFromSettings`. */
  function AuthFromSettings(source: string, settings: Settings): (r: Option<Creds>)
    ensures MirrorServerId(source, settings.mirror) == Some("") ==> r.None?
    ensures var id := MirrorServerId(source, settings.mirror);
      id != Some("") ==> r == ServerCreds(settings.server, id)
    ensures r.Some? ==> Present(r.value.username)
  {
    var serverId := MirrorServerId(source, settings.mirror);
    if serverId == Some("") then None else ServerCreds(settings.server, serverId)
  }

  // ---------------------------------------------------------------------
  // Precedence over the two candidate URLs

  predicate InlineHas(inline: Option<map<string, InlineEntry>>, url: string) {
    inline.Some? && url in inline.value
  }

  function InlineCreds(e: InlineEntry): Creds {
    Creds(e.username, Some(OrEmpty(e.password)))
  }

  /** One pass of the candidate loop: the inline entry for exactly this URL,
      else whatever the settings document yields. */
  function Candidate(url: string, inline: Option<map<string, InlineEntry>>, settings: SettingsRead)
    : (r: Result<Option<Creds>, Error>)
    ensures InlineHas(inline, url) ==> r == Success(Some(InlineCreds(inline.value[url])))
    ensures !InlineHas(inline, url) && settings.Failure? ==> r == Failure(settings.error)
    ensures !InlineHas(inline, url) && settings.Success? ==>
      r == Success(if settings.value.Some? then AuthFromSettings(url, settings.value.value) else None)
    ensures r.Failure? ==> settings.Failure? && r.error == settings.error
  {
    if InlineHas(inline, url) then Success(Some(InlineCreds(inline.value[url])))
    else match settings
      case Failure(e) => Failure(e)
      case Success(None) => Success(None)
      case Success(Some(s)) => Success(AuthFromSettings(url, s))
  }

  /** The credentials resolved for a settings document that was read. */
  predicate FromSettings(url: string, settings: SettingsRead, c: Creds) {
    settings.Success? && settings.value.Some? && AuthFromSettings(url, settings.value.value) == Some(c)
  }

  /** `getRepoCredentials`: the loop over the two candidates, the source as
      given and then its normalized form, stops at the first that yields
      credentials or throws. */
  function RepoCredentials(source: string, inline: Option<map<string, InlineEntry>>, settings: SettingsRead)
    : (r: Result<Option<Creds>, Error>)
    ensures InlineHas(inline, source) ==> r == Success(Some(InlineCreds(inline.value[source])))
    ensures !InlineHas(inline, source) && settings.Failure? ==> r == Failure(settings.error)
    ensures r.Failure? ==> settings.Failure? && r.error == settings.error
    ensures r.Success? && r.value.Some? ==>
      || (InlineHas(inline, source) && r.value.value == InlineCreds(inline.value[source]))
      || FromSettings(source, settings, r.value.value)
      || (InlineHas(inline, RequestUrl(source)) && r.value.value == InlineCreds(inline.value[RequestUrl(source)]))
      || FromSettings(RequestUrl(source), settings, r.value.value)
  {
    match Candidate(source, inline, settings)
    case Success(None) => Candidate(RequestUrl(source), inline, settings)
    case first => first
  }

  /** `getAuthOption`: authentication is attached exactly when credentials
      with a non-empty username resolve; it is never sent before a challenge. */
  function AuthOption(source: string, inline: Option<map<string, InlineEntry>>, settings: SettingsRead)
    : (r: Result<AuthOptions, Error>)
    ensures var creds := RepoCredentials(source, inline, settings);
      && (r.Failure? <==> creds.Failure?)
      && (r.Failure? ==> r.error == creds.error && r.error == settings.error)
      && (r.Success? ==> (r.value.Auth? <==> creds.value.Some? && Present(creds.value.value.username)))
      && (r.Success? && r.value.Auth? ==>
            && r.value.user == creds.value.value.username.value
            && r.value.pass == creds.value.value.password
            && !r.value.sendImmediately)
  {
    var creds :- RepoCredentials(source, inline, settings);
    if creds.Some? && Present(creds.value.username) then
      Success(Auth(creds.value.username.value, creds.value.password, false))
    else
      Success(NoAuth)
  }
}

/** Properties of the credential resolver that relate several calls or
    follow a lookup through both indirections. */
module CredentialProperties {
  import opened Wrappers
  import opened Text
  import opened Coordinate
  import opened Credentials

  function Mirrors(mirror: Option<OneOrMany<Mirror>>): seq<Mirror> {
    match mirror
    case None => []
    case Some(One(m)) => [m]
    case Some(Many(ms)) => ms
  }

  function Servers(server: Option<OneOrMany<Server>>): seq<Server> {
    match server
    case None => []
    case Some(One(s)) => [s]
    case Some(Many(ss)) => ss
  }

  /** Credentials from settings.xml are backed by a mirror whose url
      prefixes the source and a server with that mirror's id and a
      non-empty username. */
  ghost predicate Backed(source: string, settings: Settings, c: Creds) {
    exists m, s :: m in Mirrors(settings.mirror) && s in Servers(settings.server)
                   && UrlPrefixOf(m.url, source) && s.id == m.id && Present(s.username)
                   && c.username == s.username
  }

  lemma {:induction false} ScanMirrorsChoosesMatch(source: string, ms: seq<Mirror>, serverId: Option<string>)
    ensures var r := ScanMirrors(source, ms, serverId);
      r == serverId || exists i :: 0 <= i < |ms| && UrlPrefixOf(ms[i].url, source) && ms[i].id == r
    decreases |ms|
  {
    if |ms| > 0 {
      var acc := if UrlPrefixOf(ms[0].url, source) then ms[0].id else serverId;
      ScanMirrorsChoosesMatch(source, ms[1..], acc);
      var r := ScanMirrors(source, ms, serverId);
      if r != acc {
        var i :| 0 <= i < |ms[1..]| && UrlPrefixOf(ms[1..][i].url, source) && ms[1..][i].id == r;
        assert ms[i + 1] == ms[1..][i];
      }
    }
  }

  lemma {:induction false} FirstServerChoosesAccepted(ss: seq<Server>, serverId: Option<string>)
    ensures var r := FirstServer(ss, serverId);
      r.Some? ==> exists i :: 0 <= i < |ss| && Accepts(ss[i], serverId) && r.value.username == ss[i].username
    decreases |ss|
  {
    if |ss| > 0 && !Accepts(ss[0], serverId) {
      FirstServerChoosesAccepted(ss[1..], serverId);
      var r := FirstServer(ss, serverId);
      if r.Some? {
        var i :| 0 <= i < |ss[1..]| && Accepts(ss[1..][i], serverId) && r.value.username == ss[1..][i].username;
        assert ss[i + 1] == ss[1..][i];
      }
    }
  }

  /** Whatever settings.xml yields went through both indirections: a mirror
      matched the source and a server carried that mirror's id. */
  lemma SettingsCredentialsBacked(source: string, settings: Settings)
    ensures AuthFromSettings(source, settings).Some? ==>
      Backed(source, settings, AuthFromSettings(source, settings).value)
  {
    if AuthFromSettings(source, settings).None? {
      return;
    }
    var c := AuthFromSettings(source, settings).value;
    var serverId := MirrorServerId(source, settings.mirror);
    var m: Mirror;
    match settings.mirror {
      case None =>
        assert false;
      case Some(One(m1)) =>
        m := m1;
        assert m in Mirrors(settings.mirror);
      case Some(Many(ms)) =>
        ScanMirrorsChoosesMatch(source, ms, Some(""));
        var i :| 0 <= i < |ms| && UrlPrefixOf(ms[i].url, source) && ms[i].id == serverId;
        m := ms[i];
    }
    assert m in Mirrors(settings.mirror) && UrlPrefixOf(m.url, source) && m.id == serverId;
    match settings.server {
      case None =>
        assert false;
      case Some(One(s)) =>
        assert s in Servers(settings.server);
      case Some(Many(ss)) =>
        FirstServerChoosesAccepted(ss, serverId);
        var i :| 0 <= i < |ss| && Accepts(ss[i], serverId) && c.username == ss[i].username;
        assert ss[i] in Servers(settings.server);
    }
  }

  /** With a mirror list there is no early exit: the last matching mirror
      decides the server id, whatever earlier mirrors matched. */
  lemma LastMatchingMirrorWins(source: string, ms: seq<Mirror>, i: nat, server: Option<OneOrMany<Server>>)
    requires i < |ms| && UrlPrefixOf(ms[i].url, source)
    requires forall j :: i < j < |ms| ==> !UrlPrefixOf(ms[j].url, source)
    requires ms[i].id != Some("")
    ensures AuthFromSettings(source, Settings(Some(Many(ms)), server)) == ServerCreds(server, ms[i].id)
  {
  }

  /** A later matching mirror with an empty id cancels an earlier match. */
  lemma LaterEmptyIdCancels(source: string, first: Mirror, last: Mirror, server: Option<OneOrMany<Server>>)
    requires UrlPrefixOf(first.url, source) && UrlPrefixOf(last.url, source)
    requires last.id == Some("")
    ensures AuthFromSettings(source, Settings(Some(Many([first, last])), server)).None?
  {
    assert ScanMirrors(source, [first, last], Some("")) == Some("");
  }

  /** No matching mirror, no credentials. */
  lemma NoMatchingMirror(source: string, ms: seq<Mirror>, server: Option<OneOrMany<Server>>)
    requires forall j :: 0 <= j < |ms| ==> !UrlPrefixOf(ms[j].url, source)
    ensures AuthFromSettings(source, Settings(Some(Many(ms)), server)).None?
  {
  }

  /** A single matching mirror hands its id to the server lookup, whatever
      shape the servers have. */
  lemma SingleMirrorSelectsServer(source: string, m: Mirror, server: Option<OneOrMany<Server>>)
    requires Present(m.id) && Present(m.url) && StartsWith(source, m.url.value)
    ensures AuthFromSettings(source, Settings(Some(One(m)), server)) == ServerCreds(server, m.id)
  {
  }

  /** A settings document with one matching mirror and one server of the
      same id yields that server's username and password, exactly as
      written. */
  lemma SingleElementsGiveServerCredentials(source: string, m: Mirror, s: Server)
    requires Present(m.id) && Present(m.url) && StartsWith(source, m.url.value)
    requires s.id == m.id && Present(s.username)
    ensures AuthFromSettings(source, Settings(Some(One(m)), Some(One(s)))) == Some(Creds(s.username, s.password))
  {
  }

  /** The same server gives an absent password back as is when it is the
      only `<server>`, and as the empty string when it is one of a list. */
  lemma SingleServerPasswordNotDefaulted(source: string, m: Mirror, s: Server, others: seq<Server>)
    requires Present(m.id) && Present(m.url) && StartsWith(source, m.url.value)
    requires s.id == m.id && Present(s.username) && s.password.None?
    ensures AuthFromSettings(source, Settings(Some(One(m)), Some(One(s)))) == Some(Creds(s.username, None))
    ensures AuthFromSettings(source, Settings(Some(One(m)), Some(Many([s] + others))))
         == Some(Creds(s.username, Some("")))
  {
  }

  /** The settings document answers for the source as given before the
      inline map is consulted for the normalized URL. */
  lemma SettingsForSourceBeforeInlineForNormalized(
    source: string, inline: Option<map<string, InlineEntry>>, settings: SettingsRead, c: Creds)
    ensures !InlineHas(inline, source) && FromSettings(source, settings, c) ==>
      RepoCredentials(source, inline, settings) == Success(Some(c))
  {
  }

  /** When nothing answers for the source as given, its normalized form is
      tried next, inline map first. */
  lemma NormalizedCandidateSecond(source: string, inline: Option<map<string, InlineEntry>>, settings: SettingsRead)
    requires !InlineHas(inline, source)
    requires settings.Success?
    requires settings.value.Some? ==> AuthFromSettings(source, settings.value.value).None?
    ensures RepoCredentials(source, inline, settings)
         == Candidate(RequestUrl(source), inline, settings)
  {
  }

  /** Undefined exactly when neither candidate has an inline entry nor
      settings credentials (and settings.xml was readable). */
  lemma NoCredentialsIff(source: string, inline: Option<map<string, InlineEntry>>, settings: SettingsRead)
    ensures RepoCredentials(source, inline, settings) == Success(None)
        <==> && !InlineHas(inline, source) && !InlineHas(inline, RequestUrl(source))
             && settings.Success?
             && (settings.value.Some? ==>
                   && AuthFromSettings(source, settings.value.value).None?
                   && AuthFromSettings(RequestUrl(source), settings.value.value).None?)
  {
  }

  /** An inline entry without a username still ends the search: settings.xml
      is never consulted and no authentication is attached. */
  lemma InlineWithoutUsernameBlocksSettings(
    source: string, inline: map<string, InlineEntry>, settings: SettingsRead)
    requires source in inline && inline[source].username.None?
    ensures RepoCredentials(source, Some(inline), settings) == Success(Some(Creds(None, Some(OrEmpty(inline[source].password)))))
    ensures AuthOption(source, Some(inline), settings) == Success(NoAuth)
  {
  }

  /** The inline map is keyed by exact text: a map registering only the
      marked coordinate of repo1 serves neither another repository nor the
      unmarked source of repo1 itself, which is never normalized further. */
  lemma InlineKeysAreExact()
    ensures var inline := Some(map["maven3+http://host:1234/artifactory/repo1" := InlineEntry(Some("bwruser1"), Some("bwrpass1"))]);
      RepoCredentials("http://host:1234/artifactory/repoZ", inline, Success(None)) == Success(None)
    ensures var inline := Some(map["maven3+http://host:1234/artifactory/repo1" := InlineEntry(Some("bwruser1"), Some("bwrpass1"))]);
      RepoCredentials("http://host:1234/artifactory/repo1", inline, Success(None)) == Success(None)
  {
  }

  /** The marked coordinate finds an entry registered under its normalized
      URL through the second candidate. */
  lemma InlineFoundThroughNormalizedUrl()
    ensures var inline := Some(map["http://host:1234/artifactory/repo1" := InlineEntry(Some("bwruser1"), Some("bwrpass1"))]);
      RepoCredentials("maven3+http://host:1234/artifactory/repo1", inline, Success(None))
        == Success(Some(Creds(Some("bwruser1"), Some("bwrpass1"))))
  {
  }
}
