/** The `/.well-known/webfinger` handler: it answers `acct:user@domain`
    lookups (section 4 of RFC 7033) against a static whitelist of domains and
    users. A chain of gates is tried in a fixed order; the first that fails
    ends the request with status 400 and a fixed message, and a request that
    passes them all gets a JSON Resource Descriptor with one issuer link. */
module Webfinger {
  import opened Wrappers
  import opened JsStrings
  import opened UriEncoding

  /** A whitelisted user. The handler reads nothing of a user record but its
      optional list of alias account identifiers (`local@domain`). */
  datatype User = User(aliases: Option<seq<string>>)

  /** The configuration snapshot: the global `oauth.issuer`, the domain
      whitelist with each domain's optional `oauth.issuer` override, and the
      user whitelist keyed by local part, in the order `Object.values` visits it. */
  datatype Config = Config(
    globalIssuer: string,
    domains: map<string, Option<string>>,
    users: seq<(string, User)>)

  datatype Link = Link(rel: string, href: string)

  /** The response document: the subject and its links. */
  datatype Jrd = Jrd(subject: string, links: seq<Link>)

  /** One failure kind per gate; the domain mismatch carries the URL the
      client should have asked. */
  datatype Error =
    | MissingResource
    | MalformedResource
    | NoDomainsWhitelisted
    | DomainNotWhitelisted
    | DomainMismatch(url: string)
    | NoUsersWhitelisted
    | UserNotWhitelisted

  /** What the handler takes out of a resource that passes the format gate:
      the resource itself, the resource with its first `acct:` removed, the
      piece of that before the first `@`, and the piece between the first and
      the second `@` (or the end). */
  datatype Account = Account(resource: string, email: string, local: string, domain: string)

  const AcctScheme: string := "acct:"
  const Localhost: string := "localhost"
  const IssuerRel: string := "http://openid.net/specs/connect/1.0/issuer"

  /** The fixed message sent with each failure. */
  function Message(e: Error): (m: string)
    ensures |m| > 0
  {
    match e
    case MissingResource => "Missing resource parameter"
    case MalformedResource => "Resource must be in form acct:email@domain.com"
    case NoDomainsWhitelisted => "No domains are whitelisted for access"
    case DomainNotWhitelisted => "Domain is not whitelisted for access"
    case DomainMismatch(_) => "Must access from corresponding domain"
    case NoUsersWhitelisted => "No users are whitelisted for access"
    case UserNotWhitelisted => "User is not whitelisted for access"
  }

  /** The address the request should have gone to, on the requested domain:
      the WebFinger endpoint there, with a query value that percent-decodes
      to the resource's UTF-8 bytes and holds no character that would end it. */
  function RetryUrl(domain: string, resource: string): (url: string)
    ensures var prefix := "https://" + domain + "/.well-known/webfinger?resource=";
      && prefix <= url
      && PercentDecode(url[|prefix|..]) == Some(Utf8String(resource))
      && forall i :: |prefix| <= i < |url| ==> IsUnreserved(url[i]) || url[i] == '%'
  {
    var prefix := "https://" + domain + "/.well-known/webfinger?resource=";
    var query := EncodeURIComponent(resource);
    EncodeDecode(resource);
    assert (prefix + query)[|prefix|..] == query;
    prefix + query
  }

  /** The format gate. The resource must contain `acct:` somewhere, and after
      its first `acct:` is removed the piece between the first and second `@`
      must be non-empty. The local part may be empty. */
  function ParseResource(resource: string): (r: Result<Account, Error>)
    ensures r.Err? ==> r.error == MalformedResource
    ensures r.Ok? ==> r.value.resource == resource && r.value.domain != ""
    ensures r.Ok? ==> '@' !in r.value.local && '@' !in r.value.domain
  {
    var email := ReplaceFirst(resource, AcctScheme, "");
    var parts := Split(email, '@');
    var domain := At(parts, 1);
    if !Includes(resource, AcctScheme) || domain.None? || domain.value == "" then
      Err(MalformedResource)
    else
      Ok(Account(resource, email, parts[0], domain.value))
  }

  /** The gates before user resolution, in the handler's order: presence,
      format, an empty domain whitelist, domain membership, the origin
      (`localhost` always passes), an empty user whitelist. */
  function Validate(resource: Option<string>, hostname: string, cfg: Config): (r: Result<Account, Error>)
    ensures r.Ok? ==> resource == Some(r.value.resource) && ParseResource(r.value.resource) == Ok(r.value)
    ensures r.Ok? ==> r.value.domain in cfg.domains && |cfg.users| > 0
    ensures r.Ok? ==> hostname == r.value.domain || hostname == Localhost
  {
    if resource.None? || resource.value == "" then
      Err(MissingResource)
    else
      match ParseResource(resource.value)
      case Err(e) => Err(e)
      case Ok(acct) =>
        if |cfg.domains| == 0 then
          Err(NoDomainsWhitelisted)
        else if acct.domain !in cfg.domains then
          Err(DomainNotWhitelisted)
        else if hostname != acct.domain && hostname != Localhost then
          Err(DomainMismatch(RetryUrl(acct.domain, resource.value)))
        else if |cfg.users| == 0 then
          Err(NoUsersWhitelisted)
        else
          Ok(acct)
  }

  /** `user.aliases?.includes(email)`. */
  predicate HasAlias(u: User, email: string) {
    u.aliases.Some? && email in u.aliases.value
  }

  /** `Object.keys(config.users).includes(local)`. */
  predicate IsUserKey(users: seq<(string, User)>, local: string) {
    exists i :: 0 <= i < |users| && users[i].0 == local
  }

  /** The position of the first user record, in `Object.values` order, whose
      aliases contain `email`; `None` when no record does. */
  function FirstAliasIndex(users: seq<(string, User)>, email: string): (r: Option<nat>)
    ensures r.Some? ==> r.value < |users| && HasAlias(users[r.value].1, email)
    ensures r.Some? ==> forall j :: 0 <= j < r.value ==> !HasAlias(users[j].1, email)
    ensures r.None? ==> forall j :: 0 <= j < |users| ==> !HasAlias(users[j].1, email)
  {
    if users == [] then None
    else if HasAlias(users[0].1, email) then Some(0)
    else
      match FirstAliasIndex(users[1..], email)
      case None => None
      case Some(k) => Some(k + 1)
  }

  /** The user-resolution gate: the local part is a key of the whitelist, or
      else the scan finds a record that lists, among its aliases, the
      resource with its first `acct:` removed (for `acct:a@b@c` that is
      `a@b@c`, not `a@b`), which it does exactly when some record does. */
  predicate IsWhitelisted(users: seq<(string, User)>, acct: Account): (b: bool)
    ensures b <==> IsUserKey(users, acct.local) || exists i :: 0 <= i < |users| && HasAlias(users[i].1, acct.email)
  {
    IsUserKey(users, acct.local) || FirstAliasIndex(users, acct.email).Some?
  }

  /** The issuer advertised for `domain`: the domain's own override when it
      is present and non-empty (JavaScript `||`), else the global issuer. */
  function Issuer(cfg: Config, domain: string): (iss: string)
    requires domain in cfg.domains
    ensures iss == cfg.globalIssuer || (cfg.domains[domain] == Some(iss) && iss != "")
    ensures cfg.domains[domain].Some? && cfg.domains[domain].value != "" ==> iss == cfg.domains[domain].value
  {
    match cfg.domains[domain]
    case Some(own) => if own != "" then own else cfg.globalIssuer
    case None => cfg.globalIssuer
  }

  /** The response to a request that passed every gate: the resource as
      subject and one issuer link, pointing at the domain's own non-empty
      issuer or at the global one. */
  function Respond(acct: Account, cfg: Config): (jrd: Jrd)
    requires acct.domain in cfg.domains
    ensures jrd.subject == acct.resource && |jrd.links| == 1 && jrd.links[0].rel == IssuerRel
    ensures var href := jrd.links[0].href;
      href == cfg.globalIssuer || (cfg.domains[acct.domain] == Some(href) && href != "")
  {
    Jrd(acct.resource, [Link(IssuerRel, Issuer(cfg, acct.domain))])
  }

  /** The whole handler, as a function of the `resource` query parameter
      (`None` when absent), the hostname of the request URL and the
      configuration. */
  function Handle(resource: Option<string>, hostname: string, cfg: Config): (r: Result<Jrd, Error>)
    ensures r.Ok? ==> resource.Some? && r.value.subject == resource.value
    ensures r.Ok? ==> |r.value.links| == 1 && r.value.links[0].rel == IssuerRel
  {
    match Validate(resource, hostname, cfg)
    case Err(e) => Err(e)
    case Ok(acct) =>
      if IsWhitelisted(cfg.users, acct) then Ok(Respond(acct, cfg)) else Err(UserNotWhitelisted)
  }

  /** The alias scan: walks the user records in order and stops at the first
      one whose aliases contain `email`. */
  method ScanAliases(users: seq<(string, User)>, email: string) returns (userObject: Option<User>)
    ensures userObject.None? <==> FirstAliasIndex(users, email).None?
    ensures userObject.Some? ==> userObject.value == users[FirstAliasIndex(users, email).value].1
  {
    userObject := None;
    var i := 0;
    while i < |users|
      invariant 0 <= i <= |users|
      invariant forall j :: 0 <= j < i ==> !HasAlias(users[j].1, email)
    {
      if HasAlias(users[i].1, email) {
        userObject := Some(users[i].1);
        break;
      }
      i := i + 1;
    }
  }

  /** The handler as the source runs it: the gates, then the key lookup and,
      when that misses, the alias scan, then the response. */
  method HandleRequest(resource: Option<string>, hostname: string, cfg: Config) returns (r: Result<Jrd, Error>)
    ensures r == Handle(resource, hostname, cfg)
  {
    var validated := Validate(resource, hostname, cfg);
    if validated.Err? {
      return Err(validated.error);
    }
    var acct := validated.value;
    if !IsUserKey(cfg.users, acct.local) {
      var userObject := ScanAliases(cfg.users, acct.email);
      if userObject.None? {
        return Err(UserNotWhitelisted);
      }
    }
    return Ok(Respond(acct, cfg));
  }

  /** What the client receives: a status and a JSON body. */
  datatype Response = Response(status: nat, body: Body)

  datatype Body =
    | JrdBody(jrd: Jrd)
    | MessageBody(message: string, url: Option<string>)

  /** `c.json(output)` on success; `c.json({message}, 400)` on a failure, with
      the retry `url` beside the message for a domain mismatch only. */
  function ToResponse(r: Result<Jrd, Error>): (resp: Response)
    ensures resp.status == 200 <==> r.Ok?
    ensures r.Ok? ==> resp.body == JrdBody(r.value)
    ensures r.Err? ==> resp.status == 400 && resp.body.MessageBody? && resp.body.message == Message(r.error)
    ensures r.Err? ==> (resp.body.url.Some? <==> r.error.DomainMismatch?)
    ensures r.Err? && r.error.DomainMismatch? ==> resp.body.url == Some(r.error.url)
  {
    match r
    case Ok(jrd) => Response(200, JrdBody(jrd))
    case Err(DomainMismatch(url)) => Response(400, MessageBody(Message(r.error), Some(url)))
    case Err(e) => Response(400, MessageBody(Message(e), None))
  }
}
