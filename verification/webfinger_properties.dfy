/** What the WebFinger handler promises, gate by gate: which failure each
    input gets, in which order the gates are consulted, and what a successful
    response holds. */
module WebfingerProperties {
  import opened Wrappers
  import opened JsStrings
  import opened UriEncoding
  import opened Webfinger

  /** The resource parameter was supplied and is not empty (JavaScript truthiness). */
  predicate Present(resource: Option<string>) {
    resource.Some? && resource.value != ""
  }

  /** In `email`, the first `@` stands at `k` and is followed by a character
      other than `@`: the domain piece after it is not empty. */
  predicate DomainStartsAt(email: string, k: nat) {
    k + 1 < |email| && email[k] == '@' && '@' !in email[..k] && email[k + 1] != '@'
  }

  /** `email` is `local@domain` followed by nothing or by another `@`. */
  predicate SplitsAs(email: string, local: string, domain: string) {
    && '@' !in local && '@' !in domain
    && local + "@" + domain <= email
    && (|email| == |local| + 1 + |domain| || email[|local| + 1 + |domain|] == '@')
  }

  /** Only one `@` can be the first. */
  lemma FirstAtUnique(email: string, j: nat, k: nat)
    requires j < |email| && email[j] == '@' && '@' !in email[..j]
    requires k < |email| && email[k] == '@' && '@' !in email[..k]
    ensures j == k
  {
  }

  /** The pieces of `email.split("@")` around the first `@`: the first is
      what precedes it, the second runs from it to the next `@` or the end. */
  lemma SecondPiece(email: string)
    requires '@' in email
    ensures var parts := Split(email, '@'); var k := |parts[0]|;
      && k < |email| && email[k] == '@' && '@' !in email[..k]
      && SplitsAs(email, parts[0], parts[1])
  {
    var parts := Split(email, '@');
    var k := |parts[0]|;
    var tail := email[k + 1..];
    FirstPiece(email, '@');
    SplitTail(email, '@');
    assert parts[1] == Split(tail, '@')[0];
    FirstPiece(tail, '@');
    PrefixAround(email, parts[0], '@', parts[1]);
  }

  /** `a`, then `c`, then `b` is a prefix of `s` when `a` is, `c` follows it
      in `s` and `b` is a prefix of the rest. */
  lemma PrefixAround(s: string, a: string, c: char, b: string)
    requires a <= s && |a| < |s| && s[|a|] == c && b <= s[|a| + 1..]
    ensures a + [c] + b <= s
  {
    assert a + [c] + b == s[..|a| + 1 + |b|];
  }

  /** The second piece is empty exactly when the first `@` ends the string or
      is followed by another `@`. */
  lemma SecondPieceEmpty(email: string)
    requires '@' in email
    ensures var parts := Split(email, '@'); var k := |parts[0]|;
      parts[1] != "" <==> k + 1 < |email| && email[k + 1] != '@'
  {
    var parts := Split(email, '@');
    var k := |parts[0]|;
    SplitTail(email, '@');
    FirstPiece(email[k + 1..], '@');
  }

  /** The domain check on the resource with `acct:` removed, stated without
      `split`: a non-empty second piece exists exactly when the first `@` is
      followed by a character other than `@`. */
  lemma DomainPieceCorrect(email: string)
    ensures var domain := At(Split(email, '@'), 1);
      (domain.Some? && domain.value != "") <==> exists k :: DomainStartsAt(email, k)
  {
    var parts := Split(email, '@');
    if '@' in email {
      SecondPiece(email);
      SecondPieceEmpty(email);
      var k := |parts[0]|;
      forall j | DomainStartsAt(email, j) ensures j == k {
        FirstAtUnique(email, j, k);
      }
      if parts[1] != "" {
        assert DomainStartsAt(email, k);
      }
    } else {
      assert forall j :: !DomainStartsAt(email, j);
    }
  }

  /** The format gate, stated without `split`: the resource passes exactly
      when it contains `acct:` anywhere and, once the first `acct:` is
      removed, the first `@` is followed by a character other than `@`. The
      local part is what precedes that `@`, the domain runs up to the next
      `@` or the end. */
  lemma ParseResourceCorrect(resource: string)
    ensures var email := ReplaceFirst(resource, AcctScheme, "");
      ParseResource(resource).Ok?
      <==> Includes(resource, AcctScheme) && exists k :: DomainStartsAt(email, k)
    ensures ParseResource(resource).Ok? ==>
      var acct := ParseResource(resource).value;
      acct.email == ReplaceFirst(resource, AcctScheme, "") && SplitsAs(acct.email, acct.local, acct.domain)
  {
    var email := ReplaceFirst(resource, AcctScheme, "");
    DomainPieceCorrect(email);
    if ParseResource(resource).Ok? {
      SecondPiece(email);
    }
  }

  /** The plain case: `acct:local@domain` with no further `@` and a
      non-empty domain parses into exactly those parts. */
  lemma ParseCanonical(local: string, domain: string)
    requires '@' !in local && '@' !in domain && domain != ""
    ensures var resource := "acct:" + (local + "@" + domain);
      ParseResource(resource) == Ok(Account(resource, local + "@" + domain, local, domain))
  {
    ParseAfterPrefix("", local, domain);
    assert "" + AcctScheme + (local + "@" + domain) == "acct:" + (local + "@" + domain);
    assert "" + (local + "@" + domain) == local + "@" + domain;
    assert "" + local == local;
  }

  /** After a prefix that cannot hold `acct:` (it has no `a`), `replace`
      removes the `acct:` that follows the prefix. */
  lemma RemoveSchemeAfter(prefix: string, rest: string)
    requires 'a' !in prefix
    ensures ReplaceFirst(prefix + AcctScheme + rest, AcctScheme, "") == prefix + rest
  {
    var resource := prefix + AcctScheme + rest;
    var k := |prefix|;
    assert resource[k..k + 5] == AcctScheme;
    forall j: nat | j < k ensures !OccursAt(resource, AcctScheme, j) {
      assert resource[j] == prefix[j];
    }
    ReplaceFirstAt(resource, AcctScheme, "", k);
    assert resource[..k] == prefix;
    assert resource[k + 5..] == rest;
  }

  /** `replace` removes a leading `acct:`. */
  lemma RemoveScheme(rest: string)
    ensures ReplaceFirst("acct:" + rest, AcctScheme, "") == rest
  {
    RemoveSchemeAfter("", rest);
    assert "" + AcctScheme + rest == "acct:" + rest;
    assert "" + rest == rest;
  }

  /** `acct:` need not open the resource: after a prefix without `a` or `@`,
      the first `acct:` is removed and the prefix joins the local part. */
  lemma ParseAfterPrefix(prefix: string, local: string, domain: string)
    requires 'a' !in prefix && '@' !in prefix
    requires '@' !in local && '@' !in domain && domain != ""
    ensures var resource := prefix + AcctScheme + (local + "@" + domain);
      ParseResource(resource) == Ok(Account(resource, prefix + (local + "@" + domain), prefix + local, domain))
  {
    var resource := prefix + AcctScheme + (local + "@" + domain);
    var email := prefix + (local + "@" + domain);
    assert ReplaceFirst(resource, AcctScheme, "") == email by {
      RemoveSchemeAfter(prefix, local + "@" + domain);
    }
    assert Split(email, '@') == [prefix + local, domain] by {
      assert email == prefix + local + "@" + domain;
      SplitAtFirstSep(prefix + local, domain, '@');
      SplitWithoutSep(domain, '@');
    }
    ParsedAs(resource, email, prefix + local, domain);
  }

  /** Whatever follows a second `@` is dropped: the domain is the piece
      between the first two. */
  lemma ParseStopsAtSecondAt(local: string, domain: string, more: string)
    requires '@' !in local && '@' !in domain && domain != ""
    ensures var resource := "acct:" + (local + "@" + (domain + "@" + more));
      ParseResource(resource) == Ok(Account(resource, local + "@" + (domain + "@" + more), local, domain))
  {
    var email := local + "@" + (domain + "@" + more);
    RemoveScheme(email);
    SplitTwoPieces(local, domain, more);
    ParsedAs("acct:" + email, email, local, domain);
  }

  /** The first two pieces of `local@domain@more`. */
  lemma SplitTwoPieces(local: string, domain: string, more: string)
    requires '@' !in local && '@' !in domain
    ensures var parts := Split(local + "@" + (domain + "@" + more), '@');
      |parts| > 1 && parts[0] == local && parts[1] == domain
  {
    SplitAtFirstSep(local, domain + "@" + more, '@');
    SplitAtFirstSep(domain, more, '@');
  }

  /** The format gate passes once the removal of `acct:` and the split are known. */
  lemma ParsedAs(resource: string, email: string, local: string, domain: string)
    requires ReplaceFirst(resource, AcctScheme, "") == email && |email| < |resource|
    requires var parts := Split(email, '@'); |parts| > 1 && parts[0] == local && parts[1] == domain
    requires domain != ""
    ensures ParseResource(resource) == Ok(Account(resource, email, local, domain))
  {
  }

  /** A missing or empty resource is reported first, whatever else is wrong. */
  lemma MissingResourceFirst(resource: Option<string>, hostname: string, cfg: Config)
    ensures Handle(resource, hostname, cfg) == Err(MissingResource) <==> !Present(resource)
  {
  }

  /** A present resource that fails the format gate is reported as malformed,
      before the configuration is looked at. */
  lemma MalformedSecond(resource: string, hostname: string, cfg: Config)
    requires resource != ""
    ensures Handle(Some(resource), hostname, cfg) == Err(MalformedResource)
      <==> !Includes(resource, AcctScheme) || forall k :: !DomainStartsAt(ReplaceFirst(resource, AcctScheme, ""), k)
  {
    ParseResourceCorrect(resource);
  }

  /** Once the format gate passes, the empty whitelist and the missing domain
      get two distinct failures, the empty whitelist first. */
  lemma DomainGates(resource: string, hostname: string, cfg: Config, acct: Account)
    requires ParseResource(resource) == Ok(acct)
    ensures Handle(Some(resource), hostname, cfg) == Err(NoDomainsWhitelisted) <==> |cfg.domains| == 0
    ensures Handle(Some(resource), hostname, cfg) == Err(DomainNotWhitelisted)
      <==> |cfg.domains| > 0 && acct.domain !in cfg.domains
  {
  }

  /** With the domain whitelisted, the request fails on its origin exactly
      when the hostname is neither the requested domain nor `localhost`, and
      then it carries the URL of the same query on the requested domain. */
  lemma OriginGate(resource: string, hostname: string, cfg: Config, acct: Account)
    requires ParseResource(resource) == Ok(acct) && acct.domain in cfg.domains
    ensures var r := Handle(Some(resource), hostname, cfg);
      r.Err? && r.error.DomainMismatch? <==> hostname != acct.domain && hostname != Localhost
    ensures var r := Handle(Some(resource), hostname, cfg);
      r.Err? && r.error.DomainMismatch? ==>
        r.error.url == "https://" + acct.domain + "/.well-known/webfinger?resource=" + EncodeURIComponent(resource)
  {
  }

  /** The hostname matters to the origin gate only: any request either fails
      there or is answered as the same request from `localhost` would be. */
  lemma HostnameOnlyMattersAtOrigin(resource: Option<string>, hostname: string, cfg: Config)
    ensures var r := Handle(resource, hostname, cfg);
      r == Handle(resource, Localhost, cfg) || (r.Err? && r.error.DomainMismatch?)
  {
  }

  /** A request from `localhost` never fails the origin gate. */
  lemma LocalhostPassesOrigin(resource: Option<string>, cfg: Config)
    ensures var r := Handle(resource, Localhost, cfg); !(r.Err? && r.error.DomainMismatch?)
  {
  }

  /** Past the origin gate, an empty user whitelist is reported; otherwise the
      request is refused exactly when no record has the local part as its key
      and no record lists among its aliases the resource with its first
      `acct:` removed (for `acct:a@b@c` that is `a@b@c`, not `a@b`). */
  lemma UserGates(resource: string, hostname: string, cfg: Config, acct: Account)
    requires ParseResource(resource) == Ok(acct) && acct.domain in cfg.domains
    requires hostname == acct.domain || hostname == Localhost
    ensures Handle(Some(resource), hostname, cfg) == Err(NoUsersWhitelisted) <==> |cfg.users| == 0
    ensures Handle(Some(resource), hostname, cfg) == Err(UserNotWhitelisted)
      <==> |cfg.users| > 0
           && forall i :: 0 <= i < |cfg.users| ==>
                cfg.users[i].0 != acct.local && !HasAlias(cfg.users[i].1, acct.email)
  {
    if |cfg.users| > 0 && forall i :: 0 <= i < |cfg.users| ==>
         cfg.users[i].0 != acct.local && !HasAlias(cfg.users[i].1, acct.email) {
      assert !IsWhitelisted(cfg.users, acct);
    }
  }

  /** A successful response echoes the resource verbatim as its subject and
      holds exactly one link, the issuer: the domain's override when it is
      present and non-empty, the global issuer otherwise. */
  lemma SuccessResponse(resource: Option<string>, hostname: string, cfg: Config)
    requires Handle(resource, hostname, cfg).Ok?
    ensures var jrd := Handle(resource, hostname, cfg).value;
      var acct := ParseResource(resource.value).value;
      && acct.domain in cfg.domains
      && jrd.subject == resource.value
      && jrd.links == [Link(IssuerRel,
           match cfg.domains[acct.domain]
           case Some(own) => if own != "" then own else cfg.globalIssuer
           case None => cfg.globalIssuer)]
  {
  }

  /** A request that passes the gates and whose local part is a key of the
      user whitelist succeeds, with the resource as subject and the domain's
      issuer as its link. */
  lemma KeyMatchSucceeds(resource: string, hostname: string, cfg: Config, acct: Account, i: nat)
    requires ParseResource(resource) == Ok(acct) && acct.domain in cfg.domains
    requires hostname == acct.domain || hostname == Localhost
    requires i < |cfg.users| && cfg.users[i].0 == acct.local
    ensures Handle(Some(resource), hostname, cfg) == Ok(Jrd(resource, [Link(IssuerRel, Issuer(cfg, acct.domain))]))
  {
  }

  /** A user found only through another record's aliases is answered with the
      resource as requested, not with that record's key. The scan takes the
      first matching record, and any matching record is enough. */
  lemma AliasMatchKeepsSubject(resource: string, hostname: string, cfg: Config, acct: Account, i: nat)
    requires ParseResource(resource) == Ok(acct) && acct.domain in cfg.domains
    requires hostname == acct.domain || hostname == Localhost
    requires !IsUserKey(cfg.users, acct.local)
    requires i < |cfg.users| && HasAlias(cfg.users[i].1, acct.email)
    ensures Handle(Some(resource), hostname, cfg) == Ok(Jrd(resource, [Link(IssuerRel, Issuer(cfg, acct.domain))]))
    ensures FirstAliasIndex(cfg.users, acct.email).Some? && FirstAliasIndex(cfg.users, acct.email).value <= i
  {
  }

  /** The alias looked up is the resource with its first `acct:` removed,
      not the parsed `local@domain`: for `acct:local@domain@more`, a single
      record under another key that lists only `local@domain` leaves the
      user refused. */
  lemma LocalDomainAliasRefused(local: string, domain: string, more: string, key: string, issuer: string)
    requires '@' !in local && '@' !in domain && domain != "" && key != local
    ensures var resource := "acct:" + (local + "@" + (domain + "@" + more));
      var cfg := Config(issuer, map[domain := None], [(key, User(Some([local + "@" + domain])))]);
      Handle(Some(resource), domain, cfg) == Err(UserNotWhitelisted)
  {
    var email := local + "@" + (domain + "@" + more);
    var resource := "acct:" + email;
    var acct := Account(resource, email, local, domain);
    assert ParseResource(resource) == Ok(acct) by {
      ParseStopsAtSecondAt(local, domain, more);
    }
    var user := User(Some([local + "@" + domain]));
    assert !HasAlias(user, email) by {
      assert |local + "@" + domain| < |email|;
    }
    SingleRecordRefuses(key, user, acct);
    PastTheGates(resource, domain, Config(issuer, map[domain := None], [(key, user)]), acct);
  }

  /** A whitelist of one record refuses an account whose local part is not
      the record's key and whose stripped resource is not among its aliases. */
  lemma SingleRecordRefuses(key: string, user: User, acct: Account)
    requires key != acct.local && !HasAlias(user, acct.email)
    ensures !IsWhitelisted([(key, user)], acct)
  {
    assert [(key, user)][1..] == [];
  }

  /** The counterpart: a single record under another key that lists the
      whole `local@domain@more` admits `acct:local@domain@more`. */
  lemma StrippedAliasAdmitted(local: string, domain: string, more: string, key: string, issuer: string)
    requires '@' !in local && '@' !in domain && domain != "" && key != local
    ensures var resource := "acct:" + (local + "@" + (domain + "@" + more));
      var cfg := Config(issuer, map[domain := None], [(key, User(Some([local + "@" + (domain + "@" + more)])))]);
      Handle(Some(resource), domain, cfg) == Ok(Jrd(resource, [Link(IssuerRel, issuer)]))
  {
    var email := local + "@" + (domain + "@" + more);
    var resource := "acct:" + email;
    ParseStopsAtSecondAt(local, domain, more);
    var acct := Account(resource, email, local, domain);
    var cfg := Config(issuer, map[domain := None], [(key, User(Some([email])))]);
    assert IsWhitelisted(cfg.users, acct) by {
      assert HasAlias(cfg.users[0].1, email);
    }
    PastTheGates(resource, domain, cfg, acct);
    assert Handle(Some(resource), domain, cfg) == Ok(Respond(acct, cfg));
    assert Issuer(cfg, domain) == issuer;
  }

  /** A request that parses, names a whitelisted domain, comes from that
      domain or `localhost` and meets a non-empty user whitelist passes
      every gate before user resolution. */
  lemma PastTheGates(resource: string, hostname: string, cfg: Config, acct: Account)
    requires ParseResource(resource) == Ok(acct) && acct.domain in cfg.domains
    requires hostname == acct.domain || hostname == Localhost
    requires |cfg.users| > 0
    ensures Validate(Some(resource), hostname, cfg) == Ok(acct)
  {
  }

  /** Each failure kind has its own message, so that a client can tell the
      gates apart; only the domain mismatch carries a URL. */
  lemma MessagesDistinct(e1: Error, e2: Error)
    requires e1 != e2 && !(e1.DomainMismatch? && e2.DomainMismatch?)
    ensures Message(e1) != Message(e2)
  {
    match e1
    case MissingResource =>
    case MalformedResource =>
    case NoDomainsWhitelisted =>
    case DomainNotWhitelisted =>
    case DomainMismatch(_) =>
    case NoUsersWhitelisted =>
    case UserNotWhitelisted =>
  }
}
