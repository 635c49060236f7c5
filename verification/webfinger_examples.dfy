/** The handler on concrete requests: the configuration the unit tests mock
    (one domain, no users) and a few resources that show how the format gate
    reads `acct:` and `@`. Resources such as `acct:hey@some-domain.com` are
    written as `"acct:" + ("hey" + "@" + "some-domain.com")`, the shape in
    which the general parse lemmas (`ParseCanonical`, `ParseStopsAtSecondAt`)
    state them, so that those lemmas apply to the literals directly. */
module WebfingerExamples {
  import opened Wrappers
  import opened JsStrings
  import opened UriEncoding
  import opened Webfinger
  import opened WebfingerProperties

  /** The mocked configuration: a global issuer, `some-domain.com` without an
      override, and no user whitelist at all. */
  function MockConfig(): Config
  {
    Config("https://example.com/oidc/", map["some-domain.com" := None], [])
  }

  lemma EncodeColon()
    ensures EncodeURIComponent(":") == "%3A"
  {
    assert Utf8(':') == [0x3A as byte];
    assert PercentBytes([0x3A as byte]) == PercentByte(0x3A as byte) + PercentBytes([]);
    assert EncodeURIComponent(":") == EncodeChar(':') + EncodeURIComponent("");
  }

  lemma EncodeAt()
    ensures EncodeURIComponent("@") == "%40"
  {
    assert Utf8('@') == [0x40 as byte];
    assert PercentBytes([0x40 as byte]) == PercentByte(0x40 as byte) + PercentBytes([]);
    assert EncodeURIComponent("@") == EncodeChar('@') + EncodeURIComponent("");
  }

  lemma EncodeScheme()
    ensures EncodeURIComponent("acct:") == "acct%3A"
  {
    assert EncodeURIComponent("acct" + ":") == "acct" + "%3A" by {
      assert EncodeURIComponent("acct") == "acct" by {
        assert AllUnreserved("acct");
      }
      EncodeColon();
      EncodeAppend("acct", ":");
    }
    assert "acct" + ":" == "acct:";
    assert "acct" + "%3A" == "acct%3A";
  }

  /** An account whose local part and domain need no escaping is encoded by
      escaping only its `:` and its `@`. */
  lemma EncodeAccount(local: string, domain: string)
    requires AllUnreserved(local) && AllUnreserved(domain)
    ensures EncodeURIComponent("acct:" + (local + "@" + domain)) == "acct%3A" + (local + "%40" + domain)
  {
    var rest := local + "@" + domain;
    assert EncodeURIComponent(rest) == local + "%40" + domain by {
      EncodeAppend(local + "@", domain);
      EncodeAppend(local, "@");
      EncodeAt();
    }
    EncodeScheme();
    EncodeAppend("acct:", rest);
  }

  /** The retry URL of the unit test escapes `:` and `@` and leaves the rest. */
  lemma EncodeTestResource()
    ensures EncodeURIComponent("acct:" + ("hey" + "@" + "some-domain.com"))
         == "acct%3A" + ("hey" + "%40" + "some-domain.com")
  {
    EncodeAccount("hey", "some-domain.com");
  }

  /** No resource parameter: the presence gate fails. */
  lemma MissingResourceExample()
    ensures Handle(None, Localhost, MockConfig()) == Err(MissingResource)
  {
  }

  /** `acct:something` has no `@`: the format gate fails. */
  lemma MalformedExample()
    ensures Handle(Some("acct:" + "something"), Localhost, MockConfig()) == Err(MalformedResource)
  {
    var resource := "acct:" + "something";
    assert ParseResource(resource) == Err(MalformedResource) by {
      assert resource == "" + AcctScheme + "something";
      RemoveSchemeAfter("", "something");
      assert "" + "something" == "something";
      SplitWithoutSep("something", '@');
    }
  }

  /** `example.com` is not whitelisted. */
  lemma DomainNotWhitelistedExample()
    ensures Handle(Some("acct:" + ("example" + "@" + "example.com")), Localhost, MockConfig())
         == Err(DomainNotWhitelisted)
  {
    var resource := "acct:" + ("example" + "@" + "example.com");
    ParseCanonical("example", "example.com");
    var acct := Account(resource, "example" + "@" + "example.com", "example", "example.com");
    DomainGates(resource, Localhost, MockConfig(), acct);
  }

  /** Asked from 127.0.0.1 for `some-domain.com`: the origin gate fails and
      names the same query on `some-domain.com`. */
  lemma DomainMismatchExample()
    ensures Handle(Some("acct:" + ("hey" + "@" + "some-domain.com")), "127.0.0.1", MockConfig())
         == Err(DomainMismatch("https://" + "some-domain.com" + "/.well-known/webfinger?resource="
                               + ("acct%3A" + ("hey" + "%40" + "some-domain.com"))))
  {
    var resource := "acct:" + ("hey" + "@" + "some-domain.com");
    ParseCanonical("hey", "some-domain.com");
    var acct := Account(resource, "hey" + "@" + "some-domain.com", "hey", "some-domain.com");
    OriginGate(resource, "127.0.0.1", MockConfig(), acct);
    EncodeTestResource();
  }

  /** The same request from `localhost` passes the origin gate, but the
      mocked configuration has no users. */
  lemma LocalhostWithoutUsersExample()
    ensures Handle(Some("acct:" + ("hey" + "@" + "some-domain.com")), Localhost, MockConfig())
         == Err(NoUsersWhitelisted)
  {
    var resource := "acct:" + ("hey" + "@" + "some-domain.com");
    ParseCanonical("hey", "some-domain.com");
    var acct := Account(resource, "hey" + "@" + "some-domain.com", "hey", "some-domain.com");
    UserGates(resource, Localhost, MockConfig(), acct);
  }

  /** The request the tests send to `some-domain.com` itself passes the
      origin gate too, and is refused for the same reason. */
  lemma SameHostWithoutUsersExample()
    ensures Handle(Some("acct:" + ("hey" + "@" + "some-domain.com")), "some-domain.com", MockConfig())
         == Err(NoUsersWhitelisted)
  {
    var resource := "acct:" + ("hey" + "@" + "some-domain.com");
    ParseCanonical("hey", "some-domain.com");
    var acct := Account(resource, "hey" + "@" + "some-domain.com", "hey", "some-domain.com");
    UserGates(resource, "some-domain.com", MockConfig(), acct);
  }

  /** With a user whitelisted under the key `hey`, the request succeeds and
      advertises the global issuer, since the domain has no override. */
  lemma WhitelistedUserExample()
    ensures var resource := "acct:" + ("hey" + "@" + "some-domain.com");
      Handle(Some(resource), "some-domain.com", MockConfig().(users := [("hey", User(None))]))
      == Ok(Jrd(resource, [Link(IssuerRel, "https://example.com/oidc/")]))
  {
    var resource := "acct:" + ("hey" + "@" + "some-domain.com");
    ParseCanonical("hey", "some-domain.com");
    var acct := Account(resource, "hey" + "@" + "some-domain.com", "hey", "some-domain.com");
    var cfg := MockConfig().(users := [("hey", User(None))]);
    KeyMatchSucceeds(resource, "some-domain.com", cfg, acct, 0);
  }

  /** `acct:` need not be a prefix: it is removed wherever it first occurs. */
  lemma AcctAnywhereExample()
    ensures var resource := "x-" + "acct:" + ("a" + "@" + "b");
      ParseResource(resource) == Ok(Account(resource, "x-" + ("a" + "@" + "b"), "x-" + "a", "b"))
  {
    ParseAfterPrefix("x-", "a", "b");
  }

  /** With a second `@`, the domain is the piece between the first two. */
  lemma SecondAtExample()
    ensures var resource := "acct:" + ("a" + "@" + ("b" + "@" + "c"));
      ParseResource(resource) == Ok(Account(resource, "a" + "@" + ("b" + "@" + "c"), "a", "b"))
  {
    ParseStopsAtSecondAt("a", "b", "c");
  }

  /** With a second `@` the alias looked up is `a@b@c`, the resource with
      its first `acct:` removed, not `a@b`: a record listing only `a@b` does
      not admit `acct:a@b@c` on domain `b`, and one listing `a@b@c` does. */
  lemma SecondAtAliasExample()
    ensures var resource := "acct:" + ("a" + "@" + ("b" + "@" + "c"));
      var cfg := Config("https://example.com/oidc/", map["b" := None], [("x", User(Some(["a" + "@" + "b"])))]);
      Handle(Some(resource), "b", cfg) == Err(UserNotWhitelisted)
    ensures var resource := "acct:" + ("a" + "@" + ("b" + "@" + "c"));
      var cfg := Config("https://example.com/oidc/", map["b" := None], [("x", User(Some(["a" + "@" + ("b" + "@" + "c")])))]);
      Handle(Some(resource), "b", cfg) == Ok(Jrd(resource, [Link(IssuerRel, "https://example.com/oidc/")]))
  {
    LocalDomainAliasRefused("a", "b", "c", "x", "https://example.com/oidc/");
    StrippedAliasAdmitted("a", "b", "c", "x", "https://example.com/oidc/");
  }

  /** An empty local part passes the format gate. */
  lemma EmptyLocalPartExample()
    ensures var resource := "acct:" + ("" + "@" + "b");
      ParseResource(resource) == Ok(Account(resource, "" + "@" + "b", "", "b"))
  {
    ParseCanonical("", "b");
  }
}
