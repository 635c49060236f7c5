# cf-webfinger: a Dafny model of the WebFinger handler

This project models the one piece of logic in cf-webfinger: the
`GET /.well-known/webfinger` handler in `src/index.ts`. The handler answers
`acct:user@domain` lookups (section 4 of RFC 7033) against a static whitelist
of domains and users. It runs a chain of gates in a fixed order:

1. the resource is present and non-empty;
2. it has the `acct:` form and a non-empty domain;
3. the domain whitelist is non-empty;
4. the domain is whitelisted;
5. the request hostname is the domain, or `localhost`;
6. the user whitelist is non-empty;
7. the user is whitelisted, by key or through some record's aliases.

The first gate that fails ends the request with status 400 and a fixed
message. A request that passes every gate gets a JSON Resource Descriptor:
the resource as subject, and one OpenID Connect issuer link.

Files and modules:

- `wrappers.dfy` (`Wrappers`): `Option` and `Result`.
- `js_strings.dfy` (`JsStrings`): the JavaScript string built-ins the handler
  calls. These are `includes`, `replace` with a string pattern (first
  occurrence only), `split` on one character, and array indexing that
  yields `undefined` past the end. All three string operations are built on
  one search, which behaves as `indexOf` does. `split` is proved against
  `join` in both directions.
- `uri_encoding.dfy` (`UriEncoding`): `encodeURIComponent` over Unicode
  scalar values. A character is kept when unreserved; otherwise it becomes
  its UTF-8 bytes, each written as `%XX`. It is proved to be undone by
  percent-decoding, and UTF-8 is proved to be undone by UTF-8 decoding.
- `webfinger.dfy` (`Webfinger`): the configuration, the response document
  and the error kinds. The gates are pure functions (`ParseResource`,
  `Validate`). The whole handler is the function `Handle`. The alias scan
  is an imperative loop (`ScanAliases`), as the source's `for … break` is.
  `HandleRequest` runs `Validate`, the key lookup, the loop and `Respond`, and is proved
  equal to `Handle`. `ToResponse` maps the result to a status and a JSON
  body.
- `webfinger_properties.dfy` (`WebfingerProperties`): the gate-by-gate
  contract. It proves which failure each input gets and that the gates run
  in order. It also states the format gate without `split`, and proves
  what a successful response holds.
- `webfinger_examples.dfy` (`WebfingerExamples`): the handler on the
  requests of `src/index.test.ts`, under its mocked configuration. It also
  shows how the format gate reads `acct:` and `@`.

Where the handler and other descriptions of the system disagree, the model
follows the handler:

- The format gate accepts `acct:` anywhere in the resource, not only as a
  prefix. Only the first occurrence is removed before splitting.
- For `acct:a@b@c` the domain is `b`, the piece between the first two `@`.
  The alias looked up for it is still `a@b@c`, the whole resource with its
  first `acct:` removed.
- An empty local part (`acct:@b`) passes the format gate.
- The response has no aliases, no properties and no `rel` filtering. It
  has exactly one link, the issuer.
- The alias field read on each user record is `aliases`. The global issuer
  is `oauth.issuer`.
- The unit tests at `src/index.test.ts:14-26` expect status 200. Their
  mocked configuration has no users, though, so the handler answers 400
  "No users are whitelisted for access". `SameHostWithoutUsersExample`
  proves this for the request to `some-domain.com`, and
  `LocalhostWithoutUsersExample` for the one from `localhost`.

## Model

| member | source | states |
|---|---|---|
| `JsStrings.IndexOfFrom` | src/index.ts:18 | the index returned is an occurrence of the pattern at or after the start, and no earlier occurrence exists; `None` only when there is no occurrence at all |
| `JsStrings.Includes` | src/index.ts:22 | true exactly when the pattern occurs at some position, not only at the start |
| `JsStrings.ReplaceFirst` | src/index.ts:18 | without an occurrence the string is unchanged; with one, the length changes by the replacement minus the pattern |
| `JsStrings.ReplaceFirstAt` | src/index.ts:18 | when the first occurrence is at `i`, the result is the text before `i`, then the replacement, then the text after the occurrence |
| `JsStrings.Split` | src/index.ts:19-20 | there is at least one piece and no piece holds the separator; the first piece is a prefix ending at the first separator; there is a single piece, equal to the string, exactly when the separator is absent |
| `JsStrings.FirstPiece` | src/index.ts:19 | the first piece is a separator-free prefix, followed by the end or by a separator; it is empty exactly when the string is empty or starts with the separator |
| `JsStrings.SplitTail` | src/index.ts:20 | after the first piece and its separator, the remaining pieces are the split of the rest of the string |
| `JsStrings.JoinSplit` | src/index.ts:19-20 | joining the pieces of a split gives back the original string |
| `JsStrings.SplitJoin` | src/index.ts:19-20 | splitting a join of separator-free pieces gives back the pieces |
| `JsStrings.SplitAtFirstSep` | src/index.ts:19-20 | `a + sep + rest` with no separator in `a` splits into `a` followed by the pieces of `rest` |
| `UriEncoding.Utf8RoundTrip` | src/index.ts:43-45 | the UTF-8 bytes of every character decode back to that character |
| `UriEncoding.EncodeURIComponent` | src/index.ts:43-45 | the output holds only unreserved characters and `%`; a string of unreserved characters is returned unchanged |
| `UriEncoding.EncodeAppend` | src/index.ts:43-45 | encoding distributes over concatenation |
| `UriEncoding.EncodeDecode` | src/index.ts:43-45 | percent-decoding the encoding gives exactly the UTF-8 bytes of the original string |
| `Webfinger.Message` | src/index.ts:14-67 | every failure kind has a non-empty message, its text verbatim from the handler; `MessagesDistinct` proves the messages tell the kinds apart |
| `Webfinger.RetryUrl` | src/index.ts:43-45 | the URL is the WebFinger endpoint on the requested domain, followed by a query value that holds only unreserved characters and `%` and percent-decodes to exactly the resource's UTF-8 bytes |
| `Webfinger.ParseResource` | src/index.ts:17-27 | a failure is always the malformed-resource error; on success the domain is non-empty and neither local part nor domain holds `@` |
| `Webfinger.Validate` | src/index.ts:11-56 | on success the resource was supplied and parses to the account returned, the domain is whitelisted, the user whitelist is non-empty, and the hostname is the domain or `localhost` |
| `Webfinger.FirstAliasIndex` | src/index.ts:59-64 | the index is that of a record whose aliases contain the account, and no earlier record's do; `None` exactly when no record's aliases contain it |
| `Webfinger.IsWhitelisted` | src/index.ts:58-69 | the user passes exactly when the local part is a key of the whitelist or some record's aliases contain the resource with its first `acct:` removed (for `acct:a@b@c` that is `a@b@c`, not `a@b`) |
| `Webfinger.Respond` | src/index.ts:72-80 | the document has the resource as subject and exactly one link, with the issuer relation, whose href is the global issuer or the domain's non-empty override |
| `Webfinger.Issuer` | src/index.ts:77 | the issuer is the domain's override when that is present and non-empty; otherwise it is the global issuer |
| `Webfinger.Handle` | src/index.ts:8-82 | a success echoes the supplied resource as subject and has exactly one link, whose rel is the OpenID Connect issuer relation |
| `Webfinger.ScanAliases` | src/index.ts:59-64 | the loop finds a record exactly when some record's aliases contain the account, and it returns the first such record in order |
| `Webfinger.HandleRequest` | src/index.ts:8-82 | `Validate`, then the key lookup and the `ScanAliases` loop, then `Respond`, give exactly the result of `Handle` |
| `Webfinger.ToResponse` | src/index.ts:12-81 | status 200 exactly on success, with the document as body; every failure is a 400 with its gate's message; a URL is attached for a domain mismatch and for no other failure |
| `WebfingerProperties.FirstAtUnique` | src/index.ts:19 | two positions that each hold the first `@` are the same position |
| `WebfingerProperties.SecondPiece` | src/index.ts:19-20 | the first piece of the split ends at the first `@`; the stripped resource is `local@domain`, followed by the end or another `@` |
| `WebfingerProperties.SecondPieceEmpty` | src/index.ts:20-22 | the domain piece is empty exactly when the first `@` ends the string or is followed by another `@` |
| `WebfingerProperties.DomainPieceCorrect` | src/index.ts:19-22 | there is a non-empty second piece exactly when the first `@` is followed by a character other than `@` |
| `WebfingerProperties.ParseResourceCorrect` | src/index.ts:17-27 | the format gate passes exactly when `acct:` occurs anywhere and, after its first occurrence is removed, the first `@` is followed by a non-`@`; the local part and domain are then the pieces around that `@` |
| `WebfingerProperties.ParseCanonical` | src/index.ts:17-27 | `acct:local@domain`, with no `@` in either part and a non-empty domain, parses into exactly those parts |
| `WebfingerProperties.RemoveSchemeAfter` | src/index.ts:18 | after a prefix that holds no `a`, `replace` removes the `acct:` that follows it, keeping the prefix and the rest |
| `WebfingerProperties.ParseAfterPrefix` | src/index.ts:17-27 | `<prefix>acct:local@domain`, with no `a` or `@` in the prefix, parses with the prefix joined to the local part |
| `WebfingerProperties.ParseStopsAtSecondAt` | src/index.ts:19-22 | in `acct:local@domain@more` the domain is the piece between the first two `@`, whatever follows |
| `WebfingerProperties.MissingResourceFirst` | src/index.ts:12-15 | the result is the missing-resource error exactly when the resource is absent or empty, whatever the hostname and configuration |
| `WebfingerProperties.MalformedSecond` | src/index.ts:17-27 | a present resource gets the malformed error exactly when it lacks `acct:` or has no non-empty domain piece, whatever the configuration |
| `WebfingerProperties.DomainGates` | src/index.ts:29-35 | after the format gate, an empty domain whitelist gets its own error; a non-empty whitelist lacking the domain gets the distinct not-whitelisted error |
| `WebfingerProperties.OriginGate` | src/index.ts:37-49 | with the domain whitelisted, the origin fails exactly when the hostname is neither the domain nor `localhost`; the URL is then `https://<domain>/.well-known/webfinger?resource=<encoded resource>` |
| `WebfingerProperties.HostnameOnlyMattersAtOrigin` | src/index.ts:37-49 | every request either fails at the origin gate or gets the same answer it would get from `localhost` |
| `WebfingerProperties.LocalhostPassesOrigin` | src/index.ts:39 | a request from `localhost` never gets the domain-mismatch error |
| `WebfingerProperties.UserGates` | src/index.ts:51-69 | past the origin gate, an empty user whitelist gets its own error; otherwise the user error comes exactly when no record has the local part as key and no record's aliases contain the resource with its first `acct:` removed (for `acct:a@b@c` that is `a@b@c`, not `a@b`) |
| `WebfingerProperties.SuccessResponse` | src/index.ts:71-80 | a success has the resource verbatim as subject and a single issuer link; its href is the domain override if present and non-empty, else the global issuer |
| `WebfingerProperties.KeyMatchSucceeds` | src/index.ts:58-80 | past the origin gate, a local part that is a key of the user whitelist gives a success with the resource as subject and the domain's issuer |
| `WebfingerProperties.AliasMatchKeepsSubject` | src/index.ts:58-73 | a user found only through aliases gets a success whose subject is the requested resource; the scan picks a record no later than any matching one |
| `WebfingerProperties.LocalDomainAliasRefused` | src/index.ts:58-69 | for `acct:local@domain@more`, a single record under another key whose aliases list only `local@domain` leaves the user error: the alias looked up is the resource with its first `acct:` removed |
| `WebfingerProperties.StrippedAliasAdmitted` | src/index.ts:58-80 | for `acct:local@domain@more`, a single record under another key whose aliases list `local@domain@more` gives a success with the resource as subject and the global issuer |
| `WebfingerProperties.SingleRecordRefuses` | src/index.ts:58-66 | a single record refuses an account when its key is not the local part and its aliases do not contain the stripped resource |
| `WebfingerProperties.PastTheGates` | src/index.ts:11-56 | a resource that parses, on a whitelisted domain, from that domain or `localhost`, with a non-empty user whitelist, passes every gate before user resolution with the parsed account |
| `WebfingerProperties.MessagesDistinct` | src/index.ts:14-67 | the failure kinds have pairwise different messages |
| `WebfingerExamples.EncodeAccount` | src/index.ts:43-45 | for unreserved local part and domain, only the `:` and the `@` of `acct:local@domain` are escaped, as `%3A` and `%40` |
| `WebfingerExamples.EncodeTestResource` | src/index.test.ts:61 | `acct:hey@some-domain.com` encodes to `acct%3Ahey%40some-domain.com` |
| `WebfingerExamples.MissingResourceExample` | src/index.test.ts:28-32 | no resource parameter gets the missing-resource error, whose message is "Missing resource parameter"; `ToResponse` sends it with status 400 |
| `WebfingerExamples.MalformedExample` | src/index.test.ts:34-42 | `acct:something` gets the malformed-resource error, whose message is "Resource must be in form acct:email@domain.com" |
| `WebfingerExamples.DomainNotWhitelistedExample` | src/index.test.ts:44-52 | `acct:example@example.com` gets the domain-not-whitelisted error, whose message is "Domain is not whitelisted for access" |
| `WebfingerExamples.DomainMismatchExample` | src/index.test.ts:54-63 | from 127.0.0.1 the request gets the domain-mismatch error, whose message is "Must access from corresponding domain", carrying the retry URL `https://some-domain.com/.well-known/webfinger?resource=acct%3Ahey%40some-domain.com` |
| `WebfingerExamples.SameHostWithoutUsersExample` | src/index.test.ts:14-19 | sent to `some-domain.com` under the mocked configuration, the request gets the no-users error, whose message is "No users are whitelisted for access", and so a 400, not the 200 the test expects |
| `WebfingerExamples.LocalhostWithoutUsersExample` | src/index.test.ts:21-26 | from `localhost` under the mocked configuration the request gets the no-users error, whose message is "No users are whitelisted for access", and so a 400, not the 200 the test expects |
| `WebfingerExamples.WhitelistedUserExample` | src/index.ts:58-80 | with `hey` whitelisted by key and no domain override, the response is the resource and the global issuer link |
| `WebfingerExamples.AcctAnywhereExample` | src/index.ts:18-22 | `x-acct:a@b` passes the format gate with local part `x-a` and domain `b` |
| `WebfingerExamples.SecondAtExample` | src/index.ts:19-20 | `acct:a@b@c` has local part `a` and domain `b` |
| `WebfingerExamples.SecondAtAliasExample` | src/index.ts:58-69 | for `acct:a@b@c` on domain `b`, a record whose aliases list only `a@b` leaves the user error, while one listing `a@b@c` gives a success with the resource as subject and the global issuer |
| `WebfingerExamples.EmptyLocalPartExample` | src/index.ts:19-22 | `acct:@b` passes the format gate with an empty local part |

## Left out

- Routing and HTTP plumbing are not modelled. This covers the Hono app,
  `c.req.query`, JSON serialisation by `c.json`, and the 404 for other
  paths (`src/index.ts:1`, `6`, `84`). The model takes the `resource`
  parameter as an `Option<string>` and returns a status and a body value.
- The URL parsing of `new URL(c.req.url)` is not modelled. The hostname
  is an input string.
- Configuration loading (`getConfig`, the JSON file) is not modelled. The
  configuration is an explicit argument.
- An absent `domains` or `users` field is modelled as an empty one. The
  handler sends both down the same branch with the same message.
- A `null` domain entry, on which `config.domains[domain].oauth` would
  throw, is not modelled. Each domain maps to its optional issuer override.
- An absent global `oauth.issuer`, which would leave the link's `href`
  undefined, is not modelled. The global issuer is always a string.
- A missing top-level `oauth` object is not modelled. Without it,
  `config.oauth.issuer` throws at `src/index.ts:77` whenever the domain has
  no non-empty override.
- A `null` user record is not modelled. The alias scan reads
  `user.aliases` at `src/index.ts:60`, which throws on `null`. Each record
  in the model is a value whose aliases are present or absent.
- `Object.values` order is not derived. JavaScript puts integer-like keys
  first. The model takes the user records as a sequence already in
  iteration order.
- Duplicate keys are not ruled out. A sequence that repeats a key stands
  for no configuration object, since an object keeps only the last entry
  for a key. The model's alias scan also visits the entries such an object
  would have overwritten, so with a repeated key it can accept an alias
  that the object would have dropped.
- The `URIError` that `encodeURIComponent` throws on a lone UTF-16
  surrogate is not modelled. A Dafny `char` is a Unicode scalar value, so
  a lone surrogate cannot occur.
- The user record found by the key lookup or the alias scan is not in the
  response. The handler never reads it after resolution, so the model
  records only whether resolution succeeded.
- The richer response shapes in `src/types/*.d.ts` are not modelled: names,
  emails, websites, images, `usernames`, `oidc`, titles, properties and a
  `rel` filter. The handler reads none of them.
- The on-disk configuration tests (`src/utils/config.test.ts`) and the test
  tooling (`jest.config.js`) are not modelled.
