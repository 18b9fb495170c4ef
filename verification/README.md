# Grindvakt: a verified model

Grindvakt is an OAuth 2.0 and OpenID Connect provider and relying party whose HTTP, storage and
cryptography are injected. This project models the logic in between and proves what its
documentation promises of it, for all inputs and all runs.

* **Token life cycle.** `Provider` is a step machine: authorization, client credentials, and token
  requests split where the code opens a token, reads the clock, computes a retention, enters the store
  with a reading of its own, consumes under the store's lock and mints. Requests interleave, the clock
  only moves forward, the store is swept at any time. `ProviderInvariant`, `SingleUse`,
  `StandingWins` and `RefreshFamily` carry the invariants; `ProviderTheorems` reads the results off them, `Lifetimes` bounds
  every token's life. `TokenUse` and `Clients` are the two in-memory stores, `Tokens` the sealed payloads,
  `Claims` the scope filter, `Pkce` and `Requests` the request checks, `UseKeys` the store keys.
  `Authorizations` and `TokenResponses` say, field by field, which requests are answered and with what.
  `LateConsume` is a concrete run that shows why single use is stated before expiry.
* **Client assertions.** `AssertionReplay` is the retention arithmetic for a `jti`.
* **Header parsers.** `HeaderLists`, `Challenges`, `CacheControl` and `Escaping`, each scanner beside a
  printer or a list meaning that it undoes or meets.
* **Front channel.** `Utf8`, `FormEncoding` and `Redirect` print a response into a registered URI,
  `Callback` parses it, `FrontChannel` proves when the second reads what the first wrote, and
  `FrontChannelRuns` carries that over to every run.
* **Federation.** `TrustChain` relates the index loops to an inductive trust path; `MetadataPolicy`
  edits a metadata object in place.
* **ID tokens.** `IdToken` holds construction and verification, `IdTokenRuns` their agreement in
  every run of the provider.

`Text`, `Json`, `Numerals` and `U64` are shared vocabulary.

Idealisations: sealing and signing are names of keys (an envelope opens exactly under the key that
sealed it, a signature verifies exactly under the key that made it, each sealed token is a new
string); SHA-256 and the OIDC token hash are injective functions; the clock, the HTTP exchange, the
URL library and DPoP proof validation are parameters or steps of the environment.

Some properties hold only under a condition a caller can check. Each condition is exact, and a concrete
input shows that it is needed:

* **Single use.** A consume step wins exactly when the token's standing win has run out by the step's own
  reading of the clock; a win stands until a later win or a sweep by a reading at or past its end
  (`StandingWins.WinsExactly`, and `TokenUse.AnswerExactly` for the store alone). So a token is never won
  twice before its expiry; a request that opened it in time but consumes it in the second it expires does
  win again, is answered, and gives one code two refresh tokens (`LateConsume.OneCodeAnsweredTwice`). A
  swept store answers as one that never purges whenever readings take effect in order; for any other
  order, such as that of `TokenUse.OutOfOrderReadings`, `TokenUse.AnswerExactly` says how it answers.
* **Assertion replay.** A request is refused exactly while it reaches the store before the end of an
  earlier win's retention (`AssertionReplay.RefusedExactly`; `RefusedByStandingWin` when readings take effect
  out of order), and always before the replay deadline of an assertion that won
  (`AssertionReplay.AuthenticatesOnce`), which every instant of acceptance precedes; after a win the next
  one comes exactly at or after that deadline (`AssertionReplay.NextWinExactly`). A request verified in the
  last second of the window that reaches the store one second later authenticates again
  (`AssertionReplay.LateReplay`). At the last second a 64-bit clock can show the deadline saturates
  (`AssertionReplay.CoveredExactlyBelowClockEnd`, `AssertionReplay.ClockEndReplay`).
* **Reading a response back.** The relying party reads a query response as sent exactly when its values
  are fit to show and the registered URI's own query is harmless: it gives no value to a response
  parameter, save at most one `error_uri` that is dropped (`FrontChannel.CallbackReadsLocation`). The
  provider accepts other URIs too; with an own `state` pair a response without a state is read as having
  that one (`FrontChannel.OwnStateRead`).
* **Echoed state.** A `state` that the provider accepts is fit to show exactly when it is not empty and
  has no backslash (`FrontChannelRuns.EchoedState`).

Where code and prose differ the model follows the code: an assertion's `jti` may be kept for
`max_age + 2 * leeway + 1` seconds, one leeway and one second more than
docs/adr/0003-client-assertion-hardening.md describes (`AssertionReplay.RetentionReached`); and the `iat`
of an entity statement is cut to whole seconds, so one issued later in the current second passes
(`TrustChain.FractionalIatPasses`).

## Model

| member | source | states |
|---|---|---|
| `TokenUse.InMemoryTokenUseStore.Consume` | src/provider.rs:133-152 | by the reading made before the lock: a call wins exactly when no unexpired entry holds the key; a win reserves it for max(ttl, 1) seconds; no other key's liveness changes |
| `TokenUse.SweptMatchesUnswept` | src/provider.rs:133-152 | under a clock that never goes back, a swept store and one that never purges hold the same live keys with the same expiries |
| `TokenUse.SweptAnswersAsUnswept` | src/provider.rs:120-152 | every answer in every call sequence is the answer of the store that never purges |
| `TokenUse.AnswerByHistory` | src/provider.rs:104-152 | a call wins iff no earlier winning call for its key reserved it past this instant |
| `TokenUse.AnswerExactly` | src/provider.rs:133-152 | in whatever order the readings take effect, a call wins iff the standing win for its key, the latest one not swept away since, has run out by the call's own reading |
| `TokenUse.AnswerByLockInstant` | src/provider.rs:133-152 | so a call wins only if every earlier win for its key has run out when it takes the lock, and does if they had by its own reading |
| `TokenUse.OutOfOrderReadings` | src/provider.rs:133-152 | a concrete sequence of out-of-order readings on which swept and unswept store differ |
| `Clients.InMemoryClientStore.Get` | src/client.rs:121-132 | returns the entry unless expired, and an expired one is gone afterwards |
| `Clients.InMemoryClientStore.Put` | src/client.rs:134-144 | replaces the entry, without expiry |
| `Clients.InMemoryClientStore.PutWithTtl` | src/client.rs:146-161 | no expired entry remains, other clients look the same, the client is recorded until now + ttl |
| `Clients.GetSeesLatestPut` | src/client.rs:121-161 | after any calls a lookup sees exactly the latest put unless its lifetime has elapsed |
| `Clients.LookupExactly` | src/client.rs:121-161 | a lookup returns a client iff the last put of its id was of that client, without a lifetime or with one that ends after now |
| `Text.EqIgnoreCaseExactly` | src/error.rs:382-394 | texts compare equal iff they have the same length and differ at most in the case of ASCII letters |
| `Requests.MemberValues` | src/request.rs:12-20 | the member set, exactly for values without empty or repeated members |
| `Requests.CompareResponseTypes` | src/request.rs:11-23 | decides set equality of two well-formed response types |
| `Requests.ResponseTypeEquivalence` | src/request.rs:11-23 | the comparison is reflexive on well-formed values, symmetric, transitive, and equality of the members as bags |
| `Requests.ValidatePrompt` | src/request.rs:172-189 | passes exactly when `none` stands alone among the non-empty members |
| `Requests.SupportedExactly` | src/request.rs:222-253 | the supported list is exactly the well-formed types over code, id_token and token that ask for a code or an ID token |
| `Requests.SplittersAgree` | src/request.rs:192-206 | on a supported type, splitting on single spaces and on whitespace gives the same members |
| `Requests.FragmentExactly` | src/request.rs:209-218 | an explicit mode decides, else an ID or access token means the fragment |
| `Requests.QueryCarriesOnlyCode` | src/request.rs:209-270 | once both validations pass, a response outside the fragment asks for a code and for no ID or access token |
| `Pkce.ConstantTimeEq` | src/pkce.rs:48-57 | the xor/or accumulation decides equality |
| `Pkce.VerifyByMethod` | src/pkce.rs:35-46 | S256 compares the digest with a canonical challenge, plain or no method the verifier itself, any other method fails |
| `Pkce.CheckVerifier` | src/pkce.rs:35-46 | the check decides: a well-formed verifier whose S256 value, or itself for plain, is the challenge |
| `Tokens.Open` | src/tokens.rs:161-188 | trying the keys in order opens exactly what one of them sealed |
| `Tokens.WithPreviousSecrets` | src/tokens.rs:141-148 | the sealing key stays first; exactly the non-empty secrets are added |
| `Tokens.RotateAndOpen` | src/tokens.rs:141-227 | across a rotation a token opens as its own type and no other, until its expiry, iff its secret was kept |
| `UseKeys.UseKeyInjective` | src/provider.rs:1694-1700 | kind and digest can be read off a key |
| `UseKeys.AssertionTextInjective` | src/provider.rs:1707-1712 | the length-prefixed text determines client id and jti, whatever bytes they hold |
| `UseKeys.AssertionKeysDistinct` | src/provider.rs:1694-1712 | assertion keys coincide iff client and jti do; keys of different kinds never coincide, whatever their digests |
| `AssertionReplay.EntryOutlivesAcceptance` | src/provider.rs:1574-1607 | the entry is live at every later instant at which the assertion passes the exp and max-age checks |
| `AssertionReplay.CoveredExactlyBelowClockEnd` | src/provider.rs:1577-1607 | the entry covers an accepted instant iff it is before the last second of a 64-bit clock |
| `AssertionReplay.ClockEndReplay` | src/provider.rs:1577-1607 | a concrete assertion accepted twice at the end of the clock |
| `AssertionReplay.RetentionBounded` | src/provider.rs:1561-1607 | retention is between 1 and max_age + 2 * leeway + 1 seconds, whatever `exp` was chosen |
| `AssertionReplay.RetentionReached` | src/provider.rs:1561-1607 | for every policy and instant an assertion issued a leeway ahead is kept exactly that long |
| `AssertionReplay.DeadlineExactly` | src/provider.rs:1561-1607 | short of saturation the deadline is exactly the first second during which the assertion can no longer pass, and the retention runs to it |
| `AssertionReplay.RefusedExactly` | src/provider.rs:1537-1616 | whatever assertions of the client and jti the earlier wins recorded, a request is refused iff it reaches the store before one of their retentions has run out |
| `AssertionReplay.RefusedByStandingWin` | src/provider.rs:1537-1616 | the same without order of readings: iff it reaches the store before the standing win's retention has run out |
| `AssertionReplay.AuthenticatesOnce` | src/provider.rs:1537-1616 | in any run of the store, whatever other calls record: after an assertion won, every request with its client and jti that gets the lock before its replay deadline is refused |
| `AssertionReplay.NextWinExactly` | src/provider.rs:1577-1616 | after a win the next one comes iff the replay deadline has been reached |
| `AssertionReplay.LateReplay` | src/provider.rs:1543-1599 | a concrete assertion that authenticates twice because the second request reaches the store after the window it verified in |
| `Claims.FilterClaims` | src/provider.rs:1769-1777 | the result is part of the input and holds only claims whose defining scope is granted |
| `Claims.FilterClaimsExactly` | src/provider.rs:1769-1790 | exactly the allowed claims are kept, unchanged |
| `Claims.MintedClaims` | src/provider.rs:771-779 | released and extra claims together hold only claims whose defining scope is granted |
| `Claims.MintedClaimsExactly` | src/provider.rs:771-779 | a non-reserved extra claim overrides a released one, a reserved name never comes from the extra claims, nothing allowed is lost |
| `Claims.AllowedExactly` | src/provider.rs:1779-1790 | by name: a profile, email, address or phone claim needs its scope, any other claim none |
| `Claims.ReservedExactly` | src/provider.rs:1724-1741 | the reserved names are exactly these thirteen |
| `ProviderInvariant.StepKeeps` | src/provider.rs:754-1322 | every step keeps: tokens within their grant, chains of inheritance, checked requests, faithful responses |
| `ProviderInvariant.RunKeeps` | src/provider.rs:433-1380 | every reachable state satisfies that invariant |
| `Authorizations.AcceptedExactly` | src/provider.rs:433-549 | in the fields of request and registration: registered redirect URI and response type, supported subject type, valid state, mode and prompt, nonce, S256 challenge or confidential client, registered scope; iff |
| `Authorizations.GrantsAreLegitimate` | src/provider.rs:433-549 | every end-user grant of every run satisfies those field conditions, has a subject and no second `iss` |
| `Authorizations.AuthorizeExactly` | src/provider.rs:754-861 | such a request with fresh strings is answered with exactly the artifacts asked for, each recording the grant, and anything else changes nothing |
| `ProviderInvariant.BeginCodeKeeps` | src/provider.rs:924-1010 | a code request in flight passed client, redirect URI and PKCE checks against the code's own payload |
| `ProviderInvariant.BeginRefreshKeeps` | src/provider.rs:1161-1240 | a refresh request in flight has a narrower scope and an unchanged or first key binding |
| `ProviderInvariant.ExchangeFaithful` | src/provider.rs:1012-1063 | what an exchange mints inherits subject, client, nonce, acr and auth_time, and only narrows scope and claims |
| `TokenResponses.ResponsesAreExact` | src/provider.rs:1012-1297 | every token response of every run: scope, claims, binding, lifetime and type as the exchanged token and the request determine, an ID token iff `openid` is in the scope, a refresh token iff a refresh or the client has that grant, a named refresh scope word for word |
| `TokenResponses.BeginCodeExactly` | src/provider.rs:924-993 | a code request is taken up iff grant type, live code, client, redirect URI and proof of possession are right |
| `TokenResponses.BeginRefreshExactly` | src/provider.rs:1161-1230 | a refresh request is taken up iff grant type, live token, client, bound key and requested scope are right |
| `TokenResponses.ClientCredentialsExactly` | src/provider.rs:1069-1150 | a service token is minted iff a registered word is granted and `openid` is not, with exactly the granted words, no claims and the client as subject |
| `TokenResponses.ReadingsExactly` | src/provider.rs:1230-1322 | a request reads the present clock for its stamp, its retention and the store, and the retention lasts to the token's expiry but at least a second |
| `TokenResponses.ConsumeExactly` | src/provider.rs:1299-1322 | a consume step wins by its reading, reserves the key and goes on, or ends the request |
| `TokenResponses.FinishExactly` | src/provider.rs:1012-1297 | a request that consumed its token is answered, once, with the strings minted for it |
| `StandingWins.WinsExactly` | src/provider.rs:1299-1322 | in every run a consume step wins iff the token's standing win, if any, has run out by the step's own reading |
| `SingleUse.WinBounds` | src/provider.rs:1299-1322 | a consume step wins only if every earlier win for the token has run out by now, and does if they had by its own reading; iff when that reading is current |
| `SingleUse.RunSpaced` | src/provider.rs:1299-1322 | in every run, a second win for a token comes only once the first reservation has run out |
| `SingleUse.AtMostOneWinBeforeExpiry` | src/provider.rs:924-1063 | over every interleaving, at most one consume step that takes the lock before a token's expiry wins |
| `LateConsume.OneCodeAnsweredTwice` | src/provider.rs:1299-1322 | a concrete run in which one code is won twice, the second time in the second it expires, and answered twice, so that its family is no chain |
| `RefreshFamily.RunKeepsFamily` | src/provider.rs:1012-1297 | every run keeps: answers plus requests about to answer never exceed a token's wins, one holder per family won once, every token on a path from its code |
| `ProviderTheorems.AnswersWithinWins` | src/provider.rs:924-1297 | in every run the responses to a token never outnumber its wins |
| `ProviderTheorems.OneResponsePerToken` | src/provider.rs:924-1297 | in every run a token whose own wins precede its expiry yields at most one token response, whatever happens to others |
| `ProviderTheorems.EveryTokenRooted` | src/provider.rs:1012-1297 | in every run each code and refresh token ends a finite path of parent links from its family's code, all earlier members consumed |
| `ProviderTheorems.FamilyIsChain` | src/provider.rs:1012-1297 | if the wins of a family's own tokens precede expiry, of two members one lies on the other's path, and at most one is unconsumed |
| `ProviderTheorems.InstantaneousIsTimely` | src/provider.rs:924-1322 | when each request runs at one instant, every win of every token precedes its expiry |
| `ProviderTheorems.RotationPreserves` | src/provider.rs:1186-1297 | along any number of rotations identity is constant, scope and claims shrink, a set key binding never changes |
| `ProviderTheorems.DescendantsMatchGrant` | src/provider.rs:1161-1297 | every refresh token of every run stays within the authorization at its head |
| `ProviderTheorems.ResponsesAreBound` | src/provider.rs:916-922 | token_type is DPoP iff the access token is key-bound; the refresh token has the same binding |
| `ProviderTheorems.AccessTokensContained` | src/provider.rs:1098-1128 | every access token of every run is within the client's registered scope and holds no claim beyond its scope; a service token never holds openid |
| `ProviderTheorems.UserInfoAnswersForUsers` | src/provider.rs:1333-1380 | UserInfo answers only for end-user tokens, with the grant's subject, to the holder of the bound key |
| `ProviderTheorems.UserInfoExactly` | src/provider.rs:1333-1380 | UserInfo answers iff the token is a live access token with `openid` and its bound key is presented, with exactly the token's claims and the grant's subject under `sub` |
| `ProviderTheorems.ExchangesByTheClient` | src/provider.rs:949-966 | every answered exchange came from the client of the authorization, with its redirect URI |
| `ProviderTheorems.PkceHolds` | src/provider.rs:967-993 | every answered exchange of a challenged code supplied a well-formed verifier hashing to the challenge; a public client never does without |
| `Lifetimes.RunKeepsLife` | src/provider.rs:784-1297 | in every run no token expires later than the lifetime of its kind from now |
| `Lifetimes.TokensExpire` | src/tokens.rs:195-227 | once that lifetime has passed, whatever happened in between, a token opens as nothing and UserInfo refuses it |
| `HeaderLists.SplitUnquotedCommas` | src/error.rs:258-275 | the scanner cuts at exactly the commas outside quoted strings |
| `HeaderLists.QuotesBalanced` | src/error.rs:282-294 | decides whether every quoted string is closed |
| `HeaderLists.JoinSplit` | src/error.rs:258-275 | joining the parts with commas restores any text |
| `HeaderLists.SplitJoin` | src/error.rs:258-275 | splitting undoes joining any balanced elements |
| `HeaderLists.SplitSpaced` | src/error.rs:258-294 | a list printed with comma and space splits into its elements and is balanced |
| `HeaderLists.SplitAtComma` | src/error.rs:258-275 | a comma outside quotes separates what is split before it from what is split after it |
| `HeaderLists.QuoteIsElement` | src/error.rs:258-275 | quoted text of any content stays one element |
| `Challenges.ReadQuoted` | src/error.rs:308-325 | the quoted-string loop returns the unescaped value and the rest, or fails |
| `Challenges.ReadAuthParam` | src/error.rs:298-330 | the parameter parser with that loop computes name and value, or fails |
| `Challenges.ReadElement` | src/error.rs:347-378 | one list element extends the current challenge or starts a new one |
| `Challenges.FirstError` | src/error.rs:379-400 | the error of the first well-formed Bearer or DPoP challenge with one, and None iff there is none |
| `Challenges.ParseWwwAuthenticateBearer` | src/error.rs:336-400 | the loop computes the first error of the challenges read element by element |
| `Challenges.ParamRoundTrip` | src/error.rs:298-328 | parsing undoes printing a parameter with any value |
| `Challenges.TokenParamReads` | src/error.rs:325-330 | a bare token value is read as it stands |
| `Challenges.QuotedValueExactly` | src/error.rs:307-324 | only whitespace may follow a quoted value |
| `Challenges.BareValueExactly` | src/error.rs:325-328 | a bare value runs to the first whitespace and is not empty |
| `Challenges.ParamNeedsEquals` | src/error.rs:298-306 | a parameter without a name or an equals sign is malformed |
| `Challenges.MalformedSkipped` | src/error.rs:366-390 | a challenge that starts with an unreadable parameter tells nothing |
| `Challenges.MalformedParam` | src/error.rs:356-364 | an unreadable further parameter marks its challenge as malformed |
| `Challenges.ChallengesRoundTrip` | src/error.rs:298-400 | any printed list of challenges is read back as itself, so the parser returns its first error |
| `Challenges.PrintedErrors` | src/error.rs:336-400 | for any printed list, by index and literal name: None iff no well-formed Bearer or DPoP challenge has either parameter, else the first `error` and first `error_description` of the first that has |
| `CacheControl.DigitsToU64` | src/rp.rs:612-616 | a run of digits as its value, saturated; None for anything else |
| `CacheControl.ReadAdvertisedTtl` | src/rp.rs:595-621 | the loop computes the lifetime of the split header, 0 when unbalanced |
| `CacheControl.QuotedLifetime` | src/rp.rs:612-616 | a quoted value counts exactly when its text is all digits |
| `CacheControl.PrintedListTtl` | src/rp.rs:595-621 | for every printed directive list, the empty one included: 0 if no-store or no-cache is a directive anywhere, else the first all-digits max-age |
| `CacheControl.PrintedListExactly` | src/rp.rs:595-621 | with directive names as literals in any case: 0, or the first all-digits max-age, saturated, or None |
| `CacheControl.UnterminatedQuote` | src/rp.rs:599-601 | after an opening quote the header is unbalanced iff the rest never leaves the quote, and then gives 0 |
| `CacheControl.EscapedTextStaysOpen` | src/rp.rs:599-601 | in particular escaped text of any content, quotes included, after an opening quote gives 0 |
| `CacheControl.LinesRead` | src/http.rs:246-255 | several header lines, empty ones included, read as one list |
| `CacheControl.Remaining` | src/rp.rs:572-575 | at most the ceiling, and age plus remainder never exceeds the lifetime and reaches it unless capped or aged out |
| `CacheControl.HeaderValuesConcat` | src/http.rs:236-242 | header values are collected header by header in order |
| `CacheControl.OneHeaderValue` | src/http.rs:236-242 | a header counts iff its name is the one asked for in any case |
| `CacheControl.CacheControlExactly` | src/http.rs:246-255 | there is a value iff some header has the name |
| `CacheControl.AgeExactly` | src/http.rs:257-264 | the first Age header counts iff it is all digits once trimmed, saturated |
| `CacheControl.ResponsesAgree` | src/http.rs:246-280 | with any number of header lines or none, both response types give the same capped, age-reduced meaning of all directives |
| `Escaping.EscapeUpstreamText` | src/error.rs:235-253 | the loop emits whole pieces up to the cap |
| `Escaping.Capped` | src/error.rs:235-253 | as many whole escaped pieces as fit, and an ellipsis iff some did not |
| `Escaping.CappedTextUnique` | src/error.rs:235-253 | text and cap determine the output |
| `Escaping.CappedTextBounded` | src/error.rs:226-253 | at most cap + 1 characters, none of them control or invisible |
| `Escaping.WholeTextWhenItFits` | src/error.rs:226-253 | the whole escaped text if it fits, otherwise a proper prefix of pieces and the ellipsis |
| `Escaping.EscapingIdempotent` | src/error.rs:235-253 | escaping again with the same cap changes nothing |
| `Utf8.DecodeEncode` | src/callback.rs:697-711 | lossy decoding undoes encoding |
| `FormEncoding.PercentRoundTrip` | src/oauth_error.rs:269-271 | decoding undoes encoding on all bytes |
| `FormEncoding.ParseConcat` | src/callback.rs:697-711 | text on either side of an ampersand is read independently |
| `FormEncoding.ParseSerialize` | src/oauth_error.rs:235-239 | form parsing undoes form printing for all names and values |
| `Redirect.CollectParams` | src/provider.rs:842-859 | the parameters pushed, in order |
| `Numerals.DecimalTextReads` | src/provider.rs:845-852 | `expires_in` is all digits and reads as the lifetime |
| `Redirect.WireDescription` | src/oauth_error.rs:103-116 | the first 256 characters, each kept if in the wire set and otherwise a question mark |
| `Redirect.DescriptionCharExactly` | src/oauth_error.rs:96-116 | the wire set by code point |
| `Redirect.WireStateExactly` | src/oauth_error.rs:175-177 | a state is echoed iff it has at most 1024 printable ASCII characters |
| `Redirect.ErrorRedirect` | src/oauth_error.rs:219-254 | error, description, state and extra parameters inserted before an existing fragment, or after it in fragment mode |
| `Redirect.QueryRoundTrip` | src/provider.rs:1817-1841 | the emitted query reads as the URI's own pairs followed by exactly the parameters; base untouched, no fragment |
| `Redirect.InsertedQueryRoundTrip` | src/oauth_error.rs:246-254 | the same for the error redirect, with an existing fragment kept last |
| `Redirect.FragmentRoundTrip` | src/provider.rs:1817-1841 | in fragment mode the fragment reads as exactly the parameters |
| `Redirect.FragmentAppended` | src/oauth_error.rs:241-244 | an existing fragment's pairs stay first |
| `Redirect.InsertedFragmentRoundTrip` | src/oauth_error.rs:241-244 | with or without an existing fragment, the fragment reads as its own pairs followed by the parameters |
| `Redirect.ResponseParamsNamed` | src/provider.rs:825-859 | each parameter appears once if present, and nothing else appears |
| `Redirect.ResponseInOrder` | src/provider.rs:825-859 | parameters come in the order ID token, code, access token, type, lifetime, state, issuer |
| `Redirect.ErrorInOrder` | src/oauth_error.rs:225-234 | error, description, state, issuer in that order |
| `Redirect.ExactlyOneIss` | src/provider.rs:402-417 | a query redirect carries exactly one `iss`, the issuer, iff the collision check passes; a fragment redirect always |
| `Redirect.ErrorExactlyOneIss` | src/oauth_error.rs:219-254 | an error redirect carries exactly one `iss` in the query iff the collision check passes, and in the fragment iff the URI's own fragment has none, as for every URI without a fragment |
| `Redirect.ErrorParamsNamed` | src/oauth_error.rs:225-234 | each error parameter appears once if present, and nothing else appears |
| `Callback.ParsePairs` | src/callback.rs:604-676 | the loop over pairs decides the outcome specified by the values given to each name |
| `Callback.TakeAll` | src/callback.rs:618-627 | taking distinct names out of the map yields each one's value |
| `Callback.OrderBlind` | src/callback.rs:604-676 | the outcome depends only on the protocol pairs as a bag |
| `Callback.Reordered` | src/callback.rs:604-676 | any reordering gives the same outcome |
| `Callback.ValidateExactly` | src/callback.rs:508-550 | accepted iff exactly one of code and error is there and every value is within its limits |
| `Callback.ParsedExactly` | src/callback.rs:508-676 | every outcome by the values given to each name: one code or error fit to show, a lone bounded signed response where permitted, an error otherwise |
| `Callback.SafeUriExactly` | src/callback.rs:585-598 | an error URI is shown iff it is clean, without whitespace and normalises |
| `Callback.LeadingMark` | src/callback.rs:697-711 | exactly one leading question mark or hash is dropped and tells the mode |
| `Callback.HasProtocolExactly` | src/callback.rs:744-745 | a channel carries a protocol parameter iff one of their names has a value |
| `Callback.ValidatedOutcome` | src/callback.rs:508-600 | exactly one of code and error, all values fit to show, the description clean and bounded, the error URI normalised from a clean one |
| `Callback.AcceptedOutcome` | src/callback.rs:508-676 | an accepted plain response has exactly one of code and error, each the only value of its name; a JARM one stands alone |
| `Callback.ParseMulti` | src/callback.rs:714-733 | the multi-map loops parse the flattened pairs |
| `Callback.MultiAgrees` | src/callback.rs:714-733 | grouping pairs by name, keys in any order, changes nothing |
| `Callback.GetAgrees` | src/callback.rs:740-774 | a GET is accepted as r iff its body has no protocol parameter, the mode fits and the pair entry accepts r |
| `Callback.PostAgrees` | src/callback.rs:740-774 | the same for a POST and its form |
| `Callback.OtherVerbsRefused` | src/callback.rs:740-774 | any other method is refused |
| `FrontChannel.HarmlessExactly` | src/callback.rs:604-676 | pairs in front of a printed response leave its reading as it is iff they are harmless |
| `FrontChannel.CallbackReadsLocation` | src/provider.rs:825-861 | the callback returns the very code, state and issuer of a query redirect iff there is a code, all are fit to show and the URI's own query is harmless |
| `FrontChannel.OwnStateRead` | src/provider.rs:402-417 | with an own `state` pair in the registered URI a response without state is read as having it and one with a state is refused |
| `FrontChannel.CallbackReadsFragment` | src/callback.rs:697-711 | a fragment redirect is read as sent iff there is a code and all values are fit to show, whatever the URI's own query |
| `FrontChannel.CallbackReadsError` | src/oauth_error.rs:219-254 | a query error redirect is read as its code, wire description, state and issuer iff they are fit to show and the URI's own query is harmless |
| `FrontChannel.CallbackReadsErrorFragment` | src/oauth_error.rs:241-244 | the same in fragment mode with the URI's own fragment |
| `FrontChannelRuns.EchoedState` | src/oauth_error.rs:125-128 | an accepted state is readable iff non-empty and without backslash |
| `FrontChannelRuns.RunExactlyOneIss` | src/provider.rs:754-861 | with emission on, every response of every run carries exactly one `iss`, the issuer |
| `FrontChannelRuns.QueryResponseIsCode` | src/provider.rs:784-861 | in every run a response outside the fragment carries a code of its own grant and no ID or access token |
| `FrontChannelRuns.RunCallbacks` | src/provider.rs:754-861 | a query response of any run is read back as its code, its request's state and the issuer iff these are fit to show and the registered URI's own query is harmless |
| `FrontChannelRuns.RunFragmentCallbacks` | src/provider.rs:754-861 | a fragment response of any run is read back the same way iff it carries a code and its values are fit to show |
| `TrustChain.ValidateTrustChain` | src/federation.rs:316-389 | with a clock reading per check, the loops accept exactly the chains whose statements are current, linked, signed by the next one's keys, in force and anchored; the result is the subject's statement |
| `TrustChain.LinkedIsTrusted` | src/federation.rs:356-381 | checking index by index is deriving step by step from the anchor |
| `TrustChain.AcceptedExactly` | src/federation.rs:316-389 | a chain is accepted iff it lists a trust path to the subject with self-signed ends and every statement is on time at each reading |
| `TrustChain.OnTimeBetween` | src/federation.rs:316-417 | statements current at the first and last reading and in force at the first are on time at all readings between |
| `TrustChain.ChainSound` | src/federation.rs:316-417 | the returned keys are derivable from the anchor's, and every statement is within its window |
| `TrustChain.PathAccepted` | src/federation.rs:316-389 | every trust path with self-signed ends that is on time is accepted |
| `TrustChain.CurrentWithin` | src/federation.rs:393-417 | the claim check is exactly: issuer, subject, iat < now + 1 and now + 1 <= exp |
| `TrustChain.TimesExactly` | src/federation.rs:150-157 | the library's time checks with a minute of leeway |
| `TrustChain.DecodedExactly` | src/federation.rs:322-338 | a chain decodes iff every entry is a string that decodes to its statement |
| `TrustChain.FractionalIatPasses` | src/federation.rs:53-55 | an iat later in the current second passes |
| `TrustChain.ExtractResolvedEntity` | src/federation.rs:281-314 | accepts iff response and chain match anchor and subject; the keys handed out are derivable from the anchor's |
| `MetadataPolicy.AddMissing` | src/federation.rs:638-644 | appends exactly the items not there yet, keeping what was there as a prefix |
| `MetadataPolicy.Metadata.ChangeParam` | src/federation.rs:628-646 | value, default and add change only their parameter |
| `MetadataPolicy.Metadata.CheckParam` | src/federation.rs:648-703 | decides the four constraints |
| `MetadataPolicy.Metadata.ApplyPolicy` | src/federation.rs:619-703 | in any enumeration order: succeeds iff every parameter's changed value meets its constraints; on failure a prefix has been applied |
| `MetadataPolicy.OutcomeUnique` | src/federation.rs:619-703 | metadata and policy determine the result |
| `MetadataPolicy.ConstraintsHold` | src/federation.rs:619-703 | the result meets every constraint, other parameters are unchanged |
| `MetadataPolicy.AppliedExactly` | src/federation.rs:619-703 | by operator name: a policy applies iff every parameter's forced, kept or defaulted and extended value meets essential, one_of, subset_of and superset_of; every parameter then has exactly that value |
| `MetadataPolicy.PolicyIdempotent` | src/federation.rs:619-703 | applying the policy again succeeds and changes nothing |
| `IdToken.BuildIdToken` | src/provider.rs:1623-1679 | the insertions yield own claims and non-reserved released claims; fails iff a needed hash is undefined |
| `IdToken.OwnClaimsStand` | src/provider.rs:1641-1677 | nonce, acr, auth_time and hashes are never shadowed, azp never appears |
| `IdToken.NoDuplicateNames` | src/provider.rs:1667-1677 | no registered name appears among the extra claims; every other released claim is unchanged |
| `IdToken.CheckAudiences` | src/rp.rs:971-995 | the loop with its set of audiences seen decides: distinct, trusted, azp when several |
| `IdToken.VerifyIdTokenWith` | src/rp.rs:909-1046 | accepts exactly under the conjunction of all checks and returns the claims |
| `IdToken.AcceptsAnyExactly` | src/rp.rs:909-1086 | any token is accepted iff a key of the set signed it under its kid, issuer, client, distinct trusted audiences, azp and subject are right, and times, nonce, class, age and hashes hold |
| `IdToken.AgeExactly` | src/rp.rs:1008-1026 | the session age in whole seconds, without leeway, and not in the future beyond it |
| `IdToken.ForeignRefused` | src/rp.rs:945-968 | with a set of one party's keys only that party's tokens for this client pass |
| `IdToken.AcceptedExactly` | src/rp.rs:909-1086 | a minted token is accepted iff the clock is in its window and nonce, age, acr, access token and code are the ones held |
| `IdToken.MismatchRefused` | src/rp.rs:1048-1086 | another nonce, access token or code is refused under any options |
| `IdTokenRuns.ContentOfRun` | src/provider.rs:825-841 | an ID token of any reachable state repeats its grant and is tied to what was delivered with it |
| `IdTokenRuns.RunIdTokensAgree` | src/provider.rs:1623-1679 | every ID token of every run names the subject fixed at authorization, and its client accepts it iff the clock is in its window and nonce, age, class and, where hashed, access token and code are those of its grant and delivery |
| `IdTokenRuns.FitsWhatWasDelivered` | src/rp.rs:909-1086 | a verifier holding what was delivered, and in the code flow perhaps the code it redeemed, accepts throughout the window; another nonce, access token or code is refused |

## Left out

- JWS, JWE, HKDF and SHA-256 internals, key loading and PKCS#11: idealised as described above.
- HTTP fetching, discovery, JWKS download and the token request of the relying party: network plumbing.
- `RedisStore`: a single foreign command; only the contract of `consume` is modelled, on the in-memory store.
- DPoP proof validation (src/dpop.rs): a validated proof is an opaque thumbprint in a request.
- The URL library: whether a redirect URI parses, and the normal form of `error_uri`, are parameters.
- Client authentication other than the retention of an assertion's jti; secrets and basic credentials.
- Subject resolution, the re-check of the registration during it, pairwise subjects, and the flattening and
  typing of released claims: the subject and the claim map are inputs of an authorization.
- JARM verification: the unverified stub is modelled, its signature check is not.
- Error kinds and messages, `Debug`/`Display` text and tracing: failures are told apart only where a caller
  can act on them.
- Unicode tables beyond White_Space, category Cc and the list of invisible characters the code itself spells out.
- Discovery and metadata documents, `parse_collection`, `claims_to_attributes`: direct mappings.
- `unique_parameters` and `AuthorizationRequest::from_pairs`: requests arrive parsed.
- Overflow of `now + ttl` for tokens and store entries: instants are unbounded there; 64-bit saturation is
  modelled for assertions, cache lifetimes, `auth_time` and federation timestamps, where the code relies on it.
- `HashMap` iteration order over trust anchors and the choice of the first anchor that answers.
- Tokens.Open: which of several failing keys names the error is not modelled.
