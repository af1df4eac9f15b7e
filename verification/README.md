# Verification of the oidc4rs relying party

A Dafny model of four parts of the OpenID Connect client library and the properties they owe their callers.

- **Provider metadata cache** (`Metadata.dfy`, `Provider.dfy`, `RefreshRuns.dfy`, `RefreshCalls.dfy`). The snapshot a client holds, its
  setters, and the refresh as a state machine. Callers move through the awaits of `refresh_metadata_if_stale` and
  `refresh_metadata` one atomic section at a time; setters, the clock and the provider's answers interleave anywhere.
  Clock readings that the code makes outside a lock are steps of their own.
- **Freshness policy** (`Ascii.dfy`, `CachePolicy.dfy`, `DirectiveText.dfy`, `AgeHeader.dfy`). From the text of the header lines to a
  lifetime and a stale permission, after RFC 9111.
- **Second leg** (`KvStore.dfy`, `KvOrder.dfy`, `Pairs.dfy`, `Authorize.dfy`, `TokenRequest.dfy`, `Completion.dfy`, `Delivery.dfy`,
  `Instances.dfy`, `ComposedDelivery.dfy`). The store with its clock readings outside the critical section, compared
  with an ideal timed map, and when that map can judge the calls in their order; the builder of the stored request;
  the token request; runs of any number of completions over one store, and the way of one stored request through such
  a run; and any number of client instances that share the store and refresh their own metadata, the composition of
  the completion machine with one refresh machine for each instance.
- **Form codec and callback parser** (`Text.dfy`, `Utf8.dfy`, `FormUrlEncoded.dfy`, `Callback.dfy`, `EscapeCase.dfy`). Strict and lossy
  UTF-8, parsing and serializing from sections 5.1 and 5.2 of the WHATWG URL Standard, the hand-written validator, and
  the classification of responses.

`AuthTime.dfy` adds the `auth_time` check. `Time.dfy` fixes the clocks: nanoseconds, with the end of the clock at the
last instant of a signed 64-bit second counter. Durations are unbounded naturals.

What the code mutates is a class here (`Provider.Client`, `KvStore.InMemoryKvStore`, `CachePolicy.CacheDirectives`,
the two builders); each of its methods is specified by a function on the value of its fields, and the state machines
take their steps with those same functions. Query strings are sequences of bytes, and parsed text is a sequence of
scalar values.

Where the code does something else than its documentation or a standard says, the model follows the code:

- A max-age of 2^128 or more is taken as zero, where section 1.2.2 of RFC 9111 asks for the cap of 2^31 seconds
  (`CachePolicy.OversizedMaxAgeIsNotCapped`; `CachePolicy.DeltaSecondsOfDigits` has the exact condition).
- An age of 2^64 or more is dropped where the same section asks for the cap, so that a much older response counts as
  fresher (`AgeHeader.OversizedAgeIsDropped`; `AgeHeader.OlderDigitsIff` has the exact condition).
- The store does not always answer like one that handles its calls one after the other, in the order of their critical
  sections (`KvOrder.LateTakeBreaksOrder`, `KvOrder.EarlyPutBreaksOrder`; `KvOrder.OrderedIffCompatible` has the exact
  condition).
- The minimum cache duration is no floor when the requested sum passes the end of the clock
  (`RefreshRuns.FloorAtReschedule`; input in `RefreshRuns.IntervalPastTheEnd`), and raising it can drop the stale window
  for the same reason (`RefreshRuns.MinimumChangeExtends`; input in `RefreshRuns.MinimumToTheEnd`).
- The authorization request can carry a `code_challenge` that answers to no stored verifier, or a second state, nonce,
  redirect URI or maximum age, since extra parameters and the endpoint's own query are sent verbatim
  (`Authorize.ExtraParameterShadows`; `Authorize.StoredValuesMatchQuery` has the exact condition).

## Model

| member | source | states |
|---|---|---|
| RefreshRuns.AlwaysCoherent | src/client.rs:42-98 | In every reachable state of every interleaving: refresh_after is set iff the interval is; stale_until is exactly the stale deadline of the current refresh_after, permission and retention; retry_after implies stale_until and does not exceed it; the key cache belongs to the published URI |
| RefreshRuns.StepKeepsInv | src/client.rs:327-421 | Every event keeps the global invariant: lock ownership, single flight, each in-flight refresh still based on the live snapshot, fetched responses of the same issuer |
| RefreshRuns.SingleFlight | src/client.rs:333-349 | Two callers inside a refresh are the same caller |
| RefreshRuns.HolderCanMove | src/client.rs:333-349 | A held refresh lock always has a holder with an enabled step, so it is never lost |
| RefreshRuns.CallerCanMove | src/client.rs:327-349 | No caller is stuck outside the lock: an idle one can begin either call, and a waiting one goes on once the lock is free |
| RefreshRuns.PublicationIsCoherent | src/client.rs:371-421 | A publication replaces the very snapshot its refresh started from, keeps the issuer, keeps the key cache iff the URI is unchanged, and otherwise installs a new one for the new URI |
| RefreshRuns.OthersLeaveSnapshot | src/client.rs:351-369 | No other event changes metadata, keys or stale permission; a failed refresh changes nothing but retry_after, and nothing at all when it is reported |
| RefreshRuns.IssuerNeverChanges | src/metadata/mod.rs:79-88 | Over whole runs the issuer is constant |
| RefreshRuns.ServedIsAdmissible | src/client.rs:327-369 | Whatever is returned without a successful fetch was, by its own deadlines at decision time, exempt, fresh, or permitted stale and strictly before refresh_after plus retention |
| RefreshCalls.CallReturns | src/client.rs:327-421 | Whatever others do in between, a call returns what it would return alone. A forced call always asks the provider, never returns a retained snapshot, returns exactly what it published from a validated answer with readable keys, and reports any failure at once; an automatic one returns the snapshot it cloned if that needs no refresh, and again the one it cloned under the lock, and otherwise asks; after a broken answer it serves the snapshot there is iff its stale window had not ended at the clock reading after the failure, and else reports |
| RefreshCalls.CallLeavesSnapshot | src/client.rs:371-389 | No step of a call before its last changes the snapshot |
| RefreshCalls.PhaseAt | src/client.rs:327-421 | The inductive form: where the call is, with the events of its own at which it looked, asked and failed |
| RefreshRuns.SettingsAreFoldOfSetters | src/client.rs:236-315 | After any interleaving with multi-step refreshes the three settings are the fold of the setter calls alone |
| RefreshRuns.PublishedDeadlines | src/client.rs:390-419 | Published deadlines come from the settings left by all setters before the publication and from the header text: refresh_after is now plus the larger of response freshness and minimum; stale_until is empty exactly for strict responses, zero retention or an unrepresentable sum |
| RefreshRuns.StrictUntilNextPublication | src/client.rs:82-98 | From a publication to the next, under any setters and any minimum, stale use is permitted iff no Cache-Control line is strict; if one is, stale_until and retry_after stay empty and every automatic failure is reported |
| RefreshRuns.StrictSinceDiscovery | src/client.rs:109-148 | The same from the construction of a client by discovery |
| RefreshRuns.FloorAtReschedule | src/client.rs:236-285 | After a publication, interval change or minimum change, refresh_after clears now plus the minimum iff the requested sum is representable or the minimum is zero |
| RefreshRuns.MinimumFloor | src/client.rs:397-407 | With a representable sum, that floor stands in every state until the next such event |
| RefreshRuns.MinimumSinceDiscovery | src/client.rs:109-148 | A client built by discovery is exempt from refreshing for the default minimum iff its first deadline is representable, and then stays exempt for its whole first lifetime in every run up to the next publication, interval change or minimum change |
| RefreshRuns.MinimumChangeExtends | src/client.rs:262-285 | Changing the minimum moves the deadline to the later of the old one and now plus the minimum; the stale window is not shortened iff now plus the minimum (now itself if that is unrepresentable) plus the retention is representable |
| RefreshRuns.IntervalPastTheEnd | src/client.rs:65-69 | For every client built without discovery, an interval past the end of the clock leaves the next refresh due at once, below now plus the default minimum of 60 seconds |
| RefreshRuns.MinimumToTheEnd | src/client.rs:71-80 | For such a client with the default interval and a stale window, a minimum that ends with the clock leaves no stale window |
| RefreshRuns.OutageIsProbedRarely | src/client.rs:327-369 | While a snapshot stays current, however many callers race, at most ceil(retention / 30 s) automatic attempts begin in [refresh_after, stale_until) |
| RefreshRuns.RetryIsDueInRun | src/client.rs:351-369 | After a failure that served the retained snapshot, and until a setter, a publication or another failure, an attempt is due exactly from 30 s after the clock reading, or from the end of the stale window if that is earlier, and not before refresh_after |
| RefreshRuns.AttemptsFrom | src/client.rs:351-369 | The inductive form: after an attempt the next begins no earlier than 30 s later or at the end of the stale window |
| RefreshRuns.WaitersShareTheRefresh | src/client.rs:317-342 | Callers queued behind a refresh start no attempt before the new snapshot needs one |
| RefreshRuns.NobodyRechecksAfterPublication | src/client.rs:327-342 | A publication leaves no caller with an outdated second check |
| Provider.Client.SetMetadataRefreshInterval | src/client.rs:236-252 | The write section is the specified function of the old snapshot |
| Provider.Client.SetMetadataMinimumCacheDuration | src/client.rs:262-285 | The write section, with its early return while refreshing is disabled |
| Provider.Client.SetMetadataRetainOnError | src/client.rs:293-303 | The write section |
| Provider.Client.DisableMetadataRefresh | src/client.rs:306-315 | The write section |
| Provider.Client.MetadataAfterRefreshError | src/client.rs:351-368 | Serves the retained metadata iff the sampled time is before stale_until, and defers the retry |
| Provider.Client.Publish | src/client.rs:390-420 | Replaces the snapshot, reading the settings again under the lock |
| Provider.InitiallyCoherent | src/client.rs:109-183 | Both constructors give coherent snapshots with the default settings of one hour, one minute and one day: exempt without discovery, and with it fresh for at least the default minimum and with stale use permitted iff the response is not strict |
| Provider.SetterKeepsCoherent | src/client.rs:236-315 | Every setter keeps coherence, metadata, keys and stale permission, and changes its own setting only |
| Provider.SetterDeadlines | src/client.rs:236-315 | After each setter, for every instant: an attempt is due exactly from the new deadline on, whatever a failure had put off, and stale use is permitted exactly to the deadline plus the retention |
| Provider.RetryIsDue | src/client.rs:363-366 | The deferred retry, for every instant: 30 s, capped by the end of the stale window |
| Provider.PublishKeepsCoherent | src/client.rs:390-419 | A publication keeps coherence and the settings |
| Metadata.Discover | src/metadata/mod.rs:63-93 | Accepts exactly status 200 with readable metadata of the expected issuer that names response and subject types and RS256, and passes on just these metadata and the headers |
| CachePolicy.CacheDirectives.ParseCacheControl | src/metadata/cache.rs:132-160 | The loop over comma parts folds each into the accumulator |
| CachePolicy.PolicyFromHeaders | src/metadata/cache.rs:52-72 | The loop over header lines computes the policy of all of them |
| CachePolicy.FindIsFirst | src/metadata/cache.rs:124-129 | A header is the first line of that name, in any letter case |
| CachePolicy.CommaJoins | src/metadata/cache.rs:132-160 | Two values joined by a comma read like the two in sequence |
| CachePolicy.LinesCombine | src/metadata/cache.rs:56-62 | Any split into header lines reads like the one combined line |
| CachePolicy.DirectivesClosedForm | src/metadata/cache.rs:132-160 | Each flag is the disjunction over all parts and max-age the least of all given |
| CachePolicy.EveryLineCounts | src/metadata/cache.rs:56-62 | Over the header list, by index: each flag is set iff some part of some Cache-Control line, wherever it stands, names it, and max-age is the least that any part of any line gives |
| CachePolicy.OnlyTheSetOfPartsMatters | src/metadata/cache.rs:52-62 | Order, repetition and line breaks of directives do not matter |
| CachePolicy.StaleUseIffNotStrict | src/metadata/cache.rs:19-40 | For every minimum, stale use is permitted iff no line says no-store, no-cache or must-revalidate |
| CachePolicy.StrictLifetimes | src/metadata/cache.rs:89-98 | no-store in any line forbids keeping, else no-cache in any line asks for revalidation: no freshness either way |
| DirectiveText.ReadIffWritten | src/metadata/cache.rs:132-160 | For every text: it is read as no-store, no-cache, must-revalidate or a max-age iff it is that name in any letter case, between any whitespace, followed by nothing or by an equals sign and more, where a max-age takes its argument from there |
| Ascii.LetterCase | src/metadata/cache.rs:146-157 | Ignoring case maps the 26 letters and nothing else |
| CachePolicy.MinimumIsFloor | src/metadata/cache.rs:19-40 | The minimum is a floor under every policy |
| CachePolicy.PositiveDeltaSeconds | src/metadata/cache.rs:163-167 | For every string: the lifetime is positive iff the string is, between any quotes, an optional plus sign and digits that denote a number from 1 to 2^128 - 1; everything else is zero |
| CachePolicy.DeltaSecondsOfNumeral | src/metadata/cache.rs:163-167 | Such a spelling gives the number capped at 2^31 seconds, or zero from 2^128 on |
| CachePolicy.DeltaSecondsOfDigits | src/metadata/cache.rs:163-167 | Digits are capped at 2^31 seconds iff they denote at most 2^128 - 1, and larger ones are zero |
| CachePolicy.OversizedMaxAgeIsNotCapped | src/metadata/cache.rs:163-167 | The text of 2^128 as a max-age reads as zero |
| CachePolicy.MaxAgeLifetime | src/metadata/cache.rs:63-108 | With max-age the lifetime is max(0, least max-age - max(stated age, apparent age)) |
| CachePolicy.OtherLifetimes | src/metadata/cache.rs:110-121 | The whole policy without max-age: Expires, counted from Date or else from now, or the default, less the greater age, with must-revalidate if any line names it |
| CachePolicy.SingleMaxAge | src/metadata/cache.rs:163-167 | The line "max-age=n" gives min(n, 2^31) seconds, for every n below 2^128 |
| CachePolicy.OlderIsNotFresher | src/metadata/cache.rs:89-121 | Under every precedence a greater parsed age never lengthens the lifetime |
| AgeHeader.AgeIsNumber | src/metadata/cache.rs:67-69 | For every text: an age is known iff the text is an optional plus sign and digits that denote at most 2^64 - 1 |
| AgeHeader.AgeOfNumber | src/metadata/cache.rs:67-69 | It is then that number of seconds, and otherwise absent |
| AgeHeader.PolicyWithAge | src/metadata/cache.rs:52-72 | The first Age line decides the stated age, and the other lines everything else, wherever it stands among them |
| AgeHeader.NeverFresherIff | src/metadata/cache.rs:63-71 | For every two Age texts: one never gives a longer lifetime than the other, whatever the other lines say, iff its age, as understood, is not less |
| AgeHeader.OlderDigitsIff | src/metadata/cache.rs:67-69 | A greater number of seconds never gives a longer lifetime iff it is below 2^64, or the smaller one is zero or is not |
| AgeHeader.OversizedAgeIsDropped | src/metadata/cache.rs:67-69 | With max-age=60, the age 2^64 leaves 60 seconds and the age 60 none |
| AgeHeader.MaxAgeWithAge | src/metadata/cache.rs:52-108 | For all n and a and any Date: the lines "max-age=n" and "age: a" give max(0, capped n - max(stated a, time since the Date)) |
| CachePolicy.LaterIsNotFresher | src/metadata/cache.rs:63-71 | Reading a response later never lengthens its lifetime |
| KvStore.InMemoryKvStore.PutIfAbsent | src/transport/kv.rs:70-95 | Refuses exactly zero or unrepresentable lifetimes, untouched; otherwise prunes and creates iff the key is then vacant |
| KvStore.InMemoryKvStore.Take | src/transport/kv.rs:97-108 | Removes the key and returns its value iff it has not expired at the later clock reading |
| KvStore.StepRefines | src/transport/kv.rs:70-108 | One call against the pruning store answers as the ideal store judged at an instant within the call |
| KvStore.RefinesIdealStore | src/transport/kv.rs:70-108 | For every history of concurrent calls too, each judged at some instant within it; the instants need not keep the order of the calls |
| KvOrder.OrderedIffCompatible | src/transport/kv.rs:70-108 | Instants in the order of the critical sections exist iff no call must be judged later than one after it can be |
| KvOrder.AtomicUnlessExpiring | src/transport/kv.rs:70-108 | If no earlier put expires during a call for its key, the store answers as if each call took place at its critical section |
| KvOrder.LateTakeBreaksOrder | src/transport/kv.rs:97-108 | A history without ordered instants: a take finds what it removed expired, after a put has created in its place |
| KvOrder.EarlyPutBreaksOrder | src/transport/kv.rs:70-95 | Another one: a put sampled early refuses for an entry that has expired before a take that precedes it |
| KvOrder.ExplainsIffFits | src/transport/kv.rs:70-108 | Which instants explain a history: exactly those between the earliest and the latest one of each call |
| KvStore.TakeGivesLatestUnexpired | src/transport/kv.rs:26-33 | A take gives a value iff the latest put for the key, untouched since, has not expired when checked |
| KvStore.PutSuppliesOneTake | src/transport/kv.rs:26-33 | No put supplies two takes |
| KvStore.OnlyExpiredIsDisplaced | src/transport/kv.rs:84-93 | A creating put displaces only an entry already expired |
| KvStore.PutPrunes | src/transport/kv.rs:84-88 | A put leaves nothing in the store that had expired when it read the clock, and everything else |
| Authorize.ValidateCreatedAt | src/flow/authorize.rs:103-111 | Accepts exactly ages from zero to ten minutes |
| Authorize.AuthorizeUrlBuilder.AddPkceS256 | src/flow/authorize.rs:197-203 | Replaces verifier and challenge together |
| Authorize.AuthorizeUrlBuilder.Build | src/flow/authorize.rs:273-314 | Appends the parameters that are set, then the extra ones |
| Authorize.SentQueryParses | src/flow/authorize.rs:152-302 | For every query text on the endpoint and all calls, the text of the query sent, appended to pair by pair, parses to exactly the list of pairs of the built state |
| FormUrlEncoded.ParseAppendPairs | src/flow/authorize.rs:276-301 | Pairs appended to any query text, well formed or not, come after its own pairs and survive parsing |
| Authorize.StartIsPaired | src/flow/authorize.rs:141-184 | A builder starts iff openid is among the names in the scope, with a matching challenge, and with a verifier if the client has no secret |
| Authorize.StoredValuesMatchQuery | src/flow/authorize.rs:53-63 | For every start and all calls, and for each of state, nonce, redirect URI, challenge of the verifier and maximum age: the query sent gives exactly what is stored iff neither the endpoint's own query nor an extra parameter uses that name |
| Authorize.ExtraParameterShadows | src/flow/authorize.rs:258-261 | From any start, one extra parameter of such a name adds its value to the stored one, or sends a challenge where no verifier is stored |
| Authorize.ValuesOfStandard | src/flow/authorize.rs:279-297 | The builder itself sends one state and one nonce and, if set, one challenge and one maximum age, whatever else is set |
| Authorize.SentAtStart | src/flow/authorize.rs:152-160 | For every start and all calls, what the query sent gives for response_type, client_id, redirect_uri and scope: what the endpoint's query has, the value of the start, and what extra parameters add |
| Authorize.SentWhenBuilt | src/flow/authorize.rs:276-301 | The same for each of the eight parameters that are added when the request is built |
| Authorize.LastCallCounts | src/flow/authorize.rs:197-256 | Verifier, prompt, response mode, ID token hint and maximum age are those of the last call that sets them |
| Authorize.KeysDiffer | src/flow/authorize.rs:46-48 | No two states share a storage key |
| Authorize.ScopeNamesAre | src/flow/authorize.rs:53-63 | The stored scopes are the non-empty pieces of the scope sent |
| Authorize.StoredRequestIsComplete | src/flow/authorize.rs:53-63 | After any calls, the stored request has a verifier if the client has no secret, and the redirect URI, state, nonce and scopes it started with |
| TokenRequest.FromMetadata | src/flow/token.rs:56-88 | Succeeds iff a usable method is advertised or none is named; unauthenticated iff there is no secret; Basic preferred |
| TokenRequest.FormEncodeComponent | src/flow/token.rs:357-364 | Stripping the equals sign cannot fail, and leaves the encoded component |
| TokenRequest.BasicCredentialsDecode | src/flow/token.rs:206-214 | Splitting at the first colon and form-decoding recovers any client id and secret |
| TokenRequest.BasicCredentialsUnique | src/flow/token.rs:206-214 | No two pairs share their credentials |
| TokenRequest.CodeTokenRequest.Build | src/flow/token.rs:161-236 | The pushes and early returns compute the specified request |
| TokenRequest.BuildSucceedsIff | src/flow/token.rs:161-186 | With a method from metadata, building succeeds iff the client has a secret or a verifier |
| TokenRequest.BuildComplains | src/flow/token.rs:161-186 | Each error is reported iff it is the first thing missing, in the order secret, code, redirect URI, verifier |
| TokenRequest.BodyCarriesFields | src/flow/token.rs:188-228 | The body parses to the form of an authorization-code grant: grant_type once, code, redirect_uri and code_verifier once or not at all with the values given, client_id once unless with Basic, client_secret exactly with Post, and nothing else |
| TokenRequest.SecretIsSentOnce | src/flow/token.rs:197-226 | The secret is in the Authorization header with Basic, which is the default, in the body with Post, and nowhere otherwise; the other headers are the two for JSON and the form |
| Completion.SentRequestAnswers | src/client.rs:465-523 | A token request that is sent goes to the token endpoint, is an authorization-code grant for the code of the response with the stored redirect URI and verifier, authenticates the client as the metadata allow, is in time, with matching state and an acceptable issuer, and never for an error response |
| Completion.WhyRejected | src/client.rs:465-515 | Why a completion is rejected, each iff it is the first that applies: another state, a request from the future or too old, another or a missing issuer, and only then the error that the provider reports |
| Completion.ExchangeIff | src/client.rs:465-515 | The exact condition for sending a token request |
| Completion.NeverStranded | src/client.rs:488-515 | From any client and any builder calls, a timely successful response from the right issuer is exchanged whenever the provider supports the client |
| Delivery.StoredRequestIsExchanged | src/client.rs:445-523 | Over runs of the shared store: a request from the builder whose put creates its entry, whatever other puts, takes and completions interleave, as long as no other take of its state comes first, is taken, bound and exchanged if checked before it expires and finished in time |
| ComposedDelivery.StoredRequestIsExchanged | src/client.rs:445-523 | The same in runs of any number of instances with their own caches: the token request is sent, by the right instance, as soon as its refresh does not report an error, for a response that names the issuer the instance was built with or none where none is promised |
| Delivery.CommittedIsBound | src/client.rs:685-697 | The value such a put stored is what the completion that takes its state goes on with |
| Delivery.EntryStaysOverRun | src/transport/kv.rs:70-108 | Pruning by other puts and takes of other keys never remove an unexpired entry |
| Completion.AtMostOneExchangePerPut | src/client.rs:445-523 | In every run of any number of instances, token requests map injectively to successful puts, and each answers what its put stored, checked before it expired |
| Completion.StepKeepsExclusive | src/client.rs:685-697 | The value of each put is in at most one place: the store, one completion, or one token request |
| Instances.EveryExchangeIsOwn | src/client.rs:488-523 | In every run of any number of instances over one store, each token request has a trace: one completion began an automatic call for metadata at an event, a later step of its own instance's refresh machine returned the outcome to it, and its end sent the request, the one that its instance's client builds from that metadata; the step published that metadata, or the snapshot was admissible by the clock the step used; issuer of the metadata, and of the response if it names one, is the one fixed when the instance was built |
| Instances.OutcomeHistory | src/client.rs:488-490 | Whatever outcome a completion holds, a step of its own call to the refresh machine returned it |
| Instances.OutcomeIsHandedOver | src/client.rs:488-490 | What a step of a completion's call returns is handed to that completion and to no other |
| Instances.ComposedExchangesAreGenuine | src/client.rs:445-523 | In composed runs too, no put is exchanged twice and each token request answers what its put stored |
| Instances.FlowRun | src/client.rs:445-523 | The store and the completions in a composed run see a run of the completion machine |
| Instances.CacheRun | src/client.rs:327-421 | Each instance in a composed run sees a run of the refresh machine, so every guarantee of those runs holds for it |
| Instances.OutcomeIsSound | src/client.rs:327-369 | Every outcome that a step returns has the fixed issuer and valid metadata, and is what the step published, or a snapshot admissible by the clock at that step or, after a failure, at the reading before |
| FormUrlEncoded.RoundTrip | src/flow/token.rs:351-355 | Every list of pairs survives serializing and parsing |
| FormUrlEncoded.DecodeEncodeComponent | src/flow/token.rs:357-364 | Every string survives, and its encoding has no separator and no colon |
| FormUrlEncoded.EscapeDenotes | src/flow/callback.rs:209-215 | For every byte and both spellings of each of its two digits, its escape decodes to it |
| FormUrlEncoded.DigitIsSpelled | src/flow/callback.rs:209-215 | A byte is a digit iff it is in one of the two tables |
| FormUrlEncoded.EncodedByte | src/flow/token.rs:351-364 | Letters, digits and four marks are written as themselves, a space as a plus sign, and every other byte as an escape in upper case |
| FormUrlEncoded.FieldParts | src/flow/callback.rs:165-172 | A field is split at its first equals sign, and without one is a name with an empty value |
| EscapeCase.EscapeCaseIrrelevant | src/flow/callback.rs:103-215 | Two queries that differ only in the letter case of the digits of their escapes have the same outcome, response or error |
| Utf8.LosesNothing | src/flow/callback.rs:105-107 | Lossy decoding can be undone exactly on well-formed UTF-8 |
| Utf8.ReplacesMaximalStart | src/flow/callback.rs:105-107 | On ill-formed bytes one replacement character stands for the longest start of a character that is there, or one byte |
| Callback.ValidateEncodedComponent | src/flow/callback.rs:174-207 | The loop accepts exactly the components with complete escapes whose decoding is well-formed UTF-8 |
| Callback.ValidateFormEncoding | src/flow/callback.rs:165-172 | Accepts exactly the queries all of whose fields are well formed |
| Callback.AcceptedDecodesFaithfully | src/flow/callback.rs:174-207 | On accepted components the library's decoding loses nothing, and with complete escapes on no others |
| Callback.SerializedIsWellFormed | src/flow/callback.rs:165-172 | Whatever the encoder writes is accepted |
| Callback.ParseAuthorizationResponse | src/flow/callback.rs:103-156 | The checks, in their order, with the duplicate search as a loop over a growing set |
| Callback.AcceptedIff | src/flow/callback.rs:103-163 | A query is accepted with a response iff it is well formed, no name repeats, and its fields, in any order, describe that response |
| Callback.RejectionReasons | src/flow/callback.rs:125-151 | Mixed responses, those without error or code, and successful ones without state are told apart by which fields are present |
| Callback.InvalidValues | src/flow/callback.rs:129-153 | What is blamed: with a code an absent state, then the code, then the state; with an error the first invalid one of error, description and URI, then an absent state, then an invalid one |
| Callback.FirstRepeatIs | src/flow/callback.rs:111-115 | The reported duplicate is the first name that repeats an earlier one |
| Callback.OrderIrrelevant | src/flow/callback.rs:103-163 | For all queries with the same fields in any order: the outcome is the same, errors included, except which of several repeated names is reported |
| Callback.UnknownFieldIgnored | src/flow/callback.rs:103-163 | A well-formed field with a fresh unknown name changes no outcome, errors included |
| Callback.EncodedSuccessParses | src/flow/callback.rs:145-155 | An encoded code and state parse to exactly that success iff both are non-empty visible ASCII |
| Callback.BytesAreChars | src/flow/callback.rs:222-252 | Checking the bytes of a value against an ASCII set is checking its characters |
| Callback.CharacterSets | src/flow/callback.rs:222-252 | The three sets, character by character |
| AuthTime.AcceptsExactlyTheWindow | src/token/verify.rs:284-331 | Checked arithmetic accepts exactly the representable values in the unbounded window from now - max_age - skew to now + skew, rejects each other claim with its own error, and accepts all without max_age |

## Left out

- HTTP transport: an answer of the provider is an arbitrary response or a failure.
- The inside of the JWKS cache, signature and claim checks: a JWKS handle is an identity and its URL.
- Randomness, SHA-256, base64, JSON and HTTP-date parsing: random values are parameters, the codecs are arbitrary functions.
- Cancellation of a refresh in flight and lock poisoning: a refresh that has started is taken to finish.
- Forming the discovery URL, URL types, userinfo, logout, refresh-token requests, `azp`, `nonce`, `at_hash` and algorithm checks.
- Completions from a pending request that the caller got from elsewhere than the shared store.
- Authorize.AuthorizeUrlBuilder.Build: works on the list of pairs; the text of the query is `SentQuery`, and the rest of the URL is not modelled.
- Authorize.AuthorizeUrlBuilder.ExtraParam: stands for `acr_values`, `login_hint` and `ui_locales` too, which push to the same list.
- TokenRequest.CodeTokenRequest.Build: the pushes are grouped in two helper methods.
