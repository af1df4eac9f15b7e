/** The second leg: completing an authorization from a shared store (src/client.rs).

    Any number of client instances share one store. Storing and taking are split around their critical
    sections, the clocks move freely, and other code may store and take whatever it likes. */
module Completion {
  import opened Wrappers
  import opened Time
  import opened Utf8
  import FormUrlEncoded
  import opened Callback
  import opened Metadata
  import opened KvStore
  import opened Authorize
  import opened TokenRequest
  import opened Pairs

  datatype CompletionError =
    | StateMismatch
    | PendingRejected(why: AuthorizeError)
    | CallbackRejected(error: CallbackError)
    | TokenRejected(tokenError: TokenError)

  datatype ClientConfig = ClientConfig(clientId: string, clientSecret: Option<string>)

  function ValidatePending(pending: PendingAuthRequest, callbackState: string, wall: SystemTime)
    : Result<(), CompletionError>
  {
    if pending.state != callbackState then Err(StateMismatch)
    else
      match ValidateCreatedAt(pending, wall)
      case Ok(_) => Ok(())
      case Err(reason) => Err(PendingRejected(reason))
  }

  /** The token request for a code and the stored request it answers. */
  function ExchangeParams(client: ClientConfig, metadata: ProviderMetadata, authMethod: TokenAuthMethod, code: string,
                          pending: PendingAuthRequest): TokenParams
  {
    TokenParams(metadata.tokenEndpoint, client.clientId, client.clientSecret, code, pending.redirectUri,
                pending.pkceVerifier, Some(authMethod))
  }

  /** `complete_authorization_from_pending`, up to the sending of the token request. */
  function CompleteFromPending(client: ClientConfig, metadata: ProviderMetadata, response: AuthorizationResponse,
                               pending: PendingAuthRequest, wall: SystemTime, base64: Base64)
    : Result<HttpRequest, CompletionError>
  {
    match ValidatePending(pending, response.state, wall)
    case Err(error) => Err(error)
    case Ok(_) =>
      if response.iss.Some? && response.iss.value != metadata.issuer then
        Err(CallbackRejected(CallbackError.IssuerMismatch(metadata.issuer, response.iss.value)))
      else if response.iss.None? && metadata.issParameterSupported then Err(CallbackRejected(Missing("iss")))
      else
        match response
        case Error(error, description, errorUri, state, iss) =>
          Err(CallbackRejected(ProviderError(error, description, errorUri, state, iss)))
        case Success(code, _, _) =>
          match FromMetadata(metadata.tokenEndpointAuthMethods, client.clientSecret.Some?)
          case Err(error) => Err(TokenRejected(error))
          case Ok(authMethod) =>
            match BuiltRequest(ExchangeParams(client, metadata, authMethod, code, pending), base64)
            case Err(error) => Err(TokenRejected(error))
            case Ok(request) => Ok(request)
  }

  /** The issuer of the response is the expected one, and is present if the provider says it sends it. */
  predicate IssuerAcceptable(metadata: ProviderMetadata, response: AuthorizationResponse) {
    match response.iss
    case Some(iss) => iss == metadata.issuer
    case None => !metadata.issParameterSupported
  }

  /** The form is that of an authorization-code grant, for the code of the response, with the redirect URI and the
      verifier that are stored, and with the client's id or id and secret unless these are in a header. */
  ghost predicate GrantForm(fields: seq<(string, string)>, client: ClientConfig, authMethod: TokenAuthMethod,
                            code: string, pending: PendingAuthRequest)
  {
    && ValuesOf(fields, "grant_type") == ["authorization_code"]
    && ValuesOf(fields, "code") == [code]
    && ValuesOf(fields, "redirect_uri") == Listed(pending.redirectUri)
    && ValuesOf(fields, "code_verifier") == Listed(pending.pkceVerifier)
    && ValuesOf(fields, "client_id") == (if authMethod.ClientSecretBasic? then [] else [client.clientId])
    && ValuesOf(fields, "client_secret") == (if authMethod.ClientSecretPost? then Listed(client.clientSecret) else [])
    && forall x :: x in fields ==>
         x.0 in ["grant_type", "code", "redirect_uri", "code_verifier", "client_id", "client_secret"]
  }

  ghost predicate GrantHeaders(headers: seq<(string, string)>, client: ClientConfig, authMethod: TokenAuthMethod,
                               base64: Base64)
  {
    && ValuesOf(headers, "Accept") == ["application/json"]
    && ValuesOf(headers, "Content-Type") == ["application/x-www-form-urlencoded"]
    && (authMethod.ClientSecretBasic? ==>
          && client.clientSecret.Some?
          && ValuesOf(headers, "Authorization")
             == ["Basic " + base64(BasicCredentials(client.clientId, client.clientSecret.value))])
    && (!authMethod.ClientSecretBasic? ==> ValuesOf(headers, "Authorization") == [])
  }

  /** The request answers the stored one in time, at the token endpoint, and with a method that the provider offers. */
  ghost predicate Answers(request: HttpRequest, client: ClientConfig, metadata: ProviderMetadata,
                          response: AuthorizationResponse, pending: PendingAuthRequest, wall: SystemTime,
                          base64: Base64)
  {
    && pending.state == response.state
    && 0 <= wall - pending.createdAt <= 600 * SECOND
    && IssuerAcceptable(metadata, response)
    && response.Success?
    && request.url == metadata.tokenEndpoint
    && var authMethod := FromMetadata(metadata.tokenEndpointAuthMethods, client.clientSecret.Some?);
    && authMethod.Ok?
    && GrantForm(FormUrlEncoded.Parse(request.body), client, authMethod.value, response.code, pending)
    && GrantHeaders(request.headers, client, authMethod.value, base64)
  }

  lemma ParamsGiveGrant(client: ClientConfig, metadata: ProviderMetadata, authMethod: TokenAuthMethod, code: string,
                        pending: PendingAuthRequest, fields: seq<(string, string)>, headers: seq<(string, string)>,
                        base64: Base64)
    requires FromMetadata(metadata.tokenEndpointAuthMethods, client.clientSecret.Some?) == Ok(authMethod)
    requires CarriesGrant(fields, ExchangeParams(client, metadata, authMethod, code, pending))
    requires CarriesHeaders(headers, ExchangeParams(client, metadata, authMethod, code, pending), base64)
    ensures GrantForm(fields, client, authMethod, code, pending) && GrantHeaders(headers, client, authMethod, base64)
  {
  }

  lemma SentRequestAnswers(client: ClientConfig, metadata: ProviderMetadata, response: AuthorizationResponse,
                           pending: PendingAuthRequest, wall: SystemTime, base64: Base64)
    requires CompleteFromPending(client, metadata, response, pending, wall, base64).Ok?
    ensures Answers(CompleteFromPending(client, metadata, response, pending, wall, base64).value, client, metadata,
                    response, pending, wall, base64)
  {
    var authMethod := FromMetadata(metadata.tokenEndpointAuthMethods, client.clientSecret.Some?).value;
    var params := ExchangeParams(client, metadata, authMethod, response.code, pending);
    BodyCarriesFields(params, base64);
    SecretIsSentOnce(params, base64);
    var request := BuiltRequest(params, base64).value;
    ParamsGiveGrant(client, metadata, authMethod, response.code, pending, FormUrlEncoded.Parse(request.body),
                    request.headers, base64);
  }

  /** Why a completion is rejected, in this order: another state, a stored request from the future or too old, another
      issuer or a missing one, and only then what the provider reports. */
  lemma WhyRejected(client: ClientConfig, metadata: ProviderMetadata, response: AuthorizationResponse,
                    pending: PendingAuthRequest, wall: SystemTime, base64: Base64)
    ensures
      var r := CompleteFromPending(client, metadata, response, pending, wall, base64);
      var sameState, age := pending.state == response.state, wall - pending.createdAt;
      var inTime := sameState && 0 <= age <= 600 * SECOND;
      && (r == Err(StateMismatch) <==> !sameState)
      && (r == Err(PendingRejected(FromFuture)) <==> sameState && age < 0)
      && (r == Err(PendingRejected(Expired)) <==> sameState && age > 600 * SECOND)
      && (response.iss.Some? ==>
            (r == Err(CallbackRejected(CallbackError.IssuerMismatch(metadata.issuer, response.iss.value)))
             <==> inTime && response.iss.value != metadata.issuer))
      && (response.iss.None? ==>
            (r == Err(CallbackRejected(Missing("iss"))) <==> inTime && metadata.issParameterSupported))
      && (response.Error? ==>
            (r == Err(CallbackRejected(ProviderError(response.error, response.description, response.errorUri,
                                                     response.state, response.iss)))
             <==> inTime && IssuerAcceptable(metadata, response)))
  {
  }

  /** When a token request is sent, for every stored request and parsed response. */
  lemma ExchangeIff(client: ClientConfig, metadata: ProviderMetadata, query: seq<byte>, response: AuthorizationResponse,
                    pending: PendingAuthRequest, wall: SystemTime, base64: Base64)
    requires ParseResponse(query) == Ok(response)
    ensures CompleteFromPending(client, metadata, response, pending, wall, base64).Ok?
       <==> && pending.state == response.state
            && 0 <= wall - pending.createdAt <= 600 * SECOND
            && IssuerAcceptable(metadata, response)
            && response.Success?
            && FromMetadata(metadata.tokenEndpointAuthMethods, client.clientSecret.Some?).Ok?
            && pending.redirectUri.Some?
            && (client.clientSecret.Some? || pending.pkceVerifier.Some?)
  {
    AcceptedIff(query, response);
    var authMethod := FromMetadata(metadata.tokenEndpointAuthMethods, client.clientSecret.Some?);
    if response.Success? && authMethod.Ok? && pending.redirectUri.Some? {
      BuildSucceedsIff(ExchangeParams(client, metadata, authMethod.value, response.code, pending),
                       metadata.tokenEndpointAuthMethods, base64);
    }
  }

  /** No stored request is stranded: whatever was called on the builder, a successful response in time from
      the right issuer is exchanged, with or without a client secret, if the provider supports the client. */
  lemma NeverStranded(endpointQuery: seq<(string, string)>, redirectUri: string, scope: string, state: string,
                      nonce: string, random: string, calls: seq<Call>, s256: Challenge, created: SystemTime,
                      client: ClientConfig, metadata: ProviderMetadata, query: seq<byte>,
                      response: AuthorizationResponse, wall: SystemTime, base64: Base64)
    requires FromMetadata(metadata.tokenEndpointAuthMethods, client.clientSecret.Some?).Ok?
    requires ParseResponse(query) == Ok(response) && response.Success? && response.state == state
    requires IssuerAcceptable(metadata, response)
    requires 0 <= wall - created <= DEFAULT_TTL
    ensures var start := Start(endpointQuery, client.clientId, client.clientSecret.Some?, redirectUri, scope, state,
                               nonce, random, s256);
      start.Ok? ==>
        CompleteFromPending(client, metadata, response,
                            ToPending(Authorize.Built(CalledAll(start.value, calls, s256)), created), wall, base64).Ok?
  {
    var hasSecret := client.clientSecret.Some?;
    var start := Start(endpointQuery, client.clientId, hasSecret, redirectUri, scope, state, nonce, random, s256);
    StartIsPaired(endpointQuery, client.clientId, hasSecret, redirectUri, scope, state, nonce, random, s256);
    if start.Ok? {
      StoredRequestIsComplete(start.value, calls, hasSecret, s256, created);
      var pending := ToPending(Authorize.Built(CalledAll(start.value, calls, s256)), created);
      ExchangeIff(client, metadata, query, response, pending, wall, base64);
    }
  }

  // Runs

  /** A stored value, tagged with the successful put that stored it. */
  datatype Tagged = Tagged(id: nat, raw: seq<byte>)

  datatype PutPc = Sampled(key: string, raw: seq<byte>, expiresAt: Instant, now: Instant)

  datatype Pc =
    | Removed(response: AuthorizationResponse, entry: Option<Entry<Tagged>>)      // has not read the clock yet
    | Bound(response: AuthorizationResponse, id: nat, pending: PendingAuthRequest, checked: Instant)

  /** A successful put, numbered by its place in the history. */
  datatype Commit = Commit(key: string, raw: seq<byte>, expiresAt: Instant)

  datatype Exchange = Exchange(
    id: nat,
    client: ClientConfig,
    response: AuthorizationResponse,
    pending: PendingAuthRequest,
    checked: Instant,
    metadata: ProviderMetadata,
    wall: SystemTime,
    request: HttpRequest)

  datatype State = State(
    clock: Instant,
    wall: SystemTime,
    entries: Entries<Tagged>,
    puts: map<nat, PutPc>,
    completions: map<nat, Pc>,
    commits: seq<Commit>,
    exchanges: seq<Exchange>)

  datatype Event =
    | Tick(to: Instant)
    | SetWall(wall: SystemTime)
    | StartPut(p: nat, key: string, raw: seq<byte>, ttl: Duration)
    | CommitPut(p: nat)
    | ForeignTake(key: string)
    | StartCompletion(c: nat, query: seq<byte>)
    | CheckEntry(c: nat)
    | Finish(c: nat, client: ClientConfig, metadata: Option<ProviderMetadata>)

  /** How stored bytes are read, and credentials written. */
  datatype Codecs = Codecs(read: seq<byte> -> Option<PendingAuthRequest>, base64: Base64)

  const INITIAL := State(0, 0, map[], map[], map[], [], [])

  predicate Enabled(s: State, e: Event) {
    match e
    case Tick(to) => s.clock <= to
    case SetWall(_) => true
    case StartPut(p, _, _, ttl) => p !in s.puts && Expiry(s.clock, ttl).Some?
    case CommitPut(p) => p in s.puts
    case ForeignTake(_) => true
    case StartCompletion(c, _) => c !in s.completions
    case CheckEntry(c) => c in s.completions && s.completions[c].Removed?
    case Finish(c, _, _) => c in s.completions && s.completions[c].Bound?
  }

  ghost function Apply(s: State, e: Event, codecs: Codecs): State
    requires Enabled(s, e)
  {
    match e
    case Tick(to) => s.(clock := to)
    case SetWall(to) => s.(wall := to)
    case StartPut(p, key, raw, ttl) =>
      s.(puts := s.puts[p := Sampled(key, raw, Expiry(s.clock, ttl).value, s.clock)])
    case CommitPut(p) =>
      var Sampled(key, raw, expiresAt, now) := s.puts[p];
      var (entries, created) := Insert(s.entries, key, Entry(Tagged(|s.commits|, raw), expiresAt), now);
      s.(entries := entries, puts := s.puts - {p},
         commits := if created then s.commits + [Commit(key, raw, expiresAt)] else s.commits)
    case ForeignTake(key) => s.(entries := Remove(s.entries, key).0)
    case StartCompletion(c, query) =>
      (match ParseResponse(query)
       case Err(_) => s
       case Ok(response) =>
         var (entries, removed) := Remove(s.entries, KeyFor(response.state));
         s.(entries := entries, completions := s.completions[c := Removed(response, removed)]))
    case CheckEntry(c) =>
      var Removed(response, entry) := s.completions[c];
      (match Unexpired(entry, s.clock)
       case None => s.(completions := s.completions - {c})
       case Some(tagged) =>
         match codecs.read(tagged.raw)
         case None => s.(completions := s.completions - {c})
         case Some(pending) => s.(completions := s.completions[c := Bound(response, tagged.id, pending, s.clock)]))
    case Finish(c, client, metadata) =>
      var Bound(response, id, pending, checked) := s.completions[c];
      var t := s.(completions := s.completions - {c});
      if metadata.None? then t
      else
        match CompleteFromPending(client, metadata.value, response, pending, s.wall, codecs.base64)
        case Err(_) => t
        case Ok(request) =>
          var sent := Exchange(id, client, response, pending, checked, metadata.value, s.wall, request);
          t.(exchanges := t.exchanges + [sent])
  }

  ghost predicate ValidRun(s: State, events: seq<Event>, codecs: Codecs)
    decreases |events|
  {
    events == [] || (Enabled(s, events[0]) && ValidRun(Apply(s, events[0], codecs), events[1..], codecs))
  }

  ghost function Final(s: State, events: seq<Event>, codecs: Codecs): State
    requires ValidRun(s, events, codecs)
    decreases |events|
  {
    if events == [] then s else Final(Apply(s, events[0], codecs), events[1..], codecs)
  }

  /** A completion that has its stored request keeps it until it finishes. */
  lemma OthersLeaveBound(s: State, e: Event, c: nat, codecs: Codecs)
    requires Enabled(s, e) && c in s.completions && s.completions[c].Bound?
    requires !(e.Finish? && e.c == c)
    ensures var t := Apply(s, e, codecs); c in t.completions && t.completions[c] == s.completions[c]
  {
  }

  function Sent(s: State, e: Event, codecs: Codecs): Option<Exchange>
    requires Enabled(s, e)
  {
    match e
    case Finish(c, client, Some(metadata)) =>
      var Bound(response, id, pending, checked) := s.completions[c];
      (match CompleteFromPending(client, metadata, response, pending, s.wall, codecs.base64)
       case Err(_) => None
       case Ok(request) => Some(Exchange(id, client, response, pending, checked, metadata, s.wall, request)))
    case _ => None
  }

  lemma OnlyFinishSends(s: State, e: Event, codecs: Codecs)
    requires Enabled(s, e)
    ensures var sent := Sent(s, e, codecs);
      Apply(s, e, codecs).exchanges == if sent.Some? then s.exchanges + [sent.value] else s.exchanges
  {
  }

  lemma LastAppended<T>(front: seq<T>, last: Option<T>, x: T)
    requires (if last.Some? then front + [last.value] else front) == front + [x]
    ensures last == Some(x)
  {
    assert |front + [x]| == |front| + 1 && (front + [x])[|front|] == x;
  }

  lemma SentMatches(s: State, c: nat, client: ClientConfig, metadata: Option<ProviderMetadata>, x: Exchange,
                    codecs: Codecs)
    requires Enabled(s, Finish(c, client, metadata)) && Sent(s, Finish(c, client, metadata), codecs) == Some(x)
    ensures metadata == Some(x.metadata) && client == x.client && IssuerAcceptable(x.metadata, x.response)
    ensures CompleteFromPending(client, x.metadata, x.response, x.pending, x.wall, codecs.base64) == Ok(x.request)
  {
    SentRequestAnswers(client, x.metadata, x.response, x.pending, x.wall, codecs.base64);
  }

  lemma SentIsNew(s: State, e: Event, x: Exchange, codecs: Codecs)
    requires Enabled(s, e) && Apply(s, e, codecs).exchanges == s.exchanges + [x]
    ensures e.Finish? && Sent(s, e, codecs) == Some(x)
  {
    OnlyFinishSends(s, e, codecs);
    LastAppended(s.exchanges, Sent(s, e, codecs), x);
  }

  /** The token request that a completion sends is the one for its metadata, and from an acceptable issuer. */
  lemma SentIsComplete(s: State, c: nat, client: ClientConfig, metadata: Option<ProviderMetadata>, x: Exchange,
                       codecs: Codecs)
    requires Enabled(s, Finish(c, client, metadata))
    requires Apply(s, Finish(c, client, metadata), codecs).exchanges == s.exchanges + [x]
    ensures metadata == Some(x.metadata) && client == x.client && IssuerAcceptable(x.metadata, x.response)
    ensures CompleteFromPending(client, x.metadata, x.response, x.pending, x.wall, codecs.base64) == Ok(x.request)
  {
    SentIsNew(s, Finish(c, client, metadata), x, codecs);
    SentMatches(s, c, client, metadata, x, codecs);
  }

  /** A put that starts is not yet in the store, and expires as long after its clock reading as it asks. */
  lemma StartedPut(s: State, p: nat, key: string, raw: seq<byte>, ttl: Duration, codecs: Codecs)
    requires Enabled(s, StartPut(p, key, raw, ttl))
    ensures ttl > 0 && s.clock + ttl <= MAX_INSTANT
    ensures Apply(s, StartPut(p, key, raw, ttl), codecs)
         == s.(puts := s.puts[p := Sampled(key, raw, s.clock + ttl, s.clock)])
  {
  }

  // Custody of a put

  /** Where the value of a put can be. */
  datatype Place = InStore(key: string) | InCompletion(c: nat) | InExchange(i: nat)

  function IdAt(s: State, place: Place): Option<nat> {
    match place
    case InStore(key) => if key in s.entries then Some(s.entries[key].value.id) else None
    case InCompletion(c) =>
      if c !in s.completions then None
      else
        (match s.completions[c]
         case Removed(_, entry) => if entry.Some? then Some(entry.value.value.id) else None
         case Bound(_, id, _, _) => Some(id))
    case InExchange(i) => if i < |s.exchanges| then Some(s.exchanges[i].id) else None
  }

  /** Every put is in at most one place. */
  ghost predicate Exclusive(s: State) {
    && (forall place :: IdAt(s, place).Some? ==> IdAt(s, place).value < |s.commits|)
    && (forall p, q :: IdAt(s, p).Some? && IdAt(s, p) == IdAt(s, q) ==> p == q)
  }

  ghost predicate GenuinePc(pc: Pc, commits: seq<Commit>, codecs: Codecs) {
    match pc
    case Removed(response, entry) =>
      entry.Some? ==>
        && entry.value.value.id < |commits|
        && commits[entry.value.value.id]
           == Commit(KeyFor(response.state), entry.value.value.raw, entry.value.expiresAt)
    case Bound(response, id, pending, checked) =>
      && id < |commits|
      && commits[id].key == KeyFor(response.state) && checked < commits[id].expiresAt
      && codecs.read(commits[id].raw) == Some(pending)
  }

  ghost predicate GenuineExchange(e: Exchange, commits: seq<Commit>, codecs: Codecs) {
    && e.id < |commits|
    && commits[e.id].key == KeyFor(e.response.state) && e.checked < commits[e.id].expiresAt
    && codecs.read(commits[e.id].raw) == Some(e.pending)
    && Answers(e.request, e.client, e.metadata, e.response, e.pending, e.wall, codecs.base64)
  }

  /** The value at a place is what its put stored, under the key of the response that took it, and was checked before
      it expired. */
  ghost predicate Genuine(s: State, codecs: Codecs) {
    && (forall key :: key in s.entries ==>
          var tagged := s.entries[key].value;
          tagged.id < |s.commits| && s.commits[tagged.id] == Commit(key, tagged.raw, s.entries[key].expiresAt))
    && (forall c :: c in s.completions ==> GenuinePc(s.completions[c], s.commits, codecs))
    && (forall i :: 0 <= i < |s.exchanges| ==> GenuineExchange(s.exchanges[i], s.commits, codecs))
  }

  lemma CommitsOnlyGrow(s: State, e: Event, codecs: Codecs)
    requires Enabled(s, e)
    ensures s.commits <= Apply(s, e, codecs).commits
  {
  }

  lemma GenuineLasts(commits: seq<Commit>, more: seq<Commit>, x: Exchange, codecs: Codecs)
    requires commits <= more && GenuineExchange(x, commits, codecs)
    ensures GenuineExchange(x, more, codecs)
  {
  }

  lemma StepKeepsEntries(s: State, e: Event, codecs: Codecs)
    requires Genuine(s, codecs) && Enabled(s, e)
    ensures var t := Apply(s, e, codecs);
      forall key :: key in t.entries ==>
        var tagged := t.entries[key].value;
        tagged.id < |t.commits| && t.commits[tagged.id] == Commit(key, tagged.raw, t.entries[key].expiresAt)
  {
    CommitsOnlyGrow(s, e, codecs);
  }

  lemma StepKeepsPc(s: State, e: Event, c: nat, codecs: Codecs)
    requires Genuine(s, codecs) && Enabled(s, e) && c in Apply(s, e, codecs).completions
    ensures GenuinePc(Apply(s, e, codecs).completions[c], Apply(s, e, codecs).commits, codecs)
  {
    CommitsOnlyGrow(s, e, codecs);
    assert c in s.completions ==> GenuinePc(s.completions[c], s.commits, codecs);
  }

  lemma SentIsGenuine(s: State, e: Event, codecs: Codecs)
    requires Genuine(s, codecs) && Enabled(s, e) && Sent(s, e, codecs).Some?
    ensures GenuineExchange(Sent(s, e, codecs).value, s.commits, codecs)
  {
    var Bound(response, _, pending, _) := s.completions[e.c];
    assert GenuinePc(s.completions[e.c], s.commits, codecs);
    SentRequestAnswers(e.client, e.metadata.value, response, pending, s.wall, codecs.base64);
  }

  lemma StepKeepsExchange(s: State, e: Event, i: nat, codecs: Codecs)
    requires Genuine(s, codecs) && Enabled(s, e) && i < |Apply(s, e, codecs).exchanges|
    ensures GenuineExchange(Apply(s, e, codecs).exchanges[i], Apply(s, e, codecs).commits, codecs)
  {
    var t, sent := Apply(s, e, codecs), Sent(s, e, codecs);
    CommitsOnlyGrow(s, e, codecs);
    OnlyFinishSends(s, e, codecs);
    if i < |s.exchanges| {
      GenuineLasts(s.commits, t.commits, s.exchanges[i], codecs);
    } else {
      SentIsGenuine(s, e, codecs);
      GenuineLasts(s.commits, t.commits, sent.value, codecs);
    }
  }

  lemma StepKeepsGenuine(s: State, e: Event, codecs: Codecs)
    requires Genuine(s, codecs) && Enabled(s, e)
    ensures Genuine(Apply(s, e, codecs), codecs)
  {
    var t := Apply(s, e, codecs);
    StepKeepsEntries(s, e, codecs);
    forall c | c in t.completions ensures GenuinePc(t.completions[c], t.commits, codecs) {
      StepKeepsPc(s, e, c, codecs);
    }
    forall i | 0 <= i < |t.exchanges| ensures GenuineExchange(t.exchanges[i], t.commits, codecs) {
      StepKeepsExchange(s, e, i, codecs);
    }
  }

  /** Where the value at a place was before the step; a new put was nowhere. */
  ghost function Before(s: State, e: Event, place: Place, codecs: Codecs): Place
    requires Enabled(s, e)
  {
    match e
    case StartCompletion(c, query) =>
      if place == InCompletion(c) && ParseResponse(query).Ok? then InStore(KeyFor(ParseResponse(query).value.state))
      else place
    case Finish(c, _, _) => if place == InExchange(|s.exchanges|) then InCompletion(c) else place
    case _ => place
  }

  lemma FinishHandsOver(s: State, e: Event, codecs: Codecs)
    requires Enabled(s, e) && e.Finish?
    ensures var sent := Sent(s, e, codecs);
      && (sent.Some? ==> sent.value.id == s.completions[e.c].id)
      && Apply(s, e, codecs)
         == s.(completions := s.completions - {e.c},
               exchanges := if sent.Some? then s.exchanges + [sent.value] else s.exchanges)
  {
  }

  lemma HandedOver(s: State, c: nat, sent: Option<Exchange>, t: State, place: Place)
    requires c in s.completions && s.completions[c].Bound? && (sent.Some? ==> sent.value.id == s.completions[c].id)
    requires t == s.(completions := s.completions - {c},
                     exchanges := if sent.Some? then s.exchanges + [sent.value] else s.exchanges)
    requires IdAt(t, place).Some?
    ensures IdAt(t, place) == IdAt(s, if place == InExchange(|s.exchanges|) then InCompletion(c) else place)
  {
  }

  lemma FinishMovesIds(s: State, e: Event, place: Place, codecs: Codecs)
    requires Enabled(s, e) && e.Finish? && IdAt(Apply(s, e, codecs), place).Some?
    ensures IdAt(Apply(s, e, codecs), place) == IdAt(s, Before(s, e, place, codecs))
  {
    FinishHandsOver(s, e, codecs);
    HandedOver(s, e.c, Sent(s, e, codecs), Apply(s, e, codecs), place);
  }

  lemma TakesMoveIds(s: State, e: Event, place: Place, codecs: Codecs)
    requires Enabled(s, e) && (e.StartCompletion? || e.CheckEntry?) && IdAt(Apply(s, e, codecs), place).Some?
    ensures IdAt(Apply(s, e, codecs), place) == IdAt(s, Before(s, e, place, codecs))
  {
  }

  lemma StepMovesIds(s: State, e: Event, place: Place, codecs: Codecs)
    requires Enabled(s, e) && IdAt(Apply(s, e, codecs), place).Some?
    ensures var id := IdAt(Apply(s, e, codecs), place);
      || id == IdAt(s, Before(s, e, place, codecs))
      || (e.CommitPut? && place == InStore(s.puts[e.p].key) && id == Some(|s.commits|)
          && |Apply(s, e, codecs).commits| == |s.commits| + 1)
  {
    if e.Finish? {
      FinishMovesIds(s, e, place, codecs);
    } else if e.StartCompletion? || e.CheckEntry? {
      TakesMoveIds(s, e, place, codecs);
    }
  }

  lemma StepKeepsExclusive(s: State, e: Event, codecs: Codecs)
    requires Exclusive(s) && Enabled(s, e)
    ensures Exclusive(Apply(s, e, codecs))
  {
    var t := Apply(s, e, codecs);
    forall place | IdAt(t, place).Some? ensures IdAt(t, place).value < |t.commits| {
      StepMovesIds(s, e, place, codecs);
    }
    forall p, q | IdAt(t, p).Some? && IdAt(t, p) == IdAt(t, q) ensures p == q {
      StepMovesIds(s, e, p, codecs);
      StepMovesIds(s, e, q, codecs);
    }
  }

  lemma {:induction false} RunKeepsCustody(s: State, events: seq<Event>, codecs: Codecs)
    requires Exclusive(s) && Genuine(s, codecs) && ValidRun(s, events, codecs)
    ensures Exclusive(Final(s, events, codecs)) && Genuine(Final(s, events, codecs), codecs)
    decreases |events|
  {
    if events == [] {
    } else {
      StepKeepsExclusive(s, events[0], codecs);
      StepKeepsGenuine(s, events[0], codecs);
      RunKeepsCustody(Apply(s, events[0], codecs), events[1..], codecs);
    }
  }

  lemma InitialCustody(codecs: Codecs)
    ensures Exclusive(INITIAL) && Genuine(INITIAL, codecs)
  {
  }

  lemma ExchangesDiffer(s: State)
    requires Exclusive(s)
    ensures forall i, j :: 0 <= i < j < |s.exchanges| ==> s.exchanges[i].id != s.exchanges[j].id
  {
    forall i, j | 0 <= i < j < |s.exchanges| ensures s.exchanges[i].id != s.exchanges[j].id {
      assert IdAt(s, InExchange(i)) == Some(s.exchanges[i].id) && IdAt(s, InExchange(j)) == Some(s.exchanges[j].id);
    }
  }

  /** In every run of any number of instances, token requests map injectively to successful puts, and each
      answers, in time and from an acceptable issuer, the request that its put stored. */
  lemma AtMostOneExchangePerPut(events: seq<Event>, codecs: Codecs)
    requires ValidRun(INITIAL, events, codecs)
    ensures
      var s := Final(INITIAL, events, codecs);
      && (forall i :: 0 <= i < |s.exchanges| ==> GenuineExchange(s.exchanges[i], s.commits, codecs))
      && (forall i, j :: 0 <= i < j < |s.exchanges| ==> s.exchanges[i].id != s.exchanges[j].id)
  {
    InitialCustody(codecs);
    RunKeepsCustody(INITIAL, events, codecs);
    ExchangesDiffer(Final(INITIAL, events, codecs));
  }
}
