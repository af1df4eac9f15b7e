/** Construction of an authorization request and of its stored form (src/flow/authorize.rs).

    Random values and the SHA-256 challenge are parameters; a query is the list of its pairs. */
module Authorize {
  import opened Wrappers
  import opened Time
  import opened Ascii
  import opened Utf8
  import opened Pairs
  import FormUrlEncoded
  import Text

  datatype AuthorizeError = OpenidScopeRequired | FromFuture | Expired

  /** What the builder has gathered so far. */
  datatype Request = Request(
    query: seq<(string, string)>,
    state: string,
    nonce: string,
    pkceVerifier: Option<string>,
    pkceChallenge: Option<string>,
    responseMode: Option<string>,
    prompt: Option<string>,
    maxAge: Option<Duration>,
    idTokenHint: Option<string>,
    extra: seq<(string, string)>,
    redirectUri: string,
    scope: string)

  datatype AuthRequestState = AuthRequestState(
    state: string,
    nonce: string,
    pkceVerifier: Option<string>,
    maxAge: Option<Duration>,
    redirectUri: string,
    scope: string,
    query: seq<(string, string)>)

  datatype PendingAuthRequest = PendingAuthRequest(
    state: string,
    nonce: string,
    pkceVerifier: Option<string>,
    maxAge: Option<Duration>,
    redirectUri: Option<string>,
    scopes: seq<string>,
    createdAt: SystemTime)

  const DEFAULT_TTL: Duration := 10 * 60 * SECOND

  function KeyFor(state: string): string {
    "oidc4rs:pending:" + state
  }

  /** No two states share a key. */
  lemma KeysDiffer(a: string, b: string)
    ensures KeyFor(a) == KeyFor(b) <==> a == b
  {
    if KeyFor(a) == KeyFor(b) {
      assert KeyFor(a)[|KeyFor("")|..] == a && KeyFor(b)[|KeyFor("")|..] == b;
    }
  }

  function NonEmpty(parts: seq<string>): seq<string> {
    if parts == [] then [] else (if parts[0] == "" then [] else [parts[0]]) + NonEmpty(parts[1..])
  }

  /** The names in a space-separated scope. */
  function ScopeNames(scope: string): seq<string> {
    NonEmpty(Text.Split(scope, ' '))
  }

  lemma {:induction false} NonEmptyAre(parts: seq<string>, name: string)
    ensures name in NonEmpty(parts) <==> name != "" && name in parts
  {
    if parts == [] {
    } else {
      NonEmptyAre(parts[1..], name);
      assert parts == [parts[0]] + parts[1..];
    }
  }

  lemma {:induction false} NonEmptyAll(parts: seq<string>)
    requires forall part :: part in parts ==> part != ""
    ensures NonEmpty(parts) == parts
  {
    if parts == [] {
    } else {
      assert parts[0] in parts && forall part :: part in parts[1..] ==> part in parts;
      NonEmptyAll(parts[1..]);
    }
  }

  /** The names stored are the pieces of the scope that are not empty. */
  lemma ScopeNamesAre(scope: string, name: string)
    ensures name in ScopeNames(scope) <==> name != "" && name in Text.Split(scope, ' ')
  {
    NonEmptyAre(Text.Split(scope, ' '), name);
  }

  /** A scope that was joined from names gives these names, in order. */
  lemma ScopeNamesOfJoin(names: seq<string>)
    requires names != [] && Text.FreeOf(names, ' ') && forall name :: name in names ==> name != ""
    ensures ScopeNames(Text.Join(names, ' ')) == names
  {
    Text.SplitJoin(names, ' ');
    NonEmptyAll(names);
  }

  function ToPending(r: AuthRequestState, now: SystemTime): PendingAuthRequest {
    PendingAuthRequest(r.state, r.nonce, r.pkceVerifier, r.maxAge, Some(r.redirectUri), ScopeNames(r.scope), now)
  }

  function ValidateCreatedAt(pending: PendingAuthRequest, now: SystemTime): (r: Result<(), AuthorizeError>)
    ensures r.Ok? <==> 0 <= now - pending.createdAt <= 600 * SECOND
    ensures r == Err(FromFuture) <==> now < pending.createdAt
  {
    if now < pending.createdAt then Err(FromFuture)
    else if now - pending.createdAt > DEFAULT_TTL then Err(Expired)
    else Ok(())
  }

  /** A call of one of the builder's methods; the parameter-adding ones share `Extra`. */
  datatype Call =
    | PkceS256(random: string)
    | Prompt(value: string)
    | MaxAge(age: Duration)
    | IdTokenHint(value: string)
    | ResponseMode(value: string)
    | Extra(key: string, value: string)

  type Challenge = string -> string

  function Called(r: Request, call: Call, s256: Challenge): Request {
    match call
    case PkceS256(random) => r.(pkceVerifier := Some(random), pkceChallenge := Some(s256(random)))
    case Prompt(value) => r.(prompt := Some(value))
    case MaxAge(age) => r.(maxAge := Some(age))
    case IdTokenHint(value) => r.(idTokenHint := Some(value))
    case ResponseMode(value) => r.(responseMode := Some(value))
    case Extra(key, value) => r.(extra := r.extra + [(key, value)])
  }

  function CalledAll(r: Request, calls: seq<Call>, s256: Challenge): Request
    decreases |calls|
  {
    if calls == [] then r else CalledAll(Called(r, calls[0], s256), calls[1..], s256)
  }

  function StartFields(clientId: string, redirectUri: string, scope: string): seq<(string, string)> {
    [("response_type", "code"), ("client_id", clientId), ("redirect_uri", redirectUri), ("scope", scope)]
  }

  /** The builder of a fresh request; a client without a secret starts with PKCE. The scope is sent verbatim. */
  function Start(endpointQuery: seq<(string, string)>, clientId: string, hasSecret: bool, redirectUri: string,
                 scope: string, state: string, nonce: string, random: string, s256: Challenge)
    : Result<Request, AuthorizeError>
  {
    if "openid" !in ScopeNames(scope) then Err(OpenidScopeRequired)
    else
      Ok(Request(
        endpointQuery + StartFields(clientId, redirectUri, scope), state, nonce,
        if hasSecret then None else Some(random), if hasSecret then None else Some(s256(random)),
        None, None, None, None, [], redirectUri, scope))
  }

  function Seconds(age: Option<Duration>): Option<string> {
    if age.Some? then Some(Decimal(age.value / SECOND)) else None
  }

  function PkceList(challenge: Option<string>): seq<(string, Option<string>)> {
    [("code_challenge", challenge), ("code_challenge_method", if challenge.Some? then Some("S256") else None)]
  }

  /** The parameters added when the request is built, before the extra ones. */
  function StandardList(r: Request): seq<(string, Option<string>)> {
    [("state", Some(r.state))]
    + [("nonce", Some(r.nonce))]
    + PkceList(r.pkceChallenge)
    + [("response_mode", r.responseMode)]
    + [("prompt", r.prompt)]
    + [("max_age", Seconds(r.maxAge))]
    + [("id_token_hint", r.idTokenHint)]
  }

  /** The whole seconds, without the rest. */
  lemma WholeSeconds(n: nat, rest: nat)
    requires rest < 1_000_000_000
    ensures Seconds(Some(n * 1_000_000_000 + rest)) == Some(Decimal(n))
  {
  }

  function StandardFields(r: Request): seq<(string, string)> {
    Gather(StandardList(r))
  }

  function Built(r: Request): AuthRequestState {
    AuthRequestState(r.state, r.nonce, r.pkceVerifier, r.maxAge, r.redirectUri, r.scope,
                     r.query + StandardFields(r) + r.extra)
  }

  class AuthorizeUrlBuilder {
    const challengeOf: Challenge
    var query: seq<(string, string)>
    var state: string
    var nonce: string
    var pkceVerifier: Option<string>
    var pkceChallenge: Option<string>
    var responseMode: Option<string>
    var prompt: Option<string>
    var maxAge: Option<Duration>
    var idTokenHint: Option<string>
    var extra: seq<(string, string)>
    var redirectUri: string
    var scope: string

    function Value(): Request
      reads this
    {
      Request(query, state, nonce, pkceVerifier, pkceChallenge, responseMode, prompt, maxAge, idTokenHint, extra,
              redirectUri, scope)
    }

    constructor (r: Request, s256: Challenge)
      ensures Value() == r && challengeOf == s256
    {
      challengeOf := s256;
      query, state, nonce := r.query, r.state, r.nonce;
      pkceVerifier, pkceChallenge := r.pkceVerifier, r.pkceChallenge;
      responseMode, prompt, maxAge, idTokenHint := r.responseMode, r.prompt, r.maxAge, r.idTokenHint;
      extra, redirectUri, scope := r.extra, r.redirectUri, r.scope;
    }

    /** Replaces verifier and challenge together. */
    method AddPkceS256(random: string)
      modifies this
      ensures Value() == Called(old(Value()), PkceS256(random), challengeOf)
    {
      var challenge := challengeOf(random);
      pkceVerifier := Some(random);
      pkceChallenge := Some(challenge);
    }

    method SetPrompt(value: string)
      modifies this
      ensures Value() == Called(old(Value()), Prompt(value), challengeOf)
    {
      prompt := Some(value);
    }

    method SetMaxAge(age: Duration)
      modifies this
      ensures Value() == Called(old(Value()), MaxAge(age), challengeOf)
    {
      maxAge := Some(age);
    }

    method SetIdTokenHint(value: string)
      modifies this
      ensures Value() == Called(old(Value()), IdTokenHint(value), challengeOf)
    {
      idTokenHint := Some(value);
    }

    method SetResponseMode(value: string)
      modifies this
      ensures Value() == Called(old(Value()), ResponseMode(value), challengeOf)
    {
      responseMode := Some(value);
    }

    method ExtraParam(key: string, value: string)
      modifies this
      ensures Value() == Called(old(Value()), Extra(key, value), challengeOf)
    {
      extra := extra + [(key, value)];
    }

    /** Appends the challenge and its method, after what is listed. */
    method AppendPkce(before: seq<(string, string)>, query: seq<(string, string)>,
                      ghost listed: seq<(string, Option<string>)>)
      returns (q: seq<(string, string)>)
      requires query == before + Gather(listed)
      ensures q == before + Gather(listed + PkceList(pkceChallenge))
    {
      q := query;
      ghost var fields := AppendField(before, q, listed, "code_challenge", pkceChallenge);
      if pkceChallenge.Some? {
        q := q + [("code_challenge", pkceChallenge.value)];
        fields := AppendField(before, q, fields, "code_challenge_method", Some("S256"));
        q := q + [("code_challenge_method", "S256")];
      } else {
        fields := AppendField(before, q, fields, "code_challenge_method", None);
      }
      assert fields == listed + PkceList(pkceChallenge);
    }

    /** Appends the parameters that are set to a query. */
    method AppendStandard(before: seq<(string, string)>) returns (q: seq<(string, string)>)
      ensures q == before + StandardFields(Value())
    {
      ghost var fields := AppendField(before, before, [], "state", Some(state));
      q := before + [("state", state)];
      assert fields == [("state", Some(state))];
      fields := AppendField(before, q, fields, "nonce", Some(nonce));
      q := q + [("nonce", nonce)];
      q := AppendPkce(before, q, fields);
      fields := fields + PkceList(pkceChallenge);
      fields := AppendField(before, q, fields, "response_mode", responseMode);
      if responseMode.Some? {
        q := q + [("response_mode", responseMode.value)];
      }
      fields := AppendField(before, q, fields, "prompt", prompt);
      if prompt.Some? {
        q := q + [("prompt", prompt.value)];
      }
      fields := AppendField(before, q, fields, "max_age", Seconds(maxAge));
      if maxAge.Some? {
        q := q + [("max_age", Decimal(maxAge.value / SECOND))];
      }
      fields := AppendField(before, q, fields, "id_token_hint", idTokenHint);
      if idTokenHint.Some? {
        q := q + [("id_token_hint", idTokenHint.value)];
      }
    }

    method Build() returns (r: AuthRequestState)
      ensures r == Built(Value())
    {
      var q := AppendStandard(query);
      for i := 0 to |extra|
        invariant q == query + StandardFields(Value()) + extra[..i]
      {
        q := q + [extra[i]];
      }
      r := AuthRequestState(state, nonce, pkceVerifier, maxAge, redirectUri, scope, q);
    }
  }

  /** Verifier and challenge belong together, and a client without a secret has them. */
  ghost predicate Paired(r: Request, hasSecret: bool, s256: Challenge) {
    && r.pkceChallenge == (if r.pkceVerifier.Some? then Some(s256(r.pkceVerifier.value)) else None)
    && (!hasSecret ==> r.pkceVerifier.Some?)
  }

  lemma StartIsPaired(endpointQuery: seq<(string, string)>, clientId: string, hasSecret: bool, redirectUri: string,
                      scope: string, state: string, nonce: string, random: string, s256: Challenge)
    ensures var r := Start(endpointQuery, clientId, hasSecret, redirectUri, scope, state, nonce, random, s256);
      && (r.Ok? <==> "openid" in ScopeNames(scope))
      && (r.Ok? ==> Paired(r.value, hasSecret, s256) && r.value.state == state && r.value.redirectUri == redirectUri
                    && r.value.nonce == nonce && r.value.scope == scope
                    && r.value.pkceVerifier == (if hasSecret then None else Some(random))
                    && ("redirect_uri", redirectUri) in r.value.query)
  {
    assert StartFields(clientId, redirectUri, scope)[2] == ("redirect_uri", redirectUri);
  }

  /** The pair that a call adds verbatim. */
  function ExtraOf(call: Call): seq<(string, string)> {
    if call.Extra? then [(call.key, call.value)] else []
  }

  function ExtrasOf(calls: seq<Call>): seq<(string, string)> {
    if calls == [] then [] else ExtraOf(calls[0]) + ExtrasOf(calls[1..])
  }

  lemma CallKeepsPaired(r: Request, call: Call, hasSecret: bool, s256: Challenge)
    requires Paired(r, hasSecret, s256)
    ensures var next := Called(r, call, s256);
      && Paired(next, hasSecret, s256)
      && next.redirectUri == r.redirectUri && next.state == r.state && next.nonce == r.nonce
      && next.scope == r.scope && next.query == r.query
      && next.extra == r.extra + ExtraOf(call)
  {
  }

  lemma {:induction false} CallsKeepPaired(r: Request, calls: seq<Call>, hasSecret: bool, s256: Challenge)
    requires Paired(r, hasSecret, s256)
    ensures var final := CalledAll(r, calls, s256);
      && Paired(final, hasSecret, s256)
      && final.redirectUri == r.redirectUri && final.state == r.state && final.nonce == r.nonce
      && final.scope == r.scope && final.query == r.query
      && final.extra == r.extra + ExtrasOf(calls)
    decreases |calls|
  {
    if calls == [] {
      assert r.extra + [] == r.extra;
    } else {
      CallKeepsPaired(r, calls[0], hasSecret, s256);
      CallsKeepPaired(Called(r, calls[0], s256), calls[1..], hasSecret, s256);
      Text.Regroup(r.extra, ExtraOf(calls[0]), ExtrasOf(calls[1..]));
    }
  }

  /** The parameters whose values the stored request keeps for later. */
  datatype Kept = TheState | TheNonce | TheRedirectUri | TheChallenge | TheMaxAge {
    function Name(): string {
      match this
      case TheState => "state"
      case TheNonce => "nonce"
      case TheRedirectUri => "redirect_uri"
      case TheChallenge => "code_challenge"
      case TheMaxAge => "max_age"
    }
  }

  /** What a query should give for such a parameter, according to the stored request. */
  function StoredValues(pending: PendingAuthRequest, kept: Kept, s256: Challenge): seq<string> {
    match kept
    case TheState => [pending.state]
    case TheNonce => [pending.nonce]
    case TheRedirectUri => Listed(pending.redirectUri)
    case TheChallenge => if pending.pkceVerifier.Some? then [s256(pending.pkceVerifier.value)] else []
    case TheMaxAge => Listed(Seconds(pending.maxAge))
  }

  const STANDARD_NAMES: seq<string> := ["state", "nonce", "code_challenge", "code_challenge_method", "response_mode",
                                        "prompt", "max_age", "id_token_hint"]

  const START_NAMES: seq<string> := ["response_type", "client_id", "redirect_uri", "scope"]

  lemma NamesDiffer()
    ensures forall i, j :: 0 <= i < j < |STANDARD_NAMES| ==> STANDARD_NAMES[i] != STANDARD_NAMES[j]
    ensures forall i, j :: 0 <= i < |START_NAMES| && 0 <= j < |STANDARD_NAMES| ==> START_NAMES[i] != STANDARD_NAMES[j]
    ensures forall i :: 0 <= i < |START_NAMES| && i != 2 ==> START_NAMES[i] != "redirect_uri"
  {
    assert "state"[0] == 's' && "nonce"[0] == 'n' && "response_mode"[0] == 'r' && "id_token_hint"[0] == 'i';
    assert "state"[1] == 't' && "scope"[1] == 'c' && "scope"[0] == 's' && "response_type"[9] == 't';
    assert "response_mode"[9] == 'm';
  }

  lemma StartNamesDiffer()
    ensures forall i, j :: 0 <= i < j < |START_NAMES| ==> START_NAMES[i] != START_NAMES[j]
  {
    assert |"response_type"| == 13 && |"client_id"| == 9 && |"redirect_uri"| == 12 && |"scope"| == 5;
  }

  lemma StandardNames(r: Request)
    ensures |StandardList(r)| == |STANDARD_NAMES|
    ensures forall i :: 0 <= i < |STANDARD_NAMES| ==> StandardList(r)[i].0 == STANDARD_NAMES[i]
  {
  }

  function StandardValues(r: Request, kept: Kept): seq<string> {
    match kept
    case TheState => [r.state]
    case TheNonce => [r.nonce]
    case TheRedirectUri => []
    case TheChallenge => Listed(r.pkceChallenge)
    case TheMaxAge => Listed(Seconds(r.maxAge))
  }

  lemma StandardAt(r: Request, i: nat, name: string, value: Option<string>)
    requires i < |STANDARD_NAMES| && STANDARD_NAMES[i] == name
    requires |StandardList(r)| == |STANDARD_NAMES| && StandardList(r)[i].1 == value
    ensures ValuesOf(StandardFields(r), name) == Listed(value)
  {
    StandardNames(r);
    NamesDiffer();
    GatherOne(StandardList(r), i, name);
  }

  lemma StandardValuesListed(r: Request)
    ensures |StandardList(r)| == |STANDARD_NAMES|
    ensures StandardList(r)[0].1 == Some(r.state) && StandardList(r)[1].1 == Some(r.nonce)
    ensures StandardList(r)[2].1 == r.pkceChallenge && StandardList(r)[6].1 == Seconds(r.maxAge)
  {
  }

  lemma NotStandard(r: Request, i: nat)
    requires i < |START_NAMES|
    ensures ValuesOf(StandardFields(r), START_NAMES[i]) == []
  {
    StandardNames(r);
    NamesDiffer();
    GatherNone(StandardList(r), START_NAMES[i]);
  }

  /** What the builder itself adds under the names of the stored values. */
  lemma ValuesOfStandard(r: Request, kept: Kept)
    ensures ValuesOf(StandardFields(r), kept.Name()) == StandardValues(r, kept)
  {
    StandardValuesListed(r);
    match kept {
      case TheState => StandardAt(r, 0, "state", Some(r.state));
      case TheNonce => StandardAt(r, 1, "nonce", Some(r.nonce));
      case TheRedirectUri => NotStandard(r, 2);
      case TheChallenge => StandardAt(r, 2, "code_challenge", r.pkceChallenge);
      case TheMaxAge => StandardAt(r, 6, "max_age", Seconds(r.maxAge));
    }
  }

  function StartValues(redirectUri: string, kept: Kept): seq<string> {
    if kept.TheRedirectUri? then [redirectUri] else []
  }

  lemma NotAtStart(clientId: string, redirectUri: string, scope: string, i: nat)
    requires i < |STANDARD_NAMES|
    ensures ValuesOf(StartFields(clientId, redirectUri, scope), STANDARD_NAMES[i]) == []
  {
    var fields := StartFields(clientId, redirectUri, scope);
    assert forall j :: 0 <= j < 4 ==> fields[j].0 == START_NAMES[j];
    NamesDiffer();
    NoValuesIffUnused(fields, STANDARD_NAMES[i]);
  }

  lemma NotInStart(endpointQuery: seq<(string, string)>, clientId: string, redirectUri: string, scope: string, i: nat)
    requires i < 8
    ensures ValuesOf(endpointQuery + StartFields(clientId, redirectUri, scope), STANDARD_NAMES[i])
         == ValuesOf(endpointQuery, STANDARD_NAMES[i])
  {
    ValuesConcat(endpointQuery, StartFields(clientId, redirectUri, scope), STANDARD_NAMES[i]);
    NotAtStart(clientId, redirectUri, scope, i);
  }

  function StartValue(clientId: string, redirectUri: string, scope: string, i: nat): string
    requires i < 4
  {
    if i == 0 then "code" else if i == 1 then clientId else if i == 2 then redirectUri else scope
  }

  lemma StartValueAt(endpointQuery: seq<(string, string)>, clientId: string, redirectUri: string, scope: string, i: nat)
    requires i < 4
    ensures ValuesOf(endpointQuery + StartFields(clientId, redirectUri, scope), START_NAMES[i])
         == ValuesOf(endpointQuery, START_NAMES[i]) + [StartValue(clientId, redirectUri, scope, i)]
  {
    var fields := StartFields(clientId, redirectUri, scope);
    assert forall j :: 0 <= j < 4 ==> fields[j].0 == START_NAMES[j];
    assert fields[i].1 == StartValue(clientId, redirectUri, scope, i);
    StartNamesDiffer();
    SingleValue(fields, i, START_NAMES[i]);
    ValuesConcat(endpointQuery, fields, START_NAMES[i]);
  }

  lemma ValuesOfStart(clientId: string, redirectUri: string, scope: string, kept: Kept)
    ensures ValuesOf(StartFields(clientId, redirectUri, scope), kept.Name()) == StartValues(redirectUri, kept)
  {
    match kept {
      case TheState => NotAtStart(clientId, redirectUri, scope, 0);
      case TheNonce => NotAtStart(clientId, redirectUri, scope, 1);
      case TheChallenge => NotAtStart(clientId, redirectUri, scope, 2);
      case TheMaxAge => NotAtStart(clientId, redirectUri, scope, 6);
      case TheRedirectUri =>
        var fields := StartFields(clientId, redirectUri, scope);
        assert forall j :: 0 <= j < 4 ==> fields[j].0 == START_NAMES[j];
        NamesDiffer();
        SingleValue(fields, 2, START_NAMES[2]);
    }
  }

  lemma ValuesOfThree(a: seq<(string, string)>, b: seq<(string, string)>, c: seq<(string, string)>, name: string)
    ensures ValuesOf(a + b + c, name) == ValuesOf(a, name) + ValuesOf(b, name) + ValuesOf(c, name)
  {
    ValuesConcat(a + b, c, name);
    ValuesConcat(a, b, name);
  }

  lemma ValuesOfQuery(r: Request, name: string)
    ensures ValuesOf(Built(r).query, name)
         == ValuesOf(r.query, name) + ValuesOf(StandardFields(r), name) + ValuesOf(r.extra, name)
  {
    ValuesOfThree(r.query, StandardFields(r), r.extra, name);
  }

  lemma ValuesOfStartQuery(endpointQuery: seq<(string, string)>, clientId: string, hasSecret: bool, redirectUri: string,
                           scope: string, state: string, nonce: string, random: string, s256: Challenge, kept: Kept)
    requires "openid" in ScopeNames(scope)
    ensures
      var start := Start(endpointQuery, clientId, hasSecret, redirectUri, scope, state, nonce, random, s256).value;
      && start.extra == []
      && ValuesOf(start.query, kept.Name())
         == ValuesOf(endpointQuery, kept.Name()) + StartValues(redirectUri, kept)
  {
    ValuesConcat(endpointQuery, StartFields(clientId, redirectUri, scope), kept.Name());
    ValuesOfStart(clientId, redirectUri, scope, kept);
  }

  lemma ExtrasOfFresh(start: Request, calls: seq<Call>, hasSecret: bool, s256: Challenge)
    requires Paired(start, hasSecret, s256) && start.extra == []
    ensures CalledAll(start, calls, s256).query == start.query
    ensures CalledAll(start, calls, s256).extra == ExtrasOf(calls)
  {
    CallsKeepPaired(start, calls, hasSecret, s256);
    assert [] + ExtrasOf(calls) == ExtrasOf(calls);
  }

  /** What the finished query gives for a name: what the start gave, the builder, and the extra calls. */
  lemma ValuesOfBuilt(start: Request, calls: seq<Call>, hasSecret: bool, s256: Challenge, name: string)
    requires Paired(start, hasSecret, s256) && start.extra == []
    ensures
      var final := CalledAll(start, calls, s256);
      ValuesOf(Built(final).query, name)
      == ValuesOf(start.query, name) + ValuesOf(StandardFields(final), name) + ValuesOf(ExtrasOf(calls), name)
  {
    ExtrasOfFresh(start, calls, hasSecret, s256);
    ValuesOfQuery(CalledAll(start, calls, s256), name);
  }

  lemma OnlyTheMiddle(a: seq<string>, m: seq<string>, b: seq<string>)
    ensures a + m + b == m <==> a == [] && b == []
  {
    if a + m + b == m {
      assert |a| + |m| + |b| == |m|;
    }
  }

  /** The query of the authorization URL, for an endpoint whose URL has the query `raw`. */
  function SentQuery(raw: seq<byte>, clientId: string, redirectUri: string, scope: string, final: Request): seq<byte> {
    var withStart := FormUrlEncoded.AppendPairs(raw, StartFields(clientId, redirectUri, scope));
    FormUrlEncoded.AppendPairs(FormUrlEncoded.AppendPairs(withStart, StandardFields(final)), final.extra)
  }

  /** Its text parses to the list of pairs. */
  lemma SentQueryParses(raw: seq<byte>, clientId: string, hasSecret: bool, redirectUri: string, scope: string,
                        state: string, nonce: string, random: string, calls: seq<Call>, s256: Challenge)
    requires "openid" in ScopeNames(scope)
    ensures
      var endpointQuery := FormUrlEncoded.Parse(raw);
      var start := Start(endpointQuery, clientId, hasSecret, redirectUri, scope, state, nonce, random, s256).value;
      var final := CalledAll(start, calls, s256);
      FormUrlEncoded.Parse(SentQuery(raw, clientId, redirectUri, scope, final)) == Built(final).query
  {
    var endpointQuery := FormUrlEncoded.Parse(raw);
    var start := Start(endpointQuery, clientId, hasSecret, redirectUri, scope, state, nonce, random, s256).value;
    var final := CalledAll(start, calls, s256);
    CallsKeepPaired(start, calls, hasSecret, s256);
    var withStart := FormUrlEncoded.AppendPairs(raw, StartFields(clientId, redirectUri, scope));
    FormUrlEncoded.ParseAppendPairs(raw, StartFields(clientId, redirectUri, scope));
    FormUrlEncoded.ParseAppendPairs(withStart, StandardFields(final));
    FormUrlEncoded.ParseAppendPairs(FormUrlEncoded.AppendPairs(withStart, StandardFields(final)), final.extra);
  }

  lemma StoredIsSent(r: Request, hasSecret: bool, s256: Challenge, now: SystemTime, kept: Kept)
    requires Paired(r, hasSecret, s256)
    ensures StartValues(r.redirectUri, kept) + StandardValues(r, kept)
         == StoredValues(ToPending(Built(r), now), kept, s256)
  {
  }

  lemma Middle<T>(a: seq<T>, b: seq<T>, c: seq<T>, middle: seq<T>, d: seq<T>)
    requires b + c == middle
    ensures a + b + c + d == a + middle + d
  {
    Text.Regroup(a, b, c);
  }

  /** What the query that is sent gives for such a name. */
  lemma SentValues(endpointQuery: seq<(string, string)>, clientId: string, hasSecret: bool, redirectUri: string,
                   scope: string, state: string, nonce: string, random: string, calls: seq<Call>, s256: Challenge,
                   now: SystemTime, kept: Kept)
    requires "openid" in ScopeNames(scope)
    ensures
      var start := Start(endpointQuery, clientId, hasSecret, redirectUri, scope, state, nonce, random, s256).value;
      var built := Built(CalledAll(start, calls, s256));
      ValuesOf(built.query, kept.Name())
      == ValuesOf(endpointQuery, kept.Name()) + StoredValues(ToPending(built, now), kept, s256)
         + ValuesOf(ExtrasOf(calls), kept.Name())
  {
    var start := Start(endpointQuery, clientId, hasSecret, redirectUri, scope, state, nonce, random, s256).value;
    StartIsPaired(endpointQuery, clientId, hasSecret, redirectUri, scope, state, nonce, random, s256);
    CallsKeepPaired(start, calls, hasSecret, s256);
    var final := CalledAll(start, calls, s256);
    ValuesOfStandard(final, kept);
    ValuesOfStartQuery(endpointQuery, clientId, hasSecret, redirectUri, scope, state, nonce, random, s256, kept);
    ValuesOfBuilt(start, calls, hasSecret, s256, kept.Name());
    StoredIsSent(final, hasSecret, s256, now, kept);
    Middle(ValuesOf(endpointQuery, kept.Name()), StartValues(redirectUri, kept), StandardValues(final, kept),
           StoredValues(ToPending(Built(final), now), kept, s256), ValuesOf(ExtrasOf(calls), kept.Name()));
  }

  /** For the state, the nonce, the redirect URI, the challenge of the verifier and the maximum age: the query that is
      sent gives exactly what is stored if and only if neither the endpoint's own query nor an extra parameter
      uses that name. */
  lemma StoredValuesMatchQuery(endpointQuery: seq<(string, string)>, clientId: string, hasSecret: bool,
                               redirectUri: string, scope: string, state: string, nonce: string, random: string,
                               calls: seq<Call>, s256: Challenge, now: SystemTime, kept: Kept)
    requires "openid" in ScopeNames(scope)
    ensures
      var start := Start(endpointQuery, clientId, hasSecret, redirectUri, scope, state, nonce, random, s256).value;
      var built := Built(CalledAll(start, calls, s256));
      ValuesOf(built.query, kept.Name()) == StoredValues(ToPending(built, now), kept, s256)
      <==> !Uses(endpointQuery, kept.Name()) && !Uses(ExtrasOf(calls), kept.Name())
  {
    var start := Start(endpointQuery, clientId, hasSecret, redirectUri, scope, state, nonce, random, s256).value;
    var pending := ToPending(Built(CalledAll(start, calls, s256)), now);
    SentValues(endpointQuery, clientId, hasSecret, redirectUri, scope, state, nonce, random, calls, s256, now, kept);
    OnlyTheMiddle(ValuesOf(endpointQuery, kept.Name()), StoredValues(pending, kept, s256),
                  ValuesOf(ExtrasOf(calls), kept.Name()));
    NoValuesIffUnused(endpointQuery, kept.Name());
    NoValuesIffUnused(ExtrasOf(calls), kept.Name());
  }

  lemma LoneExtra(name: string, value: string)
    ensures ValuesOf(ExtrasOf([Extra(name, value)]), name) == [value]
  {
    var calls := [Extra(name, value)];
    assert calls[1..] == [] && ExtrasOf(calls[1..]) == [];
    assert ExtrasOf(calls) == Field(name, Some(value));
    ValuesOfField(name, Some(value), name);
  }

  lemma ExtraStoresNothing(r: Request, name: string, value: string, s256: Challenge)
    ensures CalledAll(r, [Extra(name, value)], s256).pkceVerifier == r.pkceVerifier
  {
    var call := Extra(name, value);
    assert [call][1..] == [];
    assert CalledAll(Called(r, call, s256), [], s256) == Called(r, call, s256);
  }

  /** One extra parameter is enough to send a second value, or, from a client that has stored no verifier, a
      challenge that nothing answers. */
  lemma ExtraParameterShadows(clientId: string, hasSecret: bool, redirectUri: string, scope: string, state: string,
                              nonce: string, random: string, s256: Challenge, now: SystemTime, kept: Kept,
                              value: string)
    requires "openid" in ScopeNames(scope)
    ensures
      var start := Start([], clientId, hasSecret, redirectUri, scope, state, nonce, random, s256).value;
      var built := Built(CalledAll(start, [Extra(kept.Name(), value)], s256));
      var pending := ToPending(built, now);
      && ValuesOf(built.query, kept.Name()) == StoredValues(pending, kept, s256) + [value]
      && (hasSecret ==> pending.pkceVerifier == None)
  {
    var calls := [Extra(kept.Name(), value)];
    var start := Start([], clientId, hasSecret, redirectUri, scope, state, nonce, random, s256).value;
    LoneExtra(kept.Name(), value);
    ExtraStoresNothing(start, kept.Name(), value, s256);
    SentValues([], clientId, hasSecret, redirectUri, scope, state, nonce, random, calls, s256, now, kept);
  }

  // Every parameter of the request

  lemma ValuesPastStandard(start: Request, calls: seq<Call>, hasSecret: bool, s256: Challenge, i: nat)
    requires Paired(start, hasSecret, s256) && start.extra == [] && i < 4
    ensures ValuesOf(Built(CalledAll(start, calls, s256)).query, START_NAMES[i])
         == ValuesOf(start.query, START_NAMES[i]) + ValuesOf(ExtrasOf(calls), START_NAMES[i])
  {
    ValuesOfBuilt(start, calls, hasSecret, s256, START_NAMES[i]);
    NotStandard(CalledAll(start, calls, s256), i);
    assert ValuesOf(start.query, START_NAMES[i]) + [] == ValuesOf(start.query, START_NAMES[i]);
  }

  /** What the query that is sent gives for each of the parameters that a start sets. */
  lemma SentAtStart(endpointQuery: seq<(string, string)>, clientId: string, hasSecret: bool, redirectUri: string,
                    scope: string, state: string, nonce: string, random: string, calls: seq<Call>, s256: Challenge,
                    i: nat)
    requires "openid" in ScopeNames(scope) && i < 4
    ensures
      var start := Start(endpointQuery, clientId, hasSecret, redirectUri, scope, state, nonce, random, s256).value;
      ValuesOf(Built(CalledAll(start, calls, s256)).query, START_NAMES[i])
      == ValuesOf(endpointQuery, START_NAMES[i]) + [StartValue(clientId, redirectUri, scope, i)]
         + ValuesOf(ExtrasOf(calls), START_NAMES[i])
  {
    var start := Start(endpointQuery, clientId, hasSecret, redirectUri, scope, state, nonce, random, s256).value;
    StartIsPaired(endpointQuery, clientId, hasSecret, redirectUri, scope, state, nonce, random, s256);
    ValuesPastStandard(start, calls, hasSecret, s256, i);
    StartValueAt(endpointQuery, clientId, redirectUri, scope, i);
  }

  /** And for each of the parameters that are added when it is built. */
  lemma SentWhenBuilt(endpointQuery: seq<(string, string)>, clientId: string, hasSecret: bool, redirectUri: string,
                      scope: string, state: string, nonce: string, random: string, calls: seq<Call>, s256: Challenge,
                      i: nat)
    requires "openid" in ScopeNames(scope) && i < 8
    ensures
      var start := Start(endpointQuery, clientId, hasSecret, redirectUri, scope, state, nonce, random, s256).value;
      var final := CalledAll(start, calls, s256);
      && i < |StandardList(final)|
      && ValuesOf(Built(final).query, STANDARD_NAMES[i])
         == ValuesOf(endpointQuery, STANDARD_NAMES[i]) + Listed(StandardList(final)[i].1)
            + ValuesOf(ExtrasOf(calls), STANDARD_NAMES[i])
  {
    var start := Start(endpointQuery, clientId, hasSecret, redirectUri, scope, state, nonce, random, s256).value;
    var final := CalledAll(start, calls, s256);
    StartIsPaired(endpointQuery, clientId, hasSecret, redirectUri, scope, state, nonce, random, s256);
    StandardNames(final);
    ValuesOfBuilt(start, calls, hasSecret, s256, STANDARD_NAMES[i]);
    StandardAt(final, i, STANDARD_NAMES[i], StandardList(final)[i].1);
    NotInStart(endpointQuery, clientId, redirectUri, scope, i);
  }

  // The last call counts

  function Or<T>(value: Option<T>, otherwise: Option<T>): Option<T> {
    if value.Some? then value else otherwise
  }

  /** The value of the last call that sets something, or else the one before all calls. */
  function LastSet<T>(calls: seq<Call>, sets: Call -> Option<T>, before: Option<T>): Option<T> {
    if calls == [] then before
    else
      Or(sets(calls[|calls| - 1]), LastSet(calls[..|calls| - 1], sets, before))
  }

  function SetsVerifier(call: Call): Option<string> {
    if call.PkceS256? then Some(call.random) else None
  }

  function SetsPrompt(call: Call): Option<string> {
    if call.Prompt? then Some(call.value) else None
  }

  function SetsMode(call: Call): Option<string> {
    if call.ResponseMode? then Some(call.value) else None
  }

  function SetsHint(call: Call): Option<string> {
    if call.IdTokenHint? then Some(call.value) else None
  }

  function SetsAge(call: Call): Option<Duration> {
    if call.MaxAge? then Some(call.age) else None
  }

  lemma {:induction false} CalledLast(r: Request, calls: seq<Call>, s256: Challenge)
    requires calls != []
    ensures CalledAll(r, calls, s256) == Called(CalledAll(r, calls[..|calls| - 1], s256), calls[|calls| - 1], s256)
    decreases |calls|
  {
    if |calls| == 1 {
      assert calls[1..] == [] && calls[..0] == [];
    } else {
      CalledLast(Called(r, calls[0], s256), calls[1..], s256);
      assert calls[..|calls| - 1][1..] == calls[1..][..|calls| - 2];
    }
  }

  lemma CallSets(r: Request, call: Call, s256: Challenge)
    ensures var next := Called(r, call, s256);
      && next.pkceVerifier == Or(SetsVerifier(call), r.pkceVerifier)
      && next.prompt == Or(SetsPrompt(call), r.prompt)
      && next.responseMode == Or(SetsMode(call), r.responseMode)
      && next.idTokenHint == Or(SetsHint(call), r.idTokenHint)
      && next.maxAge == Or(SetsAge(call), r.maxAge)
  {
  }

  lemma {:induction false} LastCallCounts(r: Request, calls: seq<Call>, s256: Challenge)
    ensures var final := CalledAll(r, calls, s256);
      && final.pkceVerifier == LastSet(calls, SetsVerifier, r.pkceVerifier)
      && final.prompt == LastSet(calls, SetsPrompt, r.prompt)
      && final.responseMode == LastSet(calls, SetsMode, r.responseMode)
      && final.idTokenHint == LastSet(calls, SetsHint, r.idTokenHint)
      && final.maxAge == LastSet(calls, SetsAge, r.maxAge)
    decreases |calls|
  {
    if calls == [] {
    } else {
      var front, last := calls[..|calls| - 1], calls[|calls| - 1];
      CalledLast(r, calls, s256);
      LastCallCounts(r, front, s256);
      CallSets(CalledAll(r, front, s256), last, s256);
    }
  }

  /** Whatever is called, a client without a secret stores a verifier, and the stored request keeps the state and
      redirect URI that it started with. */
  lemma StoredRequestIsComplete(r: Request, calls: seq<Call>, hasSecret: bool, s256: Challenge, now: SystemTime)
    requires Paired(r, hasSecret, s256)
    ensures
      var pending := ToPending(Built(CalledAll(r, calls, s256)), now);
      && (!hasSecret ==> pending.pkceVerifier.Some?)
      && pending.redirectUri == Some(r.redirectUri) && pending.state == r.state && pending.nonce == r.nonce
      && pending.scopes == ScopeNames(r.scope) && pending.createdAt == now
  {
    CallsKeepPaired(r, calls, hasSecret, s256);
  }
}
