/** Building of the authorization-code token request (src/flow/token.rs). */
module TokenRequest {
  import opened Wrappers
  import opened Utf8
  import opened FormUrlEncoded
  import opened Pairs
  import Text

  datatype TokenAuthMethod = ClientSecretBasic | ClientSecretPost | NoAuth

  datatype TokenError =
    | NoSupportedAuthMethod
    | NoUnauthenticatedRequests
    | SecretRequired
    | CodeRequired
    | RedirectUriRequired
    | MissingPkceVerifier

  /** The most preferred method the provider advertises and the client can use. */
  function FromMetadata(supported: Option<seq<string>>, hasSecret: bool): (r: Result<TokenAuthMethod, TokenError>)
    ensures r.Ok? ==> (r.value == NoAuth <==> !hasSecret)
    ensures r.Ok? <==> supported.None? || (if hasSecret then "client_secret_basic" in supported.value
                                                             || "client_secret_post" in supported.value
                                           else "none" in supported.value)
    ensures r == Ok(ClientSecretPost) ==> supported.Some? && "client_secret_basic" !in supported.value
  {
    match supported
    case None => Ok(if hasSecret then ClientSecretBasic else NoAuth)
    case Some(methods) =>
      if hasSecret then
        if "client_secret_basic" in methods then Ok(ClientSecretBasic)
        else if "client_secret_post" in methods then Ok(ClientSecretPost)
        else Err(NoSupportedAuthMethod)
      else if "none" in methods then Ok(NoAuth)
      else Err(NoUnauthenticatedRequests)
  }

  /** Serializing a nameless field always starts with an equals sign. */
  lemma NamelessField(value: string)
    ensures Serialize([("", value)]) == [EQUALS] + EncodeComponent(value)
  {
    assert Encode("") == [];
    assert EncodedPairs([("", value)]) == [EncodePair(("", value))];
  }

  /** A component encoded as the value of a nameless field, without its leading equals sign. */
  function FormEncodeComponent(value: string): (r: seq<byte>)
    ensures r == EncodeComponent(value)
  {
    var serialized := Serialize([("", value)]);
    NamelessField(value);
    assert serialized[0] == EQUALS;
    serialized[1..]
  }

  function BasicCredentials(clientId: string, clientSecret: string): seq<byte> {
    FormEncodeComponent(clientId) + [COLON] + FormEncodeComponent(clientSecret)
  }

  /** Splitting at the first colon and form-decoding recovers any client id and secret. */
  lemma BasicCredentialsDecode(clientId: string, clientSecret: string)
    ensures var split := Text.SplitOnce(BasicCredentials(clientId, clientSecret), COLON);
      && split.Some?
      && DecodeComponent(split.value.0) == clientId
      && DecodeComponent(split.value.1) == clientSecret
  {
    DecodeEncodeComponent(clientId);
    DecodeEncodeComponent(clientSecret);
    Text.SplitOnceAt(EncodeComponent(clientId), COLON, EncodeComponent(clientSecret));
  }

  /** No two pairs of client id and secret share their credentials. */
  lemma BasicCredentialsUnique(id1: string, secret1: string, id2: string, secret2: string)
    requires BasicCredentials(id1, secret1) == BasicCredentials(id2, secret2)
    ensures id1 == id2 && secret1 == secret2
  {
    BasicCredentialsDecode(id1, secret1);
    BasicCredentialsDecode(id2, secret2);
  }

  datatype TokenParams = TokenParams(
    endpoint: string,
    clientId: string,
    clientSecret: Option<string>,
    code: string,
    redirectUri: Option<string>,
    pkceVerifier: Option<string>,
    authMethod: Option<TokenAuthMethod>)

  datatype HttpRequest = HttpRequest(url: string, headers: seq<(string, string)>, body: seq<byte>)

  type Base64 = seq<byte> -> string

  function Method(p: TokenParams): TokenAuthMethod {
    p.authMethod.GetOr(ClientSecretBasic)
  }

  /** The first complaint about the gathered parameters, if there is one. */
  function Complaint(p: TokenParams): Option<TokenError> {
    if !Method(p).NoAuth? && p.clientSecret.None? then Some(SecretRequired)
    else if p.code == "" then Some(CodeRequired)
    else if p.redirectUri.None? then Some(RedirectUriRequired)
    else if Method(p).NoAuth? && p.pkceVerifier.None? then Some(MissingPkceVerifier)
    else None
  }

  function CodeFields(code: string): seq<(string, string)> {
    [("grant_type", "authorization_code"), ("code", code)]
  }

  /** The fields that repeat what the authorization request sent. */
  function OptionalFields(p: TokenParams): seq<(string, string)> {
    (if p.redirectUri.Some? then [("redirect_uri", p.redirectUri.value)] else [])
    + (if p.pkceVerifier.Some? then [("code_verifier", p.pkceVerifier.value)] else [])
  }

  function ClientFields(p: TokenParams): seq<(string, string)> {
    match Method(p)
    case ClientSecretBasic => []
    case ClientSecretPost => [("client_id", p.clientId), ("client_secret", p.clientSecret.GetOr(""))]
    case NoAuth => [("client_id", p.clientId)]
  }

  /** The fields of the body. */
  function Fields(p: TokenParams): seq<(string, string)> {
    CodeFields(p.code) + OptionalFields(p) + ClientFields(p)
  }

  const COMMON_HEADERS: seq<(string, string)> :=
    [("Accept", "application/json"), ("Content-Type", "application/x-www-form-urlencoded")]

  function Headers(p: TokenParams, base64: Base64): seq<(string, string)> {
    COMMON_HEADERS
    + if Method(p).ClientSecretBasic? then
        [("Authorization", "Basic " + base64(BasicCredentials(p.clientId, p.clientSecret.GetOr(""))))]
      else []
  }

  function BuiltRequest(p: TokenParams, base64: Base64): Result<HttpRequest, TokenError> {
    match Complaint(p)
    case Some(error) => Err(error)
    case None => Ok(HttpRequest(p.endpoint, Headers(p, base64), Serialize(Fields(p))))
  }

  class CodeTokenRequest {
    var endpoint: string
    var clientId: string
    var clientSecret: Option<string>
    var code: string
    var redirectUri: Option<string>
    var pkceVerifier: Option<string>
    var authMethod: Option<TokenAuthMethod>

    function Value(): TokenParams
      reads this
    {
      TokenParams(endpoint, clientId, clientSecret, code, redirectUri, pkceVerifier, authMethod)
    }

    constructor (endpoint: string, clientId: string, clientSecret: Option<string>, code: string,
                 authMethod: Option<TokenAuthMethod>)
      ensures Value() == TokenParams(endpoint, clientId, clientSecret, code, None, None, authMethod)
    {
      this.endpoint, this.clientId, this.clientSecret := endpoint, clientId, clientSecret;
      this.code, this.authMethod := code, authMethod;
      redirectUri, pkceVerifier := None, None;
    }

    method SetRedirectUri(uri: string)
      modifies this
      ensures Value() == old(Value()).(redirectUri := Some(uri))
    {
      redirectUri := Some(uri);
    }

    method SetPkceVerifier(verifier: string)
      modifies this
      ensures Value() == old(Value()).(pkceVerifier := Some(verifier))
    {
      pkceVerifier := Some(verifier);
    }

    method SetAuthMethod(authentication: TokenAuthMethod)
      modifies this
      ensures Value() == old(Value()).(authMethod := Some(authentication))
    {
      authMethod := Some(authentication);
    }

    /** Pushes the fields that come from the authorization request. */
    method PushGrant(before: seq<(string, string)>) returns (form: seq<(string, string)>)
      ensures form == before + OptionalFields(Value())
    {
      form := before;
      if redirectUri.Some? {
        form := form + [("redirect_uri", redirectUri.value)];
      }
      if pkceVerifier.Some? {
        form := form + [("code_verifier", pkceVerifier.value)];
      }
    }

    /** Pushes what authenticates the client, to the headers or to the form. */
    method PushClient(chosen: TokenAuthMethod, before: seq<(string, string)>, base64: Base64)
      returns (form: seq<(string, string)>, headers: seq<(string, string)>)
      requires chosen == Method(Value())
      ensures form == before + ClientFields(Value())
      ensures headers == Headers(Value(), base64)
    {
      form := before;
      headers := COMMON_HEADERS;
      match chosen {
        case ClientSecretBasic =>
          var credentials := BasicCredentials(clientId, clientSecret.GetOr(""));
          headers := headers + [("Authorization", "Basic " + base64(credentials))];
        case ClientSecretPost =>
          form := form + [("client_id", clientId)];
          form := form + [("client_secret", clientSecret.GetOr(""))];
        case NoAuth =>
          form := form + [("client_id", clientId)];
      }
    }

    method Build(base64: Base64) returns (r: Result<HttpRequest, TokenError>)
      ensures r == BuiltRequest(Value(), base64)
    {
      var chosen := authMethod.GetOr(ClientSecretBasic);
      if (chosen == ClientSecretBasic || chosen == ClientSecretPost) && clientSecret.None? {
        return Err(SecretRequired);
      }
      if code == "" {
        return Err(CodeRequired);
      }
      if redirectUri.None? {
        return Err(RedirectUriRequired);
      }
      if chosen == NoAuth && pkceVerifier.None? {
        return Err(MissingPkceVerifier);
      }
      var form := PushGrant(CodeFields(code));
      var headers;
      form, headers := PushClient(chosen, form, base64);
      assert Complaint(Value()) == None;
      assert form == Fields(Value());
      return Ok(HttpRequest(endpoint, headers, Serialize(form)));
    }
  }

  /** With a method taken from metadata, a code and a redirect URI, building succeeds exactly if the client
      has a secret or a verifier. */
  lemma BuildSucceedsIff(p: TokenParams, supported: Option<seq<string>>, base64: Base64)
    requires FromMetadata(supported, p.clientSecret.Some?).Ok?
    requires p.authMethod == Some(FromMetadata(supported, p.clientSecret.Some?).value)
    requires p.code != "" && p.redirectUri.Some?
    ensures BuiltRequest(p, base64).Ok? <==> p.clientSecret.Some? || p.pkceVerifier.Some?
  {
  }

  /** Why a request is not built: the first thing that is missing. */
  lemma BuildComplains(p: TokenParams, base64: Base64)
    ensures var r, needsSecret := BuiltRequest(p, base64), p.authMethod != Some(NoAuth);
      && (r == Err(SecretRequired) <==> needsSecret && p.clientSecret.None?)
      && (r == Err(CodeRequired) <==> (needsSecret ==> p.clientSecret.Some?) && p.code == "")
      && (r == Err(RedirectUriRequired)
          <==> (needsSecret ==> p.clientSecret.Some?) && p.code != "" && p.redirectUri.None?)
      && (r == Err(MissingPkceVerifier)
          <==> !needsSecret && p.code != "" && p.redirectUri.Some? && p.pkceVerifier.None?)
      && (r.Err? ==> r.error in {SecretRequired, CodeRequired, RedirectUriRequired, MissingPkceVerifier})
  {
  }

  const FIELD_NAMES: seq<string> :=
    ["grant_type", "code", "redirect_uri", "code_verifier", "client_id", "client_secret"]

  /** The form is that of an authorization-code grant: each field occurs once or not at all, with the value given, and
      no other does. The client names itself in the form unless it does so in a header. */
  ghost predicate CarriesGrant(fields: seq<(string, string)>, p: TokenParams) {
    && ValuesOf(fields, "grant_type") == ["authorization_code"]
    && ValuesOf(fields, "code") == [p.code]
    && ValuesOf(fields, "redirect_uri") == Listed(p.redirectUri)
    && ValuesOf(fields, "code_verifier") == Listed(p.pkceVerifier)
    && ValuesOf(fields, "client_id") == (if Method(p).ClientSecretBasic? then [] else [p.clientId])
    && ValuesOf(fields, "client_secret") == (if Method(p).ClientSecretPost? then [p.clientSecret.GetOr("")] else [])
    && forall x :: x in fields ==> x.0 in FIELD_NAMES
  }

  function CodeList(p: TokenParams): seq<(string, Option<string>)> {
    [("grant_type", Some("authorization_code")), ("code", Some(p.code))]
  }

  function OptionalList(p: TokenParams): seq<(string, Option<string>)> {
    [("redirect_uri", p.redirectUri), ("code_verifier", p.pkceVerifier)]
  }

  function ClientList(p: TokenParams): seq<(string, Option<string>)> {
    [("client_id", if Method(p).ClientSecretBasic? then None else Some(p.clientId)),
     ("client_secret", if Method(p).ClientSecretPost? then Some(p.clientSecret.GetOr("")) else None)]
  }

  function FieldList(p: TokenParams): seq<(string, Option<string>)> {
    CodeList(p) + OptionalList(p) + ClientList(p)
  }

  lemma FieldListNames(p: TokenParams)
    ensures |FieldList(p)| == 6 && forall i :: 0 <= i < 6 ==> FieldList(p)[i].0 == FIELD_NAMES[i]
    ensures forall i, j :: 0 <= i < j < 6 ==> FIELD_NAMES[i] != FIELD_NAMES[j]
  {
    assert |"grant_type"| == 10 && |"code"| == 4 && |"redirect_uri"| == 12 && |"code_verifier"| == 13;
    assert |"client_id"| == 9 && "client_secret"[1] == 'l' && "code_verifier"[1] == 'o';
  }

  lemma FieldsAreGathered(p: TokenParams)
    ensures Fields(p) == Gather(FieldList(p))
  {
    GatherTwo(CodeList(p)[0], CodeList(p)[1]);
    GatherTwo(OptionalList(p)[0], OptionalList(p)[1]);
    GatherTwo(ClientList(p)[0], ClientList(p)[1]);
    GatherConcat(CodeList(p) + OptionalList(p), ClientList(p));
    GatherConcat(CodeList(p), OptionalList(p));
  }

  lemma FieldAt(p: TokenParams, i: nat, name: string, value: Option<string>)
    requires i < |FieldList(p)| && FieldList(p)[i] == (name, value)
    ensures ValuesOf(Gather(FieldList(p)), name) == Listed(value)
  {
    FieldListNames(p);
    assert FIELD_NAMES[i] == name;
    GatherOne(FieldList(p), i, name);
  }

  lemma FieldListValues(p: TokenParams)
    ensures var list := FieldList(p);
      && |list| == 6
      && list[0] == ("grant_type", Some("authorization_code")) && list[1] == ("code", Some(p.code))
      && list[2] == ("redirect_uri", p.redirectUri) && list[3] == ("code_verifier", p.pkceVerifier)
      && list[4] == ("client_id", if Method(p).ClientSecretBasic? then None else Some(p.clientId))
      && list[5] == ("client_secret", if Method(p).ClientSecretPost? then Some(p.clientSecret.GetOr("")) else None)
  {
  }

  lemma FieldsCarryGrant(p: TokenParams)
    ensures CarriesGrant(Gather(FieldList(p)), p)
  {
    FieldListValues(p);
    FieldListNames(p);
    FieldAt(p, 0, "grant_type", Some("authorization_code"));
    FieldAt(p, 1, "code", Some(p.code));
    FieldAt(p, 2, "redirect_uri", p.redirectUri);
    FieldAt(p, 3, "code_verifier", p.pkceVerifier);
    FieldAt(p, 4, "client_id", if Method(p).ClientSecretBasic? then None else Some(p.clientId));
    FieldAt(p, 5, "client_secret", if Method(p).ClientSecretPost? then Some(p.clientSecret.GetOr("")) else None);
    GatherNames(FieldList(p), FIELD_NAMES);
  }

  /** Parsing the body gives back a form of this kind. */
  lemma BodyCarriesFields(p: TokenParams, base64: Base64)
    requires BuiltRequest(p, base64).Ok?
    ensures CarriesGrant(Parse(BuiltRequest(p, base64).value.body), p)
    ensures BuiltRequest(p, base64).value.url == p.endpoint
  {
    RoundTrip(Fields(p));
    FieldsAreGathered(p);
    FieldsCarryGrant(p);
  }

  const HEADER_NAMES: seq<string> := ["Accept", "Content-Type", "Authorization"]

  /** The headers ask for JSON, announce the form, and with Basic hold the credentials; there are no others. */
  ghost predicate CarriesHeaders(headers: seq<(string, string)>, p: TokenParams, base64: Base64) {
    && ValuesOf(headers, "Accept") == ["application/json"]
    && ValuesOf(headers, "Content-Type") == ["application/x-www-form-urlencoded"]
    && ValuesOf(headers, "Authorization")
       == (if Method(p).ClientSecretBasic?
           then ["Basic " + base64(BasicCredentials(p.clientId, p.clientSecret.GetOr("")))] else [])
    && forall x :: x in headers ==> x.0 in HEADER_NAMES
  }

  function HeaderList(credentials: Option<string>): seq<(string, Option<string>)> {
    [("Accept", Some("application/json")), ("Content-Type", Some("application/x-www-form-urlencoded"))]
    + [("Authorization", credentials)]
  }

  function Credentials(p: TokenParams, base64: Base64): Option<string> {
    if Method(p).ClientSecretBasic? then
      Some("Basic " + base64(BasicCredentials(p.clientId, p.clientSecret.GetOr(""))))
    else None
  }

  lemma HeadersAreGathered(p: TokenParams, base64: Base64)
    ensures Headers(p, base64) == Gather(HeaderList(Credentials(p, base64)))
  {
    var front := [("Accept", Some("application/json")), ("Content-Type", Some("application/x-www-form-urlencoded"))];
    var last := [("Authorization", Credentials(p, base64))];
    GatherTwo(front[0], front[1]);
    GatherConcat(front, last);
    assert last[..0] == [];
    assert COMMON_HEADERS == Field("Accept", Some("application/json"))
                             + Field("Content-Type", Some("application/x-www-form-urlencoded"));
  }

  lemma HeaderListCarries(credentials: Option<string>)
    ensures var headers := Gather(HeaderList(credentials));
      && ValuesOf(headers, "Accept") == ["application/json"]
      && ValuesOf(headers, "Content-Type") == ["application/x-www-form-urlencoded"]
      && ValuesOf(headers, "Authorization") == Listed(credentials)
      && forall x :: x in headers ==> x.0 in HEADER_NAMES
  {
    var list := HeaderList(credentials);
    assert |list| == 3 && list[2] == ("Authorization", credentials);
    assert |"Accept"| == 6 && |"Content-Type"| == 12 && |"Authorization"| == 13;
    GatherOne(list, 0, "Accept");
    GatherOne(list, 1, "Content-Type");
    GatherOne(list, 2, "Authorization");
    GatherNames(list, HEADER_NAMES);
  }

  /** The secret is sent in the header with Basic, in the body with Post, and otherwise not at all. */
  lemma SecretIsSentOnce(p: TokenParams, base64: Base64)
    requires BuiltRequest(p, base64).Ok?
    ensures CarriesHeaders(BuiltRequest(p, base64).value.headers, p, base64)
    ensures ValuesOf(Parse(BuiltRequest(p, base64).value.body), "client_secret")
         == if Method(p).ClientSecretPost? then [p.clientSecret.value] else []
    ensures p.authMethod.None? ==> |ValuesOf(BuiltRequest(p, base64).value.headers, "Authorization")| == 1
  {
    HeadersAreGathered(p, base64);
    HeaderListCarries(Credentials(p, base64));
    BodyCarriesFields(p, base64);
  }
}
