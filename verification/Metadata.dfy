/** Provider metadata and the validation of a discovery response (src/metadata). */
module Metadata {
  import opened Wrappers
  import opened Time
  import opened CachePolicy

  datatype ProviderMetadata = ProviderMetadata(
    issuer: string,
    authorizationEndpoint: string,
    tokenEndpoint: string,
    jwksUri: string,
    responseTypesSupported: seq<string>,
    subjectTypesSupported: seq<string>,
    idTokenSigningAlgs: seq<string>,
    tokenEndpointAuthMethods: Option<seq<string>>,
    issParameterSupported: bool)
  {
    /** The required capability lists are present. */
    predicate Valid() {
      responseTypesSupported != [] && subjectTypesSupported != [] && "RS256" in idTokenSigningAlgs
    }
  }

  datatype DiscoveryError = Transport | BadStatus(status: nat) | Unreadable | InvalidMetadata | IssuerMismatch

  /** An HTTP response whose body has been read as JSON, if it could be. */
  datatype Response = Response(status: nat, document: Option<ProviderMetadata>, headers: seq<Header>)

  datatype Discovered = Discovered(metadata: ProviderMetadata, headers: seq<Header>) {
    /** The policy of the response under the settings of the caller. */
    function Policy(defaultLifetime: Duration, minimum: Duration, parseDate: DateParser, wall: SystemTime): Policy {
      ApplyMinimum(PolicyOf(headers, defaultLifetime, parseDate, wall), minimum)
    }
  }

  /** Validates what the provider answered; `None` is a transport failure. */
  function Discover(issuer: string, answer: Option<Response>): (r: Result<Discovered, DiscoveryError>)
    ensures r.Ok? ==> r.value.metadata.issuer == issuer && r.value.metadata.Valid()
    ensures r.Ok? ==> answer.Some? && answer.value.document == Some(r.value.metadata)
                      && r.value.headers == answer.value.headers
    ensures r.Ok? <==> answer.Some? && answer.value.status == 200 && answer.value.document.Some?
                       && var document := answer.value.document.value;
                       && document.issuer == issuer && |document.responseTypesSupported| > 0
                       && |document.subjectTypesSupported| > 0 && "RS256" in document.idTokenSigningAlgs
    ensures r == Err(Transport) <==> answer.None?
    ensures forall status :: r == Err(BadStatus(status)) <==> answer.Some? && answer.value.status == status != 200
    ensures r == Err(Unreadable) <==> answer.Some? && answer.value.status == 200 && answer.value.document.None?
    ensures r == Err(IssuerMismatch)
       ==> answer.Some? && answer.value.document.Some? && answer.value.document.value.issuer != issuer
  {
    match answer
    case None => Err(Transport)
    case Some(response) =>
      if response.status != 200 then Err(BadStatus(response.status))
      else if response.document.None? then Err(Unreadable)
      else if !response.document.value.Valid() then Err(InvalidMetadata)
      else if response.document.value.issuer != issuer then Err(IssuerMismatch)
      else Ok(Discovered(response.document.value, response.headers))
  }
}
