/** A stored authorization request reaches the token endpoint while its instance refreshes its metadata
    (src/client.rs): the path of one request through a run of any number of instances. */
module ComposedDelivery {
  import opened Wrappers
  import opened Utf8
  import CachePolicy
  import opened Metadata
  import opened Authorize
  import Callback
  import Time
  import TokenRequest
  import Flow = Completion
  import Delivery
  import opened Instances

  /** The next step of the completion sends its token request, attributed to its instance. */
  ghost predicate Sends(s: State, c: nat, id: nat, response: Callback.AuthorizationResponse,
                        pending: PendingAuthRequest, checked: Time.Instant, metadata: ProviderMetadata,
                        codecs: Flow.Codecs, parseDate: CachePolicy.DateParser)
  {
    && Enabled(s, Finish(c))
    && var t, home := Apply(s, Finish(c), codecs, parseDate), s.tasks[c].home;
    var client := s.instances[home].client;
    var request := Flow.CompleteFromPending(client, metadata, response, pending, s.shared.wall,
                                            codecs.base64);
    && request.Ok?
    && t.origins == s.origins + [Origin(home, s.tasks[c].outcome.value)]
    && var sent := Flow.Exchange(id, client, response, pending, checked, metadata, s.shared.wall, request.value);
       t.shared.exchanges == s.shared.exchanges + [sent]
  }

  lemma FinishAttributes(s: State, c: nat, x: Flow.Exchange, codecs: Flow.Codecs, parseDate: CachePolicy.DateParser)
    requires Enabled(s, Finish(c))
    requires Flow.Apply(s.shared, FinishOf(s, c), codecs).exchanges == s.shared.exchanges + [x]
    ensures var t := Apply(s, Finish(c), codecs, parseDate);
      && t.shared.exchanges == s.shared.exchanges + [x]
      && t.origins == s.origins + [Origin(s.tasks[c].home, s.tasks[c].outcome.value)]
  {
  }

  /** The step of the completion machine is one of the composed machine. */
  lemma FlowSends(s: State, c: nat, home: nat, metadata: ProviderMetadata, id: nat,
                  response: Callback.AuthorizationResponse, pending: PendingAuthRequest, checked: Time.Instant,
                  codecs: Flow.Codecs, parseDate: CachePolicy.DateParser)
    requires c in s.tasks && s.tasks[c].home == home && home in s.instances
    requires s.tasks[c].outcome.Some? && MetadataOf(s.tasks[c].outcome.value) == Some(metadata)
    requires Delivery.Sends(s.shared, c, s.instances[home].client, metadata, id, response, pending, checked,
                            codecs)
    ensures Sends(s, c, id, response, pending, checked, metadata, codecs, parseDate)
  {
    var request := Flow.CompleteFromPending(s.instances[home].client, metadata, response, pending, s.shared.wall,
                                            codecs.base64).value;
    var client := s.instances[home].client;
    var sent := Flow.Exchange(id, client, response, pending, checked, metadata, s.shared.wall, request);
    FinishAttributes(s, c, sent, codecs, parseDate);
  }

  lemma OutcomeHasIssuer(run: Run, c: nat, home: nat, metadata: ProviderMetadata, codecs: Flow.Codecs,
                         parseDate: CachePolicy.DateParser)
    requires IsRun(run, codecs, parseDate) && Fresh(run.First())
    requires c in run.Last().tasks && run.Last().tasks[c].home == home && home in run.First().instances
    requires var outcome := run.Last().tasks[c].outcome; outcome.Some? && MetadataOf(outcome.value) == Some(metadata)
    ensures metadata.issuer == run.First().instances[home].cache.provider.metadata.issuer
    ensures home in run.Last().instances && run.Last().instances[home].client == run.First().instances[home].client
  {
    var l, n := GivenBefore(run, |run.events|, c, codecs, parseDate);
    InstancesStay(run, |run.events|, codecs, parseDate);
    InstanceAt(run, |run.events|, home, codecs, parseDate);
  }

  /** Whatever the metadata caches do, a stored request whose way through the store is undisturbed is exchanged as
      soon as the refresh of its instance does not report an error, if the response comes in time and names the
      issuer that the instance was built with, or none where the provider does not promise to. */
  lemma StoredRequestIsExchanged(run: Run, history: seq<Flow.Event>, p: nat, waiting: seq<Flow.Event>, c: nat,
                                 query: seq<byte>, taken: seq<Flow.Event>, bound: seq<Flow.Event>, home: nat,
                                 metadata: ProviderMetadata, response: Callback.AuthorizationResponse,
                                 endpointQuery: seq<(string, string)>, redirectUri: string, scope: string,
                                 state: string, nonce: string, random: string, calls: seq<Call>, s256: Challenge,
                                 created: Time.SystemTime, pending: PendingAuthRequest, codecs: Flow.Codecs,
                                 parseDate: CachePolicy.DateParser)
    requires IsRun(run, codecs, parseDate) && Fresh(run.First())
    requires FlowEvents(run, codecs, parseDate) == history + Delivery.ToFinish(p, waiting, c, query, taken, bound)
    requires Flow.ValidRun(Flow.INITIAL, history, codecs)
    requires var s := Flow.Final(Flow.INITIAL, history, codecs);
      && Delivery.Undisturbed(s, p, waiting, c, query, taken, bound, codecs)
      && codecs.read(s.puts[p].raw) == Some(pending)
    requires 0 <= run.Last().shared.wall - created <= DEFAULT_TTL
    requires c in run.Last().tasks && run.Last().tasks[c].home == home && home in run.First().instances
    requires var outcome := run.Last().tasks[c].outcome; outcome.Some? && MetadataOf(outcome.value) == Some(metadata)
    requires var Instance(client, cache) := run.First().instances[home];
      && Delivery.MadeBy(client, endpointQuery, redirectUri, scope, state, nonce, random, calls, s256, created, pending)
      && TokenRequest.FromMetadata(metadata.tokenEndpointAuthMethods, client.clientSecret.Some?).Ok?
      && (if response.iss.Some? then response.iss.value == cache.provider.metadata.issuer
          else !metadata.issParameterSupported)
    requires Callback.ParseResponse(query) == Ok(response) && response.Success? && response.state == state
    ensures
      var s := Flow.Final(Flow.INITIAL, history, codecs);
      Sends(run.Last(), c, |s.commits|, response, pending,
            Flow.Final(s, Delivery.ToCheck(p, waiting, c, query, taken), codecs).clock, metadata, codecs, parseDate)
  {
    var s, end := Flow.Final(Flow.INITIAL, history, codecs), run.Last();
    var client := run.First().instances[home].client;
    FlowRun(run, codecs, parseDate);
    Delivery.RunSplits(Flow.INITIAL, history, Delivery.ToFinish(p, waiting, c, query, taken, bound), codecs);
    OutcomeHasIssuer(run, c, home, metadata, codecs, parseDate);
    Delivery.StoredRequestIsExchanged(endpointQuery, redirectUri, scope, state, nonce, random, calls, s256, created,
                                      pending, client, metadata, history, p, waiting, c, query, taken, bound, response,
                                      codecs);
    FlowSends(end, c, home, metadata, |s.commits|, response, pending,
              Flow.Final(s, Delivery.ToCheck(p, waiting, c, query, taken), codecs).clock, codecs, parseDate);
  }
}
