/** A stored authorization request reaches the token endpoint (src/client.rs, src/transport/kv.rs).

    The path of one request through a run in which puts, takes and completions of others go on all the time. */
module Delivery {
  import opened Wrappers
  import opened Time
  import opened Utf8
  import opened Callback
  import opened Metadata
  import opened KvStore
  import opened Authorize
  import opened TokenRequest
  import opened Completion

  /** The key that a completion takes, if its query parses. */
  ghost function TakenBy(query: seq<byte>): Option<string> {
    match ParseResponse(query)
    case Ok(response) => Some(KeyFor(response.state))
    case Err(_) => None
  }

  /** The event does not take the key. */
  ghost predicate Leaves(e: Event, key: string) {
    match e
    case ForeignTake(taken) => taken != key
    case StartCompletion(_, query) => TakenBy(query) != Some(key)
    case _ => true
  }

  /** The event is not a step of that completion. */
  predicate Spares(e: Event, c: nat) {
    match e
    case StartCompletion(d, _) => d != c
    case CheckEntry(d) => d != c
    case Finish(d, _, _) => d != c
    case _ => true
  }

  /** Puts read the clock before they reach the store. */
  ghost predicate PutsSampled(s: State) {
    forall p :: p in s.puts ==> s.puts[p].now <= s.clock
  }

  lemma StepKeepsSampled(s: State, e: Event, codecs: Codecs)
    requires PutsSampled(s) && Enabled(s, e)
    ensures PutsSampled(Apply(s, e, codecs)) && s.clock <= Apply(s, e, codecs).clock
  {
  }

  lemma {:induction false} PutsStaySampled(s: State, events: seq<Event>, codecs: Codecs)
    requires PutsSampled(s) && ValidRun(s, events, codecs)
    ensures PutsSampled(Final(s, events, codecs)) && s.clock <= Final(s, events, codecs).clock
    decreases |events|
  {
    if events == [] {
    } else {
      StepKeepsSampled(s, events[0], codecs);
      PutsStaySampled(Apply(s, events[0], codecs), events[1..], codecs);
    }
  }

  ghost predicate StillStored(s: State, key: string, entry: Entry<Tagged>) {
    key in s.entries && s.entries[key] == entry
  }

  /** Pruning by other puts and takes of other keys leave an unexpired entry alone. */
  lemma EntryStays(s: State, e: Event, key: string, entry: Entry<Tagged>, codecs: Codecs)
    requires PutsSampled(s) && Enabled(s, e) && Leaves(e, key)
    requires StillStored(s, key, entry) && s.clock < entry.expiresAt
    ensures StillStored(Apply(s, e, codecs), key, entry)
  {
  }

  lemma {:induction false} EntryStaysOverRun(s: State, events: seq<Event>, key: string, entry: Entry<Tagged>,
                                             codecs: Codecs)
    requires PutsSampled(s) && ValidRun(s, events, codecs)
    requires forall e :: e in events ==> Leaves(e, key)
    requires StillStored(s, key, entry) && Final(s, events, codecs).clock < entry.expiresAt
    ensures StillStored(Final(s, events, codecs), key, entry)
    decreases |events|
  {
    if events == [] {
    } else {
      assert events[0] in events && forall e :: e in events[1..] ==> e in events;
      PutsStaySampled(s, events, codecs);
      StepKeepsSampled(s, events[0], codecs);
      EntryStays(s, events[0], key, entry, codecs);
      EntryStaysOverRun(Apply(s, events[0], codecs), events[1..], key, entry, codecs);
    }
  }

  lemma {:induction false} CompletionStays(s: State, events: seq<Event>, c: nat, codecs: Codecs)
    requires ValidRun(s, events, codecs) && c in s.completions
    requires forall e :: e in events ==> Spares(e, c)
    ensures var t := Final(s, events, codecs); c in t.completions && t.completions[c] == s.completions[c]
    decreases |events|
  {
    if events == [] {
    } else {
      assert events[0] in events && forall e :: e in events[1..] ==> e in events;
      CompletionStays(Apply(s, events[0], codecs), events[1..], c, codecs);
    }
  }

  lemma {:induction false} RunSplits(s: State, a: seq<Event>, b: seq<Event>, codecs: Codecs)
    requires ValidRun(s, a + b, codecs)
    ensures ValidRun(s, a, codecs) && ValidRun(Final(s, a, codecs), b, codecs)
    ensures Final(s, a + b, codecs) == Final(Final(s, a, codecs), b, codecs)
    decreases |a|
  {
    if a == [] {
      assert a + b == b;
    } else {
      assert (a + b)[1..] == a[1..] + b;
      RunSplits(Apply(s, a[0], codecs), a[1..], b, codecs);
    }
  }

  /** The last event of a run. */
  lemma RunEnds(s: State, a: seq<Event>, e: Event, codecs: Codecs)
    requires ValidRun(s, a + [e], codecs)
    ensures ValidRun(s, a, codecs) && Enabled(Final(s, a, codecs), e)
    ensures Final(s, a + [e], codecs) == Apply(Final(s, a, codecs), e, codecs)
  {
    RunSplits(s, a, [e], codecs);
    assert [e][1..] == [];
  }

  // The stages of the way

  lemma CommitStores(s: State, p: nat, codecs: Codecs)
    requires Enabled(s, CommitPut(p))
    requires s.puts[p].key !in Prune(s.entries, s.puts[p].now)
    ensures var put := s.puts[p];
      StillStored(Apply(s, CommitPut(p), codecs), put.key, Entry(Tagged(|s.commits|, put.raw), put.expiresAt))
  {
  }

  lemma StartTakes(s: State, c: nat, query: seq<byte>, response: AuthorizationResponse, entry: Entry<Tagged>,
                   codecs: Codecs)
    requires Enabled(s, StartCompletion(c, query)) && ParseResponse(query) == Ok(response)
    requires StillStored(s, KeyFor(response.state), entry)
    ensures var t := Apply(s, StartCompletion(c, query), codecs);
      c in t.completions && t.completions[c] == Removed(response, Some(entry))
  {
  }

  lemma CheckBinds(s: State, c: nat, response: AuthorizationResponse, entry: Entry<Tagged>, pending: PendingAuthRequest,
                   codecs: Codecs)
    requires c in s.completions && s.completions[c] == Removed(response, Some(entry))
    requires s.clock < entry.expiresAt && codecs.read(entry.value.raw) == Some(pending)
    ensures var t := Apply(s, CheckEntry(c), codecs);
      c in t.completions && t.completions[c] == Bound(response, entry.value.id, pending, s.clock)
  {
  }

  /** A put, events, a completion that starts, and more events. */
  function ToCheck(p: nat, waiting: seq<Event>, c: nat, query: seq<byte>, taken: seq<Event>): seq<Event> {
    [CommitPut(p)] + waiting + [StartCompletion(c, query)] + taken
  }

  lemma TakenByCheck(s: State, p: nat, waiting: seq<Event>, c: nat, query: seq<byte>, taken: seq<Event>,
                     response: AuthorizationResponse, codecs: Codecs)
    requires PutsSampled(s) && ValidRun(s, ToCheck(p, waiting, c, query, taken), codecs)
    requires p in s.puts && s.puts[p].key !in Prune(s.entries, s.puts[p].now)
    requires ParseResponse(query) == Ok(response) && KeyFor(response.state) == s.puts[p].key
    requires forall e :: e in waiting ==> Leaves(e, s.puts[p].key)
    requires forall e :: e in taken ==> Spares(e, c)
    requires Final(s, ToCheck(p, waiting, c, query, taken), codecs).clock < s.puts[p].expiresAt
    ensures var t := Final(s, ToCheck(p, waiting, c, query, taken), codecs);
      && c in t.completions
      && t.completions[c] == Removed(response, Some(Entry(Tagged(|s.commits|, s.puts[p].raw), s.puts[p].expiresAt)))
  {
    var put := s.puts[p];
    var entry := Entry(Tagged(|s.commits|, put.raw), put.expiresAt);
    var head := [CommitPut(p)];
    RunSplits(s, head + waiting + [StartCompletion(c, query)], taken, codecs);
    RunEnds(s, head + waiting, StartCompletion(c, query), codecs);
    RunSplits(s, head, waiting, codecs);
    assert head == [] + head;
    RunEnds(s, [], CommitPut(p), codecs);
    var s1 := Apply(s, CommitPut(p), codecs);
    var s2 := Final(s1, waiting, codecs);
    var s3 := Apply(s2, StartCompletion(c, query), codecs);
    StepKeepsSampled(s, CommitPut(p), codecs);
    PutsStaySampled(s1, waiting, codecs);
    StepKeepsSampled(s2, StartCompletion(c, query), codecs);
    PutsStaySampled(s3, taken, codecs);
    CommitStores(s, p, codecs);
    EntryStaysOverRun(s1, waiting, put.key, entry, codecs);
    StartTakes(s2, c, query, response, entry, codecs);
    CompletionStays(s3, taken, c, codecs);
  }

  /** The same, then the check of the entry and more events. */
  function ToFinish(p: nat, waiting: seq<Event>, c: nat, query: seq<byte>, taken: seq<Event>, bound: seq<Event>)
    : seq<Event>
  {
    ToCheck(p, waiting, c, query, taken) + [CheckEntry(c)] + bound
  }

  /** A put creates its entry, no other take of its key comes before that of the completion, which checks the entry
      before it expires and goes on from there. */
  ghost predicate Undisturbed(s: State, p: nat, waiting: seq<Event>, c: nat, query: seq<byte>, taken: seq<Event>,
                              bound: seq<Event>, codecs: Codecs)
  {
    && p in s.puts && s.puts[p].key !in Prune(s.entries, s.puts[p].now)
    && TakenBy(query) == Some(s.puts[p].key)
    && (forall e :: e in waiting ==> Leaves(e, s.puts[p].key))
    && (forall e :: e in taken ==> Spares(e, c))
    && (forall e :: e in bound ==> Spares(e, c))
    && ValidRun(s, ToCheck(p, waiting, c, query, taken), codecs)
    && Final(s, ToCheck(p, waiting, c, query, taken), codecs).clock < s.puts[p].expiresAt
    && ValidRun(s, ToFinish(p, waiting, c, query, taken, bound), codecs)
  }

  /** What such a put stored is what the completion goes on with. */
  lemma CommittedIsBound(history: seq<Event>, p: nat, waiting: seq<Event>, c: nat, query: seq<byte>, taken: seq<Event>,
                         bound: seq<Event>, response: AuthorizationResponse, pending: PendingAuthRequest,
                         codecs: Codecs)
    requires ValidRun(INITIAL, history, codecs)
    requires Undisturbed(Final(INITIAL, history, codecs), p, waiting, c, query, taken, bound, codecs)
    requires codecs.read(Final(INITIAL, history, codecs).puts[p].raw) == Some(pending)
    requires ParseResponse(query) == Ok(response)
    ensures var s := Final(INITIAL, history, codecs);
      var t := Final(s, ToFinish(p, waiting, c, query, taken, bound), codecs);
      && c in t.completions
      && t.completions[c]
         == Bound(response, |s.commits|, pending, Final(s, ToCheck(p, waiting, c, query, taken), codecs).clock)
  {
    var s := Final(INITIAL, history, codecs);
    var checked := ToCheck(p, waiting, c, query, taken);
    PutsStaySampled(INITIAL, history, codecs);
    TakenByCheck(s, p, waiting, c, query, taken, response, codecs);
    RunSplits(s, checked + [CheckEntry(c)], bound, codecs);
    RunEnds(s, checked, CheckEntry(c), codecs);
    var entry := Entry(Tagged(|s.commits|, s.puts[p].raw), s.puts[p].expiresAt);
    CheckBinds(Final(s, checked, codecs), c, response, entry, pending, codecs);
    CompletionStays(Apply(Final(s, checked, codecs), CheckEntry(c), codecs), bound, c, codecs);
  }

  /** The next step of the completion sends the token request for that put. */
  ghost predicate Sends(t: State, c: nat, client: ClientConfig, metadata: ProviderMetadata, id: nat,
                        response: AuthorizationResponse, pending: PendingAuthRequest, checked: Instant, codecs: Codecs)
  {
    var finish := Finish(c, client, Some(metadata));
    var request := CompleteFromPending(client, metadata, response, pending, t.wall, codecs.base64);
    && Enabled(t, finish)
    && request.Ok?
    && var sent := Exchange(id, client, response, pending, checked, metadata, t.wall, request.value);
       Apply(t, finish, codecs).exchanges == t.exchanges + [sent]
  }

  lemma BoundIsSent(t: State, c: nat, client: ClientConfig, metadata: ProviderMetadata, id: nat,
                    response: AuthorizationResponse, pending: PendingAuthRequest, checked: Instant,
                    request: HttpRequest, codecs: Codecs)
    requires c in t.completions && t.completions[c] == Bound(response, id, pending, checked)
    requires CompleteFromPending(client, metadata, response, pending, t.wall, codecs.base64) == Ok(request)
    ensures Sent(t, Finish(c, client, Some(metadata)), codecs)
         == Some(Exchange(id, client, response, pending, checked, metadata, t.wall, request))
  {
  }

  lemma BoundSends(t: State, c: nat, client: ClientConfig, metadata: ProviderMetadata, id: nat,
                   response: AuthorizationResponse, pending: PendingAuthRequest, checked: Instant, codecs: Codecs)
    requires c in t.completions && t.completions[c] == Bound(response, id, pending, checked)
    requires CompleteFromPending(client, metadata, response, pending, t.wall, codecs.base64).Ok?
    ensures Sends(t, c, client, metadata, id, response, pending, checked, codecs)
  {
    var request := CompleteFromPending(client, metadata, response, pending, t.wall, codecs.base64).value;
    BoundIsSent(t, c, client, metadata, id, response, pending, checked, request, codecs);
    OnlyFinishSends(t, Finish(c, client, Some(metadata)), codecs);
  }

  /** What a builder of the client makes, whatever is called on it. */
  ghost predicate MadeBy(client: ClientConfig, endpointQuery: seq<(string, string)>, redirectUri: string,
                         scope: string, state: string, nonce: string, random: string, calls: seq<Call>,
                         s256: Challenge, created: SystemTime, pending: PendingAuthRequest)
  {
    var start := Start(endpointQuery, client.clientId, client.clientSecret.Some?, redirectUri, scope, state, nonce,
                       random, s256);
    start.Ok? && pending == ToPending(Authorize.Built(CalledAll(start.value, calls, s256)), created)
  }

  /** What a builder made and a put stored, whatever else goes on in the store, is exchanged, if a successful response
      from an acceptable issuer of a supported client is finished in time. */
  lemma StoredRequestIsExchanged(endpointQuery: seq<(string, string)>, redirectUri: string, scope: string,
                                 state: string, nonce: string, random: string, calls: seq<Call>, s256: Challenge,
                                 created: SystemTime, pending: PendingAuthRequest, client: ClientConfig,
                                 metadata: ProviderMetadata, history: seq<Event>, p: nat, waiting: seq<Event>, c: nat,
                                 query: seq<byte>, taken: seq<Event>, bound: seq<Event>,
                                 response: AuthorizationResponse, codecs: Codecs)
    requires MadeBy(client, endpointQuery, redirectUri, scope, state, nonce, random, calls, s256, created, pending)
    requires ValidRun(INITIAL, history, codecs)
    requires Undisturbed(Final(INITIAL, history, codecs), p, waiting, c, query, taken, bound, codecs)
    requires var s := Final(INITIAL, history, codecs);
      && codecs.read(s.puts[p].raw) == Some(pending)
      && 0 <= Final(s, ToFinish(p, waiting, c, query, taken, bound), codecs).wall - created <= DEFAULT_TTL
    requires ParseResponse(query) == Ok(response) && response.Success? && response.state == state
    requires IssuerAcceptable(metadata, response)
    requires FromMetadata(metadata.tokenEndpointAuthMethods, client.clientSecret.Some?).Ok?
    ensures
      var s := Final(INITIAL, history, codecs);
      Sends(Final(s, ToFinish(p, waiting, c, query, taken, bound), codecs), c, client, metadata, |s.commits|, response,
            pending, Final(s, ToCheck(p, waiting, c, query, taken), codecs).clock, codecs)
  {
    var s := Final(INITIAL, history, codecs);
    var t := Final(s, ToFinish(p, waiting, c, query, taken, bound), codecs);
    CommittedIsBound(history, p, waiting, c, query, taken, bound, response, pending, codecs);
    NeverStranded(endpointQuery, redirectUri, scope, state, nonce, random, calls, s256, created, client, metadata,
                  query, response, t.wall, codecs.base64);
    BoundSends(t, c, client, metadata, |s.commits|, response, pending,
               Final(s, ToCheck(p, waiting, c, query, taken), codecs).clock, codecs);
  }
}
