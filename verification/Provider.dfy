/** The provider snapshot of a client and the atomic sections that change it (src/client.rs). */
module Provider {
  import opened Wrappers
  import opened Time
  import opened CachePolicy
  import opened Metadata

  const DEFAULT_REFRESH_INTERVAL: Duration := 60 * 60 * SECOND
  const DEFAULT_MINIMUM_CACHE_DURATION: Duration := 60 * SECOND
  const DEFAULT_RETAIN_ON_ERROR: Duration := 24 * 60 * 60 * SECOND
  const RETRY_INTERVAL: Duration := 30 * SECOND

  /** A JWKS cache, known by its identity and the URL it was created for. */
  datatype JwksHandle = JwksHandle(id: nat, url: string)

  datatype ProviderState = ProviderState(
    metadata: ProviderMetadata,
    jwks: JwksHandle,
    refreshAfter: Option<Instant>,
    staleUntil: Option<Instant>,
    retryAfter: Option<Instant>,
    staleOnError: bool,
    refreshInterval: Option<Duration>,
    minimumCacheDuration: Duration,
    retainOnError: Duration)

  predicate NeedsRefresh(p: ProviderState, now: Instant) {
    && (p.refreshAfter.Some? && p.refreshAfter.value <= now)
    && (p.retryAfter.Some? ==> p.retryAfter.value <= now)
  }

  /** An unrepresentable deadline is immediately stale. */
  function RefreshDeadline(now: Instant, interval: Duration): Instant {
    CheckedAdd(now, interval).GetOr(now)
  }

  /** An unrepresentable stale deadline permits no stale use. */
  function StaleDeadline(refreshAfter: Instant, staleOnError: bool, retain: Duration): Option<Instant> {
    if !staleOnError || retain == 0 then None else CheckedAdd(refreshAfter, retain)
  }

  /** Refresh deadline, stale deadline and stale permission for a fresh response. */
  function CacheDeadlines(policy: Policy, retain: Duration, now: Instant): (Instant, Option<Instant>, bool) {
    match policy
    case CacheFor(lifetime, mustRevalidate) =>
      var refreshAfter := RefreshDeadline(now, lifetime);
      (refreshAfter, StaleDeadline(refreshAfter, !mustRevalidate, retain), !mustRevalidate)
    case Revalidate => (now, None, false)
    case DoNotStore => (now, None, false)
  }

  // Settings

  datatype Settings = Settings(interval: Option<Duration>, minimum: Duration, retain: Duration)

  datatype SetterCall = SetInterval(d: Duration) | SetMinimum(d: Duration) | SetRetain(d: Duration) | Disable

  function SettingsOf(p: ProviderState): Settings {
    Settings(p.refreshInterval, p.minimumCacheDuration, p.retainOnError)
  }

  function Configure(settings: Settings, call: SetterCall): Settings {
    match call
    case SetInterval(d) => settings.(interval := Some(d))
    case SetMinimum(d) => settings.(minimum := d)
    case SetRetain(d) => settings.(retain := d)
    case Disable => settings.(interval := None)
  }

  /** The snapshot after a setter that reads the clock at `now`. */
  function AfterSetter(p: ProviderState, call: SetterCall, now: Instant): ProviderState {
    match call
    case SetInterval(interval) =>
      var refreshAfter := RefreshDeadline(now, Max(interval, p.minimumCacheDuration));
      p.(refreshInterval := Some(interval), refreshAfter := Some(refreshAfter),
         staleUntil := StaleDeadline(refreshAfter, p.staleOnError, p.retainOnError), retryAfter := None)
    case SetMinimum(minimum) =>
      var q := p.(minimumCacheDuration := minimum, retryAfter := None);
      var least := RefreshDeadline(now, minimum);
      if p.refreshInterval.None? || (p.refreshAfter.Some? && p.refreshAfter.value >= least) then q
      else q.(refreshAfter := Some(least), staleUntil := StaleDeadline(least, p.staleOnError, p.retainOnError))
    case SetRetain(retain) =>
      p.(retainOnError := retain, retryAfter := None,
         staleUntil := if p.refreshAfter.None? then None
                       else StaleDeadline(p.refreshAfter.value, p.staleOnError, retain))
    case Disable =>
      p.(refreshInterval := None, refreshAfter := None, staleUntil := None, retryAfter := None)
  }

  /** The snapshot that replaces `live` when a complete response is published. */
  function AfterPublish(live: ProviderState, discovered: Discovered, jwks: JwksHandle, parseDate: DateParser,
                        wall: SystemTime, now: Instant): ProviderState {
    var policy := discovered.Policy(live.refreshInterval.GetOr(DEFAULT_REFRESH_INTERVAL),
                                    live.minimumCacheDuration, parseDate, wall);
    var (refreshAfter, staleUntil, staleOnError) := CacheDeadlines(policy, live.retainOnError, now);
    var enabled := live.refreshInterval.Some?;
    live.(metadata := discovered.metadata, jwks := jwks,
          refreshAfter := if enabled then Some(refreshAfter) else None,
          staleUntil := if enabled then staleUntil else None,
          retryAfter := None, staleOnError := staleOnError)
  }

  /** Stale metadata may be served to a caller that failed to refresh at `now`. */
  predicate MayServeStale(p: ProviderState, now: Instant) {
    p.staleUntil.Some? && now < p.staleUntil.value
  }

  function AfterError(p: ProviderState, now: Instant): ProviderState {
    if !MayServeStale(p, now) then p
    else
      var retry := CheckedAdd(now, RETRY_INTERVAL);
      p.(retryAfter := Some(if retry.Some? then Min(retry.value, p.staleUntil.value) else p.staleUntil.value))
  }

  /** The state of a client built without discovery: automatic refresh starts disabled. */
  function FromParts(metadata: ProviderMetadata, jwksId: nat): Result<ProviderState, DiscoveryError> {
    if !metadata.Valid() then Err(InvalidMetadata)
    else Ok(ProviderState(metadata, JwksHandle(jwksId, metadata.jwksUri), None, None, None, true, None,
                          DEFAULT_MINIMUM_CACHE_DURATION, DEFAULT_RETAIN_ON_ERROR))
  }

  /** The state of a client built from a discovery response. */
  function FromDiscovery(discovered: Discovered, jwksId: nat, parseDate: DateParser, wall: SystemTime, now: Instant)
    : ProviderState
  {
    var policy := discovered.Policy(DEFAULT_REFRESH_INTERVAL, DEFAULT_MINIMUM_CACHE_DURATION, parseDate, wall);
    var (refreshAfter, staleUntil, staleOnError) := CacheDeadlines(policy, DEFAULT_RETAIN_ON_ERROR, now);
    ProviderState(discovered.metadata, JwksHandle(jwksId, discovered.metadata.jwksUri), Some(refreshAfter), staleUntil,
                  None, staleOnError, Some(DEFAULT_REFRESH_INTERVAL), DEFAULT_MINIMUM_CACHE_DURATION,
                  DEFAULT_RETAIN_ON_ERROR)
  }

  /** The client holds one snapshot behind a lock; each method is one write section. */
  class Client {
    var provider: ProviderState

    constructor (provider: ProviderState)
      ensures this.provider == provider
    {
      this.provider := provider;
    }

    method SetMetadataRefreshInterval(interval: Duration, now: Instant)
      modifies this
      ensures provider == AfterSetter(old(provider), SetInterval(interval), now)
    {
      provider := provider.(refreshInterval := Some(interval));
      var refreshAfter := RefreshDeadline(now, Max(interval, provider.minimumCacheDuration));
      provider := provider.(refreshAfter := Some(refreshAfter));
      provider := provider.(staleUntil := StaleDeadline(refreshAfter, provider.staleOnError, provider.retainOnError));
      provider := provider.(retryAfter := None);
    }

    method SetMetadataMinimumCacheDuration(duration: Duration, now: Instant)
      modifies this
      ensures provider == AfterSetter(old(provider), SetMinimum(duration), now)
    {
      provider := provider.(minimumCacheDuration := duration);
      provider := provider.(retryAfter := None);
      if provider.refreshInterval.None? {
        return;
      }
      var minimumRefreshAfter := RefreshDeadline(now, duration);
      if provider.refreshAfter.None? || provider.refreshAfter.value < minimumRefreshAfter {
        provider := provider.(refreshAfter := Some(minimumRefreshAfter));
        provider := provider.(staleUntil :=
          StaleDeadline(minimumRefreshAfter, provider.staleOnError, provider.retainOnError));
      }
    }

    method SetMetadataRetainOnError(duration: Duration)
      modifies this
      ensures forall now: Instant :: provider == AfterSetter(old(provider), SetRetain(duration), now)
    {
      provider := provider.(retainOnError := duration);
      var staleUntil := None;
      if provider.refreshAfter.Some? {
        staleUntil := StaleDeadline(provider.refreshAfter.value, provider.staleOnError, duration);
      }
      provider := provider.(staleUntil := staleUntil);
      provider := provider.(retryAfter := None);
    }

    method DisableMetadataRefresh()
      modifies this
      ensures forall now: Instant :: provider == AfterSetter(old(provider), Disable, now)
    {
      provider := provider.(refreshInterval := None);
      provider := provider.(refreshAfter := None);
      provider := provider.(staleUntil := None);
      provider := provider.(retryAfter := None);
    }

    /** Returns the retained metadata, or `None` to report the error. */
    method MetadataAfterRefreshError(now: Instant) returns (r: Option<ProviderMetadata>)
      modifies this
      ensures provider == AfterError(old(provider), now)
      ensures r == if MayServeStale(old(provider), now) then Some(old(provider).metadata) else None
    {
      if provider.staleUntil.None? || provider.staleUntil.value <= now {
        return None;
      }
      var staleUntil := provider.staleUntil.value;
      var retryAfter := CheckedAdd(now, RETRY_INTERVAL);
      provider := provider.(retryAfter :=
        Some(if retryAfter.None? then staleUntil else Min(retryAfter.value, staleUntil)));
      return Some(provider.metadata);
    }

    /** The last section of a refresh: the settings are read again, under the lock. */
    method Publish(discovered: Discovered, jwks: JwksHandle, parseDate: DateParser, wall: SystemTime, now: Instant)
      returns (metadata: ProviderMetadata)
      modifies this
      ensures provider == AfterPublish(old(provider), discovered, jwks, parseDate, wall, now)
      ensures metadata == provider.metadata
    {
      var interval := provider.refreshInterval;
      var minimum := provider.minimumCacheDuration;
      var retain := provider.retainOnError;
      var defaultLifetime := interval.GetOr(DEFAULT_REFRESH_INTERVAL);
      var headerPolicy := PolicyFromHeaders(discovered.headers, defaultLifetime, parseDate, wall);
      var policy := ApplyMinimum(headerPolicy, minimum);
      var (policyRefreshAfter, policyStaleUntil, staleOnError) := CacheDeadlines(policy, retain, now);
      var refreshAfter, staleUntil := None, None;
      if interval.Some? {
        refreshAfter, staleUntil := Some(policyRefreshAfter), policyStaleUntil;
      }
      metadata := discovered.metadata;
      provider := ProviderState(metadata, jwks, refreshAfter, staleUntil, None, staleOnError, interval, minimum,
                                retain);
    }
  }

  // What every section keeps

  /** The deadlines agree with the settings, and the keys with the metadata. */
  ghost predicate Coherent(p: ProviderState) {
    && (p.refreshInterval.Some? <==> p.refreshAfter.Some?)
    && p.staleUntil == (if p.refreshAfter.None? then None
                        else StaleDeadline(p.refreshAfter.value, p.staleOnError, p.retainOnError))
    && (p.retryAfter.Some? ==> p.staleUntil.Some? && p.retryAfter.value <= p.staleUntil.value)
    && p.jwks.url == p.metadata.jwksUri
    && p.metadata.Valid()
  }

  /** A new client is coherent; without discovery it is exempt from refreshing, and after discovery it is
      fresh for what the response allows, but at least the default minimum. */
  lemma InitiallyCoherent(discovered: Discovered, jwksId: nat, parseDate: DateParser, wall: SystemTime, now: Instant)
    requires discovered.metadata.Valid()
    ensures var parts := FromParts(discovered.metadata, jwksId).value;
      && Coherent(parts) && !NeedsRefresh(parts, now)
      && SettingsOf(parts) == Settings(None, 60 * SECOND, 24 * 60 * 60 * SECOND)
      && parts.metadata == discovered.metadata && parts.staleOnError
    ensures var p := FromDiscovery(discovered, jwksId, parseDate, wall, now);
      && Coherent(p)
      && p.refreshAfter == Some(RefreshDeadline(now,
           Max(FreshFor(PolicyOf(discovered.headers, DEFAULT_REFRESH_INTERVAL, parseDate, wall)),
               DEFAULT_MINIMUM_CACHE_DURATION)))
      && (p.staleOnError <==> !Strict(discovered.headers))
      && SettingsOf(p) == Settings(Some(60 * 60 * SECOND), 60 * SECOND, 24 * 60 * 60 * SECOND)
      && p.metadata == discovered.metadata
  {
    MinimumIsFloor(PolicyOf(discovered.headers, DEFAULT_REFRESH_INTERVAL, parseDate, wall),
                   DEFAULT_MINIMUM_CACHE_DURATION);
    StaleUseIffNotStrict(discovered.headers, DEFAULT_REFRESH_INTERVAL, DEFAULT_MINIMUM_CACHE_DURATION, parseDate, wall);
  }

  lemma SetterKeepsCoherent(p: ProviderState, call: SetterCall, now: Instant)
    requires Coherent(p)
    ensures Coherent(AfterSetter(p, call, now))
    ensures SettingsOf(AfterSetter(p, call, now)) == Configure(SettingsOf(p), call)
    ensures AfterSetter(p, call, now).metadata == p.metadata && AfterSetter(p, call, now).jwks == p.jwks
    ensures AfterSetter(p, call, now).staleOnError == p.staleOnError
  {
  }

  lemma PublishKeepsCoherent(p: ProviderState, discovered: Discovered, jwks: JwksHandle, parseDate: DateParser,
                             wall: SystemTime, now: Instant)
    requires Coherent(p) && discovered.metadata.Valid() && jwks.url == discovered.metadata.jwksUri
    ensures Coherent(AfterPublish(p, discovered, jwks, parseDate, wall, now))
    ensures SettingsOf(AfterPublish(p, discovered, jwks, parseDate, wall, now)) == SettingsOf(p)
  {
  }

  /** The larger of the freshness of the response and the minimum. */
  function ScheduledAfter(p: ProviderState, headers: seq<Header>, parseDate: DateParser, wall: SystemTime): Duration {
    Max(FreshFor(PolicyOf(headers, p.refreshInterval.GetOr(DEFAULT_REFRESH_INTERVAL), parseDate, wall)),
        p.minimumCacheDuration)
  }

  /** The deadlines of every policy, from its freshness and its stale permission. */
  lemma PolicyDeadlines(policy: Policy, retain: Duration, now: Instant)
    ensures var refreshAfter := RefreshDeadline(now, FreshFor(policy));
      CacheDeadlines(policy, retain, now)
      == (refreshAfter, StaleDeadline(refreshAfter, PermitsStale(policy), retain), PermitsStale(policy))
  {
  }

  /** What a publication computes from the header text and the settings of the snapshot it replaces. */
  lemma PublicationSchedule(p: ProviderState, discovered: Discovered, jwks: JwksHandle, parseDate: DateParser,
                            wall: SystemTime, now: Instant)
    ensures var after := AfterPublish(p, discovered, jwks, parseDate, wall, now);
      && SettingsOf(after) == SettingsOf(p)
      && after.retryAfter == None
      && (after.staleOnError <==> !Strict(discovered.headers))
      && (p.refreshInterval.None? ==> after.refreshAfter == None && after.staleUntil == None)
      && (p.refreshInterval.Some? ==>
            && after.refreshAfter == Some(RefreshDeadline(now, ScheduledAfter(p, discovered.headers, parseDate, wall)))
            && after.staleUntil == if Strict(discovered.headers) || p.retainOnError == 0 then None
                                   else CheckedAdd(after.refreshAfter.value, p.retainOnError))
  {
    var interval := p.refreshInterval.GetOr(DEFAULT_REFRESH_INTERVAL);
    PolicyDeadlines(discovered.Policy(interval, p.minimumCacheDuration, parseDate, wall), p.retainOnError, now);
    StaleUseIffNotStrict(discovered.headers, interval, p.minimumCacheDuration, parseDate, wall);
    MinimumIsFloor(PolicyOf(discovered.headers, interval, parseDate, wall), p.minimumCacheDuration);
  }

  lemma ErrorKeepsCoherent(p: ProviderState, now: Instant)
    requires Coherent(p)
    ensures Coherent(AfterError(p, now))
    ensures AfterError(p, now) == p.(retryAfter := AfterError(p, now).retryAfter)
  {
  }

  // When the next attempt is due, and how long stale use is permitted

  /** After a failure that served the retained snapshot, the next attempt is due after thirty seconds, or at the end of
      the stale window if that is earlier: neither before nor after. */
  lemma RetryIsDue(p: ProviderState, sampled: Instant, u: Instant)
    requires MayServeStale(p, sampled) && p.refreshAfter.Some?
    ensures NeedsRefresh(AfterError(p, sampled), u)
       <==> p.refreshAfter.value <= u && Min(sampled + 30 * SECOND, p.staleUntil.value) <= u
  {
  }

  /** The deadline that a setter leaves: now plus what it asks for, or now if that is unrepresentable; the least change
      keeps a later one, and the others leave it alone. */
  function DueAfter(p: ProviderState, call: SetterCall, now: Instant): Option<Instant> {
    match call
    case SetInterval(d) => Some(RefreshDeadline(now, Max(d, p.minimumCacheDuration)))
    case SetMinimum(d) =>
      if p.refreshAfter.None? then None else Some(Max(p.refreshAfter.value, RefreshDeadline(now, d)))
    case SetRetain(_) => p.refreshAfter
    case Disable => None
  }

  /** After a setter, an attempt is due exactly from that deadline on, however a failure had put it off, and stale use
      is permitted exactly up to the deadline plus the retention, if the response permits it at all. */
  lemma SetterDeadlines(p: ProviderState, call: SetterCall, now: Instant, u: Instant)
    requires Coherent(p)
    ensures var q, due := AfterSetter(p, call, now), DueAfter(p, call, now);
      && (NeedsRefresh(q, u) <==> due.Some? && due.value <= u)
      && (MayServeStale(q, u)
          <==> && due.Some? && p.staleOnError && due.value + q.retainOnError <= MAX_INSTANT
               && u < due.value + q.retainOnError && q.retainOnError > 0)
  {
  }
}
