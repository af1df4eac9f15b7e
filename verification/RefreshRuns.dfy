/** Interleavings of metadata refreshes, setters and the clock (src/client.rs).

    Every caller moves through the awaits of `refresh_metadata_if_stale` or `refresh_metadata`; between
    any two of its steps other callers, setters and the clock may move. Each event is one atomic section:
    a read or write of the snapshot under its lock, a reading of the clock, or an answer of the provider. */
module RefreshRuns {
  import opened Wrappers
  import opened Time
  import opened CachePolicy
  import opened Metadata
  import opened Provider

  type Caller = nat

  datatype Kind = Automatic | Forced

  datatype Pc =
    | Idle
    | Checking(snapshot: ProviderState)                 // cloned the snapshot, has not read the clock yet
    | Waiting(kind: Kind)                               // queued on the refresh lock
    | Holding(kind: Kind)                               // has the refresh lock
    | Rechecking(current: ProviderState)                // cloned the snapshot again, under the refresh lock
    | Fetching(kind: Kind, current: ProviderState)
    | FetchingKeys(kind: Kind, current: ProviderState, discovered: Discovered, jwks: JwksHandle)
    | Publishing(kind: Kind, current: ProviderState, discovered: Discovered, jwks: JwksHandle)
    | Failed                                            // an automatic refresh failed
    | Deferring(sampled: Instant)                       // and then read the clock

  datatype State = State(
    clock: Instant,
    provider: ProviderState,
    lock: Option<Caller>,
    pcs: map<Caller, Pc>,
    nextJwks: nat)

  datatype Event =
    | Tick(to: Instant)
    | Setter(call: SetterCall)
    | CloneSnapshot(c: Caller)
    | Check(c: Caller)
    | Force(c: Caller)
    | Acquire(c: Caller)
    | CloneUnderLock(c: Caller)
    | Recheck(c: Caller)
    | Answer(c: Caller, response: Option<Response>)
    | KeysAnswer(c: Caller, ok: bool)
    | Publish(c: Caller, wall: SystemTime)
    | SampleClock(c: Caller)
    | Defer(c: Caller)

  /** What a caller gets back. */
  datatype Outcome =
    | Served(snapshot: ProviderState, at: Instant)
    | Fetched(metadata: ProviderMetadata)
    | Reported

  function PcOf(s: State, c: Caller): Pc {
    if c in s.pcs then s.pcs[c] else Idle
  }

  predicate HoldsLock(pc: Pc) {
    !pc.Idle? && !pc.Checking? && !pc.Waiting?
  }

  function At(s: State, c: Caller, pc: Pc): State {
    s.(pcs := s.pcs[c := pc])
  }

  /** Returning drops the guard of the refresh lock. */
  function Return(s: State, c: Caller): State {
    s.(pcs := s.pcs[c := Idle], lock := None)
  }

  predicate Enabled(s: State, e: Event) {
    match e
    case Tick(to) => s.clock <= to
    case Setter(_) => true
    case CloneSnapshot(c) => PcOf(s, c).Idle?
    case Check(c) => PcOf(s, c).Checking?
    case Force(c) => PcOf(s, c).Idle?
    case Acquire(c) => PcOf(s, c).Waiting? && s.lock.None?
    case CloneUnderLock(c) => PcOf(s, c).Holding?
    case Recheck(c) => PcOf(s, c).Rechecking?
    case Answer(c, _) => PcOf(s, c).Fetching?
    case KeysAnswer(c, _) => PcOf(s, c).FetchingKeys?
    case Publish(c, _) => PcOf(s, c).Publishing?
    case SampleClock(c) => PcOf(s, c).Failed?
    case Defer(c) => PcOf(s, c).Deferring?
  }

  /** An automatic failure goes on to the error path; a forced one is reported at once. */
  function Fail(s: State, c: Caller, kind: Kind): State {
    if kind.Automatic? then At(s, c, Failed) else Return(s, c)
  }

  function Apply(s: State, e: Event, parseDate: DateParser): State
    requires Enabled(s, e)
  {
    match e
    case Tick(to) => s.(clock := to)
    case Setter(call) => s.(provider := AfterSetter(s.provider, call, s.clock))
    case CloneSnapshot(c) => At(s, c, Checking(s.provider))
    case Check(c) => At(s, c, if NeedsRefresh(PcOf(s, c).snapshot, s.clock) then Waiting(Automatic) else Idle)
    case Force(c) => At(s, c, Waiting(Forced))
    case Acquire(c) => At(s, c, Holding(PcOf(s, c).kind)).(lock := Some(c))
    case CloneUnderLock(c) =>
      At(s, c, if PcOf(s, c).kind.Automatic? then Rechecking(s.provider) else Fetching(Forced, s.provider))
    case Recheck(c) =>
      var current := PcOf(s, c).current;
      if NeedsRefresh(current, s.clock) then At(s, c, Fetching(Automatic, current)) else Return(s, c)
    case Answer(c, response) =>
      var Fetching(kind, current) := PcOf(s, c);
      (match Discover(current.metadata.issuer, response)
       case Err(_) => Fail(s, c, kind)
       case Ok(discovered) =>
         if discovered.metadata.jwksUri == current.metadata.jwksUri then
           At(s, c, Publishing(kind, current, discovered, current.jwks))
         else
           var jwks := JwksHandle(s.nextJwks, discovered.metadata.jwksUri);
           At(s, c, FetchingKeys(kind, current, discovered, jwks)).(nextJwks := s.nextJwks + 1))
    case KeysAnswer(c, ok) =>
      var FetchingKeys(kind, current, discovered, jwks) := PcOf(s, c);
      if ok then At(s, c, Publishing(kind, current, discovered, jwks)) else Fail(s, c, kind)
    case Publish(c, wall) =>
      var Publishing(_, _, discovered, jwks) := PcOf(s, c);
      Return(s, c).(provider := AfterPublish(s.provider, discovered, jwks, parseDate, wall, s.clock))
    case SampleClock(c) => At(s, c, Deferring(s.clock))
    case Defer(c) => Return(s, c).(provider := AfterError(s.provider, PcOf(s, c).sampled))
  }

  /** What the event returns to its caller, if it is the caller's last step. */
  function OutcomeOf(s: State, e: Event): Option<Outcome>
    requires Enabled(s, e)
  {
    match e
    case Check(c) =>
      var snapshot := PcOf(s, c).snapshot;
      if NeedsRefresh(snapshot, s.clock) then None else Some(Served(snapshot, s.clock))
    case Recheck(c) =>
      var current := PcOf(s, c).current;
      if NeedsRefresh(current, s.clock) then None else Some(Served(current, s.clock))
    case Answer(c, response) =>
      var Fetching(kind, current) := PcOf(s, c);
      if kind.Forced? && Discover(current.metadata.issuer, response).Err? then Some(Reported) else None
    case KeysAnswer(c, ok) => if PcOf(s, c).kind.Forced? && !ok then Some(Reported) else None
    case Publish(c, _) => Some(Fetched(PcOf(s, c).discovered.metadata))
    case Defer(c) =>
      if MayServeStale(s.provider, PcOf(s, c).sampled) then Some(Served(s.provider, PcOf(s, c).sampled))
      else Some(Reported)
    case _ => None
  }

  predicate ValidRun(s: State, events: seq<Event>, parseDate: DateParser)
    decreases |events|
  {
    events == [] || (Enabled(s, events[0]) && ValidRun(Apply(s, events[0], parseDate), events[1..], parseDate))
  }

  function Final(s: State, events: seq<Event>, parseDate: DateParser): State
    requires ValidRun(s, events, parseDate)
    decreases |events|
  {
    if events == [] then s else Final(Apply(s, events[0], parseDate), events[1..], parseDate)
  }

  /** A new client: nobody refreshes, and the snapshot comes from one of the two constructors. */
  ghost predicate Initial(s: State) {
    && s.lock == None && s.pcs == map[]
    && s.provider.jwks.id < s.nextJwks
    && ((exists metadata: ProviderMetadata, id ::
           metadata.Valid() && FromParts(metadata, id) == Ok(s.provider))
     || (exists discovered: Discovered, id, parseDate, wall ::
           discovered.metadata.Valid() && FromDiscovery(discovered, id, parseDate, wall, s.clock) == s.provider))
  }

  // The invariant of every interleaving

  ghost predicate SameBase(current: ProviderState, live: ProviderState) {
    current.metadata == live.metadata && current.jwks == live.jwks
  }

  /** A fetched response waits to be published over the snapshot it was fetched for. */
  ghost predicate Replaces(live: ProviderState, discovered: Discovered, jwks: JwksHandle, nextJwks: nat) {
    && discovered.metadata.issuer == live.metadata.issuer
    && discovered.metadata.Valid()
    && jwks.url == discovered.metadata.jwksUri
    && jwks.id < nextJwks
    && (if discovered.metadata.jwksUri == live.metadata.jwksUri then jwks == live.jwks else jwks.id > live.jwks.id)
  }

  ghost predicate PcInv(s: State, c: Caller) {
    var pc := PcOf(s, c);
    && (HoldsLock(pc) ==> s.lock == Some(c))
    && match pc
       case Checking(snapshot) => Coherent(snapshot) && snapshot.metadata.issuer == s.provider.metadata.issuer
       case Rechecking(current) => Coherent(current) && SameBase(current, s.provider)
       case Fetching(_, current) => SameBase(current, s.provider)
       case FetchingKeys(_, current, discovered, jwks) =>
         && SameBase(current, s.provider)
         && Replaces(s.provider, discovered, jwks, s.nextJwks)
       case Publishing(_, current, discovered, jwks) =>
         && SameBase(current, s.provider)
         && Replaces(s.provider, discovered, jwks, s.nextJwks)
       case Deferring(sampled) => sampled <= s.clock
       case _ => true
  }

  ghost predicate Inv(s: State) {
    && Coherent(s.provider)
    && s.provider.jwks.id < s.nextJwks
    && (s.lock.Some? ==> HoldsLock(PcOf(s, s.lock.value)))
    && forall c :: PcInv(s, c)
  }

  lemma InitialInv(s: State)
    requires Initial(s)
    ensures Inv(s)
  {
  }

  lemma StepKeepsProvider(s: State, e: Event, parseDate: DateParser)
    requires Inv(s) && Enabled(s, e)
    ensures var t := Apply(s, e, parseDate);
      && Coherent(t.provider) && t.provider.jwks.id < t.nextJwks
      && t.provider.metadata.issuer == s.provider.metadata.issuer
  {
    match e {
      case Setter(call) => SetterKeepsCoherent(s.provider, call, s.clock);
      case Publish(c, wall) =>
        assert PcInv(s, c);
        var pc := PcOf(s, c);
        PublishKeepsCoherent(s.provider, pc.discovered, pc.jwks, parseDate, wall, s.clock);
      case Defer(c) => ErrorKeepsCoherent(s.provider, PcOf(s, c).sampled);
      case _ =>
    }
  }

  predicate Acts(e: Event, c: Caller) {
    !e.Tick? && !e.Setter? && e.c == c
  }

  lemma ActorKeepsLock(s: State, e: Event, parseDate: DateParser)
    requires Enabled(s, e) && !e.Tick? && !e.Setter?
    requires HoldsLock(PcOf(s, e.c)) <==> s.lock == Some(e.c)
    ensures var t := Apply(s, e, parseDate); HoldsLock(PcOf(t, e.c)) <==> t.lock == Some(e.c)
  {
  }

  lemma OthersKeepLock(s: State, e: Event, c: Caller, parseDate: DateParser)
    requires Enabled(s, e) && !e.Tick? && !e.Setter? && e.c != c
    requires HoldsLock(PcOf(s, e.c)) <==> s.lock == Some(e.c)
    requires HoldsLock(PcOf(s, c)) <==> s.lock == Some(c)
    ensures var t := Apply(s, e, parseDate); HoldsLock(PcOf(t, c)) <==> t.lock == Some(c)
  {
  }

  lemma StepKeepsLock(s: State, e: Event, c: Caller, parseDate: DateParser)
    requires Inv(s) && Enabled(s, e)
    ensures var t := Apply(s, e, parseDate); HoldsLock(PcOf(t, c)) <==> t.lock == Some(c)
  {
    assert PcInv(s, c);
    if Acts(e, c) {
      ActorKeepsLock(s, e, parseDate);
    } else if !e.Tick? && !e.Setter? {
      assert PcInv(s, e.c);
      OthersKeepLock(s, e, c, parseDate);
    }
  }

  lemma AnswerKeepsPc(s: State, e: Event, parseDate: DateParser)
    requires Enabled(s, e) && e.Answer? && PcInv(s, e.c)
    requires s.provider.jwks.url == s.provider.metadata.jwksUri && s.provider.jwks.id < s.nextJwks
    requires HoldsLock(PcOf(Apply(s, e, parseDate), e.c)) ==> Apply(s, e, parseDate).lock == Some(e.c)
    ensures PcInv(Apply(s, e, parseDate), e.c)
  {
  }

  lemma StepKeepsActorPc(s: State, e: Event, parseDate: DateParser)
    requires Inv(s) && Enabled(s, e) && !e.Tick? && !e.Setter?
    ensures PcInv(Apply(s, e, parseDate), e.c)
  {
    assert PcInv(s, e.c);
    StepKeepsLock(s, e, e.c, parseDate);
    if e.Answer? {
      AnswerKeepsPc(s, e, parseDate);
    } else if e.Publish? || e.Defer? {
      assert PcOf(Apply(s, e, parseDate), e.c) == Idle;
    }
  }

  /** What a caller relies on is untouched by steps of others. */
  lemma PcInvFrame(s: State, t: State, c: Caller)
    requires PcInv(s, c) && PcOf(t, c) == PcOf(s, c)
    requires HoldsLock(PcOf(s, c)) ==> t.lock == Some(c) && SameBase(t.provider, s.provider)
    requires t.provider.metadata.issuer == s.provider.metadata.issuer
    requires s.nextJwks <= t.nextJwks && s.clock <= t.clock
    ensures PcInv(t, c)
  {
  }

  lemma OthersDoNotMove(s: State, e: Event, c: Caller, parseDate: DateParser)
    requires Enabled(s, e) && !Acts(e, c)
    ensures var t := Apply(s, e, parseDate);
      PcOf(t, c) == PcOf(s, c) && s.nextJwks <= t.nextJwks && s.clock <= t.clock
  {
  }

  /** No other event touches metadata, keys or stale permission, and outside setters a failed refresh
      alters nothing but the retry deadline. */
  lemma OthersLeaveSnapshot(s: State, e: Event, parseDate: DateParser)
    requires Enabled(s, e) && !e.Publish?
    ensures var live, next := s.provider, Apply(s, e, parseDate).provider;
      && SameBase(next, live) && next.staleOnError == live.staleOnError
      && (!e.Setter? ==> next == live.(retryAfter := next.retryAfter))
      && (!e.Setter? && !e.Defer? ==> next == live)
      && (e.Defer? && OutcomeOf(s, e) == Some(Reported) ==> next == live)
  {
  }

  lemma StepKeepsOtherPc(s: State, e: Event, c: Caller, parseDate: DateParser)
    requires Inv(s) && Enabled(s, e) && !Acts(e, c)
    ensures PcInv(Apply(s, e, parseDate), c)
  {
    var t := Apply(s, e, parseDate);
    StepKeepsProvider(s, e, parseDate);
    StepKeepsLock(s, e, c, parseDate);
    OthersDoNotMove(s, e, c, parseDate);
    assert PcInv(s, c);
    if e.Publish? {
      assert PcInv(s, e.c);
    } else {
      OthersLeaveSnapshot(s, e, parseDate);
    }
    PcInvFrame(s, t, c);
  }

  lemma StepKeepsInv(s: State, e: Event, parseDate: DateParser)
    requires Inv(s) && Enabled(s, e)
    ensures Inv(Apply(s, e, parseDate))
  {
    var t := Apply(s, e, parseDate);
    StepKeepsProvider(s, e, parseDate);
    forall c: Caller ensures PcInv(t, c) && (HoldsLock(PcOf(t, c)) <==> t.lock == Some(c)) {
      StepKeepsLock(s, e, c, parseDate);
      if Acts(e, c) {
        StepKeepsActorPc(s, e, parseDate);
      } else {
        StepKeepsOtherPc(s, e, c, parseDate);
      }
    }
  }

  lemma {:induction false} RunKeepsInv(s: State, events: seq<Event>, parseDate: DateParser)
    requires Inv(s) && ValidRun(s, events, parseDate)
    ensures Inv(Final(s, events, parseDate))
    decreases |events|
  {
    if events == [] {
    } else {
      StepKeepsInv(s, events[0], parseDate);
      RunKeepsInv(Apply(s, events[0], parseDate), events[1..], parseDate);
    }
  }

  /** In every reachable state of every interleaving the deadlines agree with the settings and the
      keys with the metadata. */
  lemma AlwaysCoherent(s: State, events: seq<Event>, parseDate: DateParser)
    requires Initial(s) && ValidRun(s, events, parseDate)
    ensures Inv(Final(s, events, parseDate)) && Coherent(Final(s, events, parseDate).provider)
  {
    InitialInv(s);
    RunKeepsInv(s, events, parseDate);
  }

  // Snapshot coherence

  lemma SingleFlight(s: State, c: Caller, d: Caller)
    requires Inv(s) && HoldsLock(PcOf(s, c)) && HoldsLock(PcOf(s, d))
    ensures c == d
  {
    assert PcInv(s, c) && PcInv(s, d);
  }

  /** No caller is stuck: an idle one can begin either call, a waiting one can go on once the lock is free, and any
      other has the lock. */
  lemma CallerCanMove(s: State, c: Caller)
    requires Inv(s)
    ensures PcOf(s, c).Idle? ==> Enabled(s, CloneSnapshot(c)) && Enabled(s, Force(c))
    ensures PcOf(s, c).Checking? ==> Enabled(s, Check(c))
    ensures PcOf(s, c).Waiting? ==> s.lock.Some? || Enabled(s, Acquire(c))
    ensures !PcOf(s, c).Idle? && !PcOf(s, c).Checking? && !PcOf(s, c).Waiting? ==> s.lock == Some(c)
  {
    assert PcInv(s, c);
  }

  /** A held refresh lock always has a holder that can take a step. */
  lemma HolderCanMove(s: State)
    requires Inv(s) && s.lock.Some?
    ensures exists e :: Enabled(s, e) && !e.Tick? && !e.Setter? && e.c == s.lock.value
  {
    var c := s.lock.value;
    match PcOf(s, c) {
      case Holding(_) => assert Enabled(s, CloneUnderLock(c));
      case Rechecking(_) => assert Enabled(s, Recheck(c));
      case Fetching(_, _) => assert Enabled(s, Answer(c, None));
      case FetchingKeys(_, _, _, _) => assert Enabled(s, KeysAnswer(c, true));
      case Publishing(_, _, _, _) => assert Enabled(s, Publish(c, 0));
      case Failed => assert Enabled(s, SampleClock(c));
      case Deferring(_) => assert Enabled(s, Defer(c));
    }
  }

  /** Only a publication replaces metadata or keys, and it replaces those its refresh started from: the
      issuer stays, and the key cache is kept while its URI is, and fresh otherwise. */
  lemma PublicationIsCoherent(s: State, c: Caller, wall: SystemTime, parseDate: DateParser)
    requires Inv(s) && Enabled(s, Publish(c, wall))
    ensures var live, next := s.provider, Apply(s, Publish(c, wall), parseDate).provider;
      && SameBase(PcOf(s, c).current, live)
      && next.metadata == PcOf(s, c).discovered.metadata
      && next.metadata.issuer == live.metadata.issuer
      && (next.metadata.jwksUri == live.metadata.jwksUri ==> next.jwks == live.jwks)
      && (next.metadata.jwksUri != live.metadata.jwksUri ==> next.jwks.id > live.jwks.id)
      && next.jwks.url == next.metadata.jwksUri
  {
    assert PcInv(s, c);
  }

  lemma {:induction false} IssuerNeverChanges(s: State, events: seq<Event>, parseDate: DateParser)
    requires Inv(s) && ValidRun(s, events, parseDate)
    ensures Final(s, events, parseDate).provider.metadata.issuer == s.provider.metadata.issuer
    ensures Final(s, events, parseDate).provider.jwks.id >= s.provider.jwks.id
    decreases |events|
  {
    if events == [] {
    } else {
      var e := events[0];
      StepKeepsInv(s, e, parseDate);
      if e.Publish? {
        PublicationIsCoherent(s, e.c, e.wall, parseDate);
      } else {
        OthersLeaveSnapshot(s, e, parseDate);
      }
      IssuerNeverChanges(Apply(s, e, parseDate), events[1..], parseDate);
    }
  }

  // Bounded staleness

  /** By its own deadlines the snapshot is exempt, fresh, or permitted stale and within its retention. */
  ghost predicate Admissible(p: ProviderState, at: Instant) {
    || (p.refreshInterval.None? && p.refreshAfter.None?)
    || (p.refreshAfter.Some? && at < p.refreshAfter.value)
    || (p.refreshAfter.Some? && p.staleOnError && at < p.refreshAfter.value + p.retainOnError)
  }

  /** Whatever is served without a successful fetch was admissible at a time not later than now. */
  lemma ServedIsAdmissible(s: State, e: Event, snapshot: ProviderState, at: Instant)
    requires Inv(s) && Enabled(s, e) && OutcomeOf(s, e) == Some(Served(snapshot, at))
    ensures Admissible(snapshot, at) && at <= s.clock
    ensures snapshot.metadata.issuer == s.provider.metadata.issuer && snapshot.metadata.Valid()
  {
    assert PcInv(s, e.c);
  }

  // Last setter wins

  function SettersIn(events: seq<Event>): seq<SetterCall> {
    if events == [] then []
    else (if events[0].Setter? then [events[0].call] else []) + SettersIn(events[1..])
  }

  function ConfigureAll(settings: Settings, calls: seq<SetterCall>): Settings
    decreases |calls|
  {
    if calls == [] then settings else ConfigureAll(Configure(settings, calls[0]), calls[1..])
  }

  lemma StepConfigures(s: State, e: Event, parseDate: DateParser)
    requires Enabled(s, e)
    ensures SettingsOf(Apply(s, e, parseDate).provider)
         == if e.Setter? then Configure(SettingsOf(s.provider), e.call) else SettingsOf(s.provider)
  {
  }

  /** After any interleaving the settings are the fold of the setter calls alone. */
  lemma {:induction false} SettingsAreFoldOfSetters(s: State, events: seq<Event>, parseDate: DateParser)
    requires ValidRun(s, events, parseDate)
    ensures SettingsOf(Final(s, events, parseDate).provider)
         == ConfigureAll(SettingsOf(s.provider), SettersIn(events))
    decreases |events|
  {
    if events == [] {
    } else {
      var e := events[0];
      StepConfigures(s, e, parseDate);
      SettingsAreFoldOfSetters(Apply(s, e, parseDate), events[1..], parseDate);
      if e.Setter? {
        assert ([e.call] + SettersIn(events[1..]))[1..] == SettersIn(events[1..]);
      } else {
        assert [] + SettersIn(events[1..]) == SettersIn(events[1..]);
      }
    }
  }

  lemma PublishSchedules(s: State, c: Caller, wall: SystemTime, parseDate: DateParser)
    requires Enabled(s, Publish(c, wall))
    ensures
      var after := Apply(s, Publish(c, wall), parseDate).provider;
      var headers := PcOf(s, c).discovered.headers;
      && SettingsOf(after) == SettingsOf(s.provider)
      && after.retryAfter == None
      && (after.staleOnError <==> !Strict(headers))
      && (s.provider.refreshInterval.None? ==> after.refreshAfter == None && after.staleUntil == None)
      && (s.provider.refreshInterval.Some? ==>
            && after.refreshAfter
               == Some(RefreshDeadline(s.clock, ScheduledAfter(s.provider, headers, parseDate, wall)))
            && after.staleUntil == if Strict(headers) || s.provider.retainOnError == 0 then None
                                   else CheckedAdd(after.refreshAfter.value, s.provider.retainOnError))
  {
    var pc := PcOf(s, c);
    PublicationSchedule(s.provider, pc.discovered, pc.jwks, parseDate, wall, s.clock);
  }

  /** A publication computes its deadlines from the settings left by all setter calls before it, however
      many of them came after the fetch began. */
  lemma PublishedDeadlines(s: State, events: seq<Event>, c: Caller, wall: SystemTime, parseDate: DateParser)
    requires ValidRun(s, events, parseDate) && Enabled(Final(s, events, parseDate), Publish(c, wall))
    ensures
      var before := Final(s, events, parseDate);
      var after := Apply(before, Publish(c, wall), parseDate).provider;
      var headers := PcOf(before, c).discovered.headers;
      var settings := ConfigureAll(SettingsOf(s.provider), SettersIn(events));
      var lifetime := FreshFor(PolicyOf(headers, settings.interval.GetOr(DEFAULT_REFRESH_INTERVAL), parseDate, wall));
      && SettingsOf(after) == settings
      && after.retryAfter == None
      && (settings.interval.None? ==> after.refreshAfter == None && after.staleUntil == None)
      && (settings.interval.Some? ==>
            var refreshAfter := RefreshDeadline(before.clock, Max(lifetime, settings.minimum));
            && after.refreshAfter == Some(refreshAfter)
            && after.staleUntil == if Strict(headers) || settings.retain == 0 then None
                                   else CheckedAdd(refreshAfter, settings.retain))
  {
    SettingsAreFoldOfSetters(s, events, parseDate);
    PublishSchedules(Final(s, events, parseDate), c, wall, parseDate);
  }

  // Strict directives

  ghost predicate NoPublication(events: seq<Event>) {
    forall e :: e in events ==> !e.Publish?
  }

  lemma {:induction false} StalePermissionLasts(s: State, events: seq<Event>, parseDate: DateParser)
    requires ValidRun(s, events, parseDate) && NoPublication(events)
    ensures Final(s, events, parseDate).provider.staleOnError == s.provider.staleOnError
    decreases |events|
  {
    if events == [] {
    } else {
      assert events[0] in events && forall e :: e in events[1..] ==> e in events;
      OthersLeaveSnapshot(s, events[0], parseDate);
      StalePermissionLasts(Apply(s, events[0], parseDate), events[1..], parseDate);
    }
  }

  /** While stale use is not permitted, both fallback deadlines are empty and every failure is reported. */
  ghost predicate NoFallback(s: State) {
    && s.provider.staleUntil == None && s.provider.retryAfter == None
    && forall d :: Enabled(s, Defer(d)) ==> OutcomeOf(s, Defer(d)) == Some(Reported)
  }

  lemma NotPermittedNoFallback(s: State)
    requires Coherent(s.provider) && !s.provider.staleOnError
    ensures NoFallback(s)
  {
  }

  /** From its publication until the next one, under any setters, a response permits stale use exactly if it
      has no strict directive; with one, there is no fallback. */
  lemma StrictUntilNextPublication(s: State, c: Caller, wall: SystemTime, events: seq<Event>, parseDate: DateParser)
    requires Inv(s) && Enabled(s, Publish(c, wall))
    requires ValidRun(Apply(s, Publish(c, wall), parseDate), events, parseDate) && NoPublication(events)
    ensures
      var headers := PcOf(s, c).discovered.headers;
      var end := Final(Apply(s, Publish(c, wall), parseDate), events, parseDate);
      (end.provider.staleOnError <==> !Strict(headers)) && (Strict(headers) ==> NoFallback(end))
  {
    var t := Apply(s, Publish(c, wall), parseDate);
    PublishSchedules(s, c, wall, parseDate);
    StalePermissionLasts(t, events, parseDate);
    StepKeepsInv(s, Publish(c, wall), parseDate);
    RunKeepsInv(t, events, parseDate);
    if Strict(PcOf(s, c).discovered.headers) {
      NotPermittedNoFallback(Final(t, events, parseDate));
    }
  }

  /** The same for the response a client is first built from. */
  lemma StrictSinceDiscovery(s: State, discovered: Discovered, id: nat, wall: SystemTime, events: seq<Event>,
                             parseDate: DateParser)
    requires Inv(s) && s.provider == FromDiscovery(discovered, id, parseDate, wall, s.clock)
    requires ValidRun(s, events, parseDate) && NoPublication(events)
    ensures
      var end := Final(s, events, parseDate);
      (end.provider.staleOnError <==> !Strict(discovered.headers)) && (Strict(discovered.headers) ==> NoFallback(end))
  {
    StaleUseIffNotStrict(discovered.headers, DEFAULT_REFRESH_INTERVAL, DEFAULT_MINIMUM_CACHE_DURATION, parseDate, wall);
    StalePermissionLasts(s, events, parseDate);
    RunKeepsInv(s, events, parseDate);
    if Strict(discovered.headers) {
      NotPermittedNoFallback(Final(s, events, parseDate));
    }
  }

  // The minimum is a floor

  ghost predicate Reschedules(e: Event) {
    e.Publish? || (e.Setter? && (e.call.SetInterval? || e.call.SetMinimum?))
  }

  /** The duration the event schedules the next refresh after. */
  ghost function Requested(s: State, e: Event, parseDate: DateParser): Duration
    requires Enabled(s, e) && Reschedules(e)
  {
    match e
    case Setter(SetInterval(d)) => Max(d, s.provider.minimumCacheDuration)
    case Setter(SetMinimum(d)) => d
    case Publish(c, wall) => ScheduledAfter(s.provider, PcOf(s, c).discovered.headers, parseDate, wall)
    case _ => 0
  }

  /** With refresh enabled, the deadline clears the minimum exactly if the requested sum is representable. */
  lemma FloorAtReschedule(s: State, e: Event, parseDate: DateParser)
    requires Inv(s) && Enabled(s, e) && Reschedules(e)
    requires Apply(s, e, parseDate).provider.refreshInterval.Some?
    ensures var p := Apply(s, e, parseDate).provider;
      p.refreshAfter.value >= s.clock + p.minimumCacheDuration
      <==> s.clock + Requested(s, e, parseDate) <= MAX_INSTANT || p.minimumCacheDuration == 0
  {
    if e.Publish? {
      PublishSchedules(s, e.c, e.wall, parseDate);
    }
  }

  /** The next refresh is not due before `floor`, unless refreshing is disabled. */
  ghost predicate NotDueBefore(p: ProviderState, floor: int) {
    p.refreshInterval.Some? ==> p.refreshAfter.Some? && p.refreshAfter.value >= floor
  }

  lemma StepKeepsFloor(s: State, e: Event, floor: int, parseDate: DateParser)
    requires Enabled(s, e) && !Reschedules(e) && NotDueBefore(s.provider, floor)
    ensures var p := Apply(s, e, parseDate).provider;
      p.minimumCacheDuration == s.provider.minimumCacheDuration && NotDueBefore(p, floor)
  {
    OthersLeaveSnapshot(s, e, parseDate);
  }

  /** Until the next publication, interval change or minimum change, the floor set by the last one stands. */
  lemma {:induction false} FloorLasts(s: State, events: seq<Event>, floor: int, parseDate: DateParser)
    requires ValidRun(s, events, parseDate)
    requires forall e :: e in events ==> !Reschedules(e)
    requires NotDueBefore(s.provider, floor)
    ensures var p := Final(s, events, parseDate).provider;
      p.minimumCacheDuration == s.provider.minimumCacheDuration && NotDueBefore(p, floor)
    decreases |events|
  {
    if events == [] {
    } else {
      assert events[0] in events && forall e :: e in events[1..] ==> e in events;
      StepKeepsFloor(s, events[0], floor, parseDate);
      FloorLasts(Apply(s, events[0], parseDate), events[1..], floor, parseDate);
    }
  }

  /** The two together: in every state, refresh_after is at least the time of the last such event plus the
      minimum in force, if that event's sum was representable. */
  lemma MinimumFloor(s: State, e: Event, events: seq<Event>, parseDate: DateParser)
    requires Inv(s) && Enabled(s, e) && Reschedules(e)
    requires ValidRun(Apply(s, e, parseDate), events, parseDate)
    requires forall f :: f in events ==> !Reschedules(f)
    requires s.clock + Requested(s, e, parseDate) <= MAX_INSTANT
    ensures var p := Final(Apply(s, e, parseDate), events, parseDate).provider;
            NotDueBefore(p, s.clock + p.minimumCacheDuration)
  {
    var t := Apply(s, e, parseDate);
    StepKeepsInv(s, e, parseDate);
    if t.provider.refreshInterval.Some? {
      FloorAtReschedule(s, e, parseDate);
    }
    FloorLasts(t, events, s.clock + t.provider.minimumCacheDuration, parseDate);
  }

  /** What a discovery response is fresh for, under the settings of a new client. */
  function FirstLifetime(discovered: Discovered, wall: SystemTime, parseDate: DateParser): Duration {
    Max(FreshFor(PolicyOf(discovered.headers, DEFAULT_REFRESH_INTERVAL, parseDate, wall)),
        DEFAULT_MINIMUM_CACHE_DURATION)
  }

  /** A client built by discovery is exempt from refreshing for the default minimum exactly if the first deadline
      is representable, and then stays so until the next publication, interval change or minimum change. */
  lemma MinimumSinceDiscovery(s: State, discovered: Discovered, id: nat, wall: SystemTime, events: seq<Event>,
                              parseDate: DateParser)
    requires discovered.metadata.Valid() && s.provider == FromDiscovery(discovered, id, parseDate, wall, s.clock)
    requires ValidRun(s, events, parseDate) && forall e :: e in events ==> !Reschedules(e)
    ensures NotDueBefore(s.provider, s.clock + s.provider.minimumCacheDuration)
       <==> s.clock + FirstLifetime(discovered, wall, parseDate) <= MAX_INSTANT
    ensures s.clock + FirstLifetime(discovered, wall, parseDate) <= MAX_INSTANT
        ==> NotDueBefore(Final(s, events, parseDate).provider, s.clock + FirstLifetime(discovered, wall, parseDate))
            && FirstLifetime(discovered, wall, parseDate)
               >= Final(s, events, parseDate).provider.minimumCacheDuration == DEFAULT_MINIMUM_CACHE_DURATION
  {
    InitiallyCoherent(discovered, id, parseDate, wall, s.clock);
    if s.clock + FirstLifetime(discovered, wall, parseDate) <= MAX_INSTANT {
      FloorLasts(s, events, s.clock + FirstLifetime(discovered, wall, parseDate), parseDate);
    }
  }

  /** Changing the minimum moves the deadline to the later of the old one and now plus the minimum. It never
      shortens freshness, and shortens the stale window exactly if the new end is unrepresentable. */
  lemma MinimumChangeExtends(p: ProviderState, minimum: Duration, now: Instant)
    requires Coherent(p) && p.refreshAfter.Some?
    ensures var q := AfterSetter(p, SetMinimum(minimum), now);
      && q.refreshAfter == Some(Max(p.refreshAfter.value, RefreshDeadline(now, minimum)))
      && (p.staleUntil.Some? ==>
            (q.staleUntil.Some? && q.staleUntil.value >= p.staleUntil.value
             <==> RefreshDeadline(now, minimum) + p.retainOnError <= MAX_INSTANT))
  {
  }

  /** Both conditions can fail, for any client built without discovery. An interval past the end of the clock
      makes the next refresh due at once, before the minimum of 60 seconds has passed. */
  lemma IntervalPastTheEnd(metadata: ProviderMetadata, jwksId: nat, now: Instant)
    requires metadata.Valid()
    ensures var p := AfterSetter(FromParts(metadata, jwksId).value, SetInterval(MAX_INSTANT + 1), now);
      && p.refreshAfter == Some(now) && NeedsRefresh(p, now)
      && p.minimumCacheDuration == 60 * SECOND && p.refreshAfter.value < now + p.minimumCacheDuration
  {
  }

  /** And a minimum that ends with the clock takes away the stale window that the default settings give. */
  lemma MinimumToTheEnd(metadata: ProviderMetadata, jwksId: nat)
    requires metadata.Valid()
    ensures
      var p := AfterSetter(FromParts(metadata, jwksId).value, SetInterval(DEFAULT_REFRESH_INTERVAL), 0);
      && p.staleUntil == Some(60 * 60 * SECOND + 24 * 60 * 60 * SECOND)
      && AfterSetter(p, SetMinimum(MAX_INSTANT), 0).staleUntil == None
  {
  }

  // How often an outage is probed

  lemma {:induction false} SnapshotLasts(s: State, events: seq<Event>, parseDate: DateParser)
    requires ValidRun(s, events, parseDate)
    requires forall e :: e in events ==> !e.Setter? && !e.Publish? && !e.Defer?
    ensures Final(s, events, parseDate).provider == s.provider
    decreases |events|
  {
    if events == [] {
    } else {
      assert events[0] in events && forall e :: e in events[1..] ==> e in events;
      OthersLeaveSnapshot(s, events[0], parseDate);
      SnapshotLasts(Apply(s, events[0], parseDate), events[1..], parseDate);
    }
  }

  /** A failed attempt that served the retained snapshot puts the next one off by thirty seconds from its clock
      reading, or to the end of the stale window, and no longer: until a setter, a publication or another failure, an
      attempt is due exactly from then on. */
  lemma RetryIsDueInRun(s: State, c: Caller, events: seq<Event>, u: Instant, parseDate: DateParser)
    requires Inv(s) && Enabled(s, Defer(c)) && OutcomeOf(s, Defer(c)).value.Served?
    requires ValidRun(Apply(s, Defer(c), parseDate), events, parseDate)
    requires forall e :: e in events ==> !e.Setter? && !e.Publish? && !e.Defer?
    ensures s.provider.refreshAfter.Some? && s.provider.staleUntil.Some?
    ensures NeedsRefresh(Final(Apply(s, Defer(c), parseDate), events, parseDate).provider, u)
       <==> && s.provider.refreshAfter.value <= u
            && Min(PcOf(s, c).sampled + 30 * SECOND, s.provider.staleUntil.value) <= u
  {
    SnapshotLasts(Apply(s, Defer(c), parseDate), events, parseDate);
    RetryIsDue(s.provider, PcOf(s, c).sampled, u);
  }

  /** The event starts an automatic discovery request. */
  predicate Begins(s: State, e: Event) {
    e.Recheck? && Enabled(s, e) && NeedsRefresh(PcOf(s, e.c).current, s.clock)
  }

  /** Automatic attempts that begin at or after `from` and before `until`. */
  ghost function Attempts(s: State, events: seq<Event>, from: int, until: int, parseDate: DateParser): nat
    requires ValidRun(s, events, parseDate)
    decreases |events|
  {
    if events == [] then 0
    else (if Begins(s, events[0]) && from <= s.clock < until then 1 else 0)
         + Attempts(Apply(s, events[0], parseDate), events[1..], from, until, parseDate)
  }

  /** No setter call and no publication: the snapshot stays current. */
  ghost predicate Quiet(events: seq<Event>) {
    forall e :: e in events ==> !e.Setter? && !e.Publish?
  }

  /** An automatic attempt is running. */
  predicate Busy(pc: Pc) {
    match pc
    case Fetching(kind, _) => kind.Automatic?
    case FetchingKeys(kind, _, _, _) => kind.Automatic?
    case Publishing(kind, _, _, _) => kind.Automatic?
    case Failed => true
    case Deferring(_) => true
    case _ => false
  }

  ghost predicate RecheckIsCurrent(s: State) {
    forall c :: PcOf(s, c).Rechecking? ==> PcOf(s, c).current == s.provider
  }

  /** A failing attempt read the clock no earlier than that. */
  ghost predicate SampledSince(s: State, last: Instant) {
    forall c :: PcOf(s, c).Deferring? ==> last <= PcOf(s, c).sampled
  }

  /** What keeps the next attempt away after one that began at `last`. */
  ghost predicate Deferred(s: State, last: Instant, staleUntil: Instant) {
    && last <= s.clock
    && RecheckIsCurrent(s)
    && SampledSince(s, last)
    && (|| (s.lock.Some? && Busy(PcOf(s, s.lock.value)))
        || (s.provider.retryAfter.Some? && s.provider.retryAfter.value >= Min(last + RETRY_INTERVAL, staleUntil))
        || s.clock >= staleUntil)
  }

  ghost function Earliest(last: Option<Instant>, refreshAfter: Instant, staleUntil: Instant): int {
    if last.None? then refreshAfter else Max(refreshAfter, Min(last.value + RETRY_INTERVAL, staleUntil))
  }

  lemma RecheckStaysCurrent(s: State, e: Event, parseDate: DateParser)
    requires Inv(s) && Enabled(s, e) && !e.Setter? && !e.Publish?
    requires RecheckIsCurrent(s)
    ensures RecheckIsCurrent(Apply(s, e, parseDate))
  {
    var t := Apply(s, e, parseDate);
    if !e.Tick? {
      assert PcInv(s, e.c);
    }
    forall c | PcOf(t, c).Rechecking? ensures PcOf(t, c).current == t.provider {
      assert PcInv(s, c);
    }
  }

  lemma BeginningDefers(s: State, e: Event, last: Option<Instant>, staleUntil: Instant, parseDate: DateParser)
    requires Inv(s) && Enabled(s, e) && Begins(s, e)
    requires last.Some? ==> Deferred(s, last.value, staleUntil)
    ensures Deferred(Apply(s, e, parseDate), s.clock, staleUntil)
    ensures last.Some? ==> s.clock >= Min(last.value + RETRY_INTERVAL, staleUntil)
  {
    var t := Apply(s, e, parseDate);
    assert PcInv(s, e.c);
    forall c: Caller ensures !PcOf(t, c).Rechecking? && !PcOf(t, c).Deferring? {
      assert PcInv(s, c);
    }
  }

  lemma StaysSampledSince(s: State, e: Event, last: Instant, parseDate: DateParser)
    requires Enabled(s, e) && last <= s.clock && SampledSince(s, last)
    ensures SampledSince(Apply(s, e, parseDate), last)
  {
    var t := Apply(s, e, parseDate);
    forall c: Caller ensures PcOf(t, c).Deferring? ==> last <= PcOf(t, c).sampled {
      assert PcOf(s, c).Deferring? ==> last <= PcOf(s, c).sampled;
    }
  }

  lemma StaysDeferred(s: State, e: Event, last: Instant, staleUntil: Instant, parseDate: DateParser)
    requires Inv(s) && Enabled(s, e) && !e.Setter? && !e.Publish? && !Begins(s, e)
    requires s.provider.staleUntil == Some(staleUntil)
    requires Deferred(s, last, staleUntil)
    ensures Deferred(Apply(s, e, parseDate), last, staleUntil)
  {
    RecheckStaysCurrent(s, e, parseDate);
    StaysSampledSince(s, e, last, parseDate);
    if !e.Tick? {
      assert PcInv(s, e.c);
    }
  }

  lemma NextDeferral(s: State, e: Event, last: Option<Instant>, refreshAfter: Instant, staleUntil: Instant,
                     parseDate: DateParser)
    returns (next: Option<Instant>)
    requires Inv(s) && Enabled(s, e) && !e.Setter? && !e.Publish?
    requires s.provider.refreshAfter == Some(refreshAfter) && s.provider.staleUntil == Some(staleUntil)
    requires last.Some? ==> Deferred(s, last.value, staleUntil)
    ensures Inv(Apply(s, e, parseDate))
    ensures var t := Apply(s, e, parseDate).provider;
      t.refreshAfter == Some(refreshAfter) && t.staleUntil == Some(staleUntil)
    ensures next == if Begins(s, e) then Some(s.clock) else last
    ensures next.Some? ==> Deferred(Apply(s, e, parseDate), next.value, staleUntil)
    ensures Begins(s, e) && last.Some? ==> s.clock >= Min(last.value + RETRY_INTERVAL, staleUntil)
  {
    StepKeepsInv(s, e, parseDate);
    OthersLeaveSnapshot(s, e, parseDate);
    next := if Begins(s, e) then Some(s.clock) else last;
    if Begins(s, e) {
      BeginningDefers(s, e, last, staleUntil, parseDate);
    } else if last.Some? {
      StaysDeferred(s, e, last.value, staleUntil, parseDate);
    }
  }

  /** The number of whole or started retry intervals in a span. */
  function Intervals(span: int): nat {
    if span <= 0 then 0 else (span + RETRY_INTERVAL - 1) / RETRY_INTERVAL
  }

  lemma OneIntervalUsed(earliest: int, at: int, until: int)
    requires earliest <= at < until
    ensures 1 + Intervals(until - Min(at + RETRY_INTERVAL, until)) <= Intervals(until - earliest)
  {
  }

  /** One more attempt, begun no earlier than its deferral allows, fits into the span before it. */
  lemma AddAttempt(begins: bool, at: Instant, last: Option<Instant>, refreshAfter: Instant, staleUntil: Instant,
                   rest: nat)
    requires begins && last.Some? ==> at >= Min(last.value + RETRY_INTERVAL, staleUntil)
    requires rest <= Intervals(staleUntil - Earliest(if begins then Some(at) else last, refreshAfter, staleUntil))
    ensures (if begins && refreshAfter <= at < staleUntil then 1 else 0) + rest
         <= Intervals(staleUntil - Earliest(last, refreshAfter, staleUntil))
  {
    if begins && refreshAfter <= at < staleUntil {
      OneIntervalUsed(Earliest(last, refreshAfter, staleUntil), at, staleUntil);
    }
  }

  lemma {:induction false} AttemptsFrom(s: State, events: seq<Event>, last: Option<Instant>, refreshAfter: Instant,
                                        staleUntil: Instant, parseDate: DateParser)
    requires Inv(s) && ValidRun(s, events, parseDate) && Quiet(events)
    requires s.provider.refreshAfter == Some(refreshAfter) && s.provider.staleUntil == Some(staleUntil)
    requires last.Some? ==> Deferred(s, last.value, staleUntil)
    ensures Attempts(s, events, refreshAfter, staleUntil, parseDate)
         <= Intervals(staleUntil - Earliest(last, refreshAfter, staleUntil))
    decreases |events|
  {
    if events == [] {
    } else {
      var e := events[0];
      assert e in events && forall f :: f in events[1..] ==> f in events;
      var t := Apply(s, e, parseDate);
      var next := NextDeferral(s, e, last, refreshAfter, staleUntil, parseDate);
      AttemptsFrom(t, events[1..], next, refreshAfter, staleUntil, parseDate);
      AddAttempt(Begins(s, e), s.clock, last, refreshAfter, staleUntil,
                 Attempts(t, events[1..], refreshAfter, staleUntil, parseDate));
    }
  }

  /** While a snapshot stays current, however many callers race, at most one automatic attempt begins per
      started thirty seconds of its retention. */
  lemma OutageIsProbedRarely(s: State, events: seq<Event>, parseDate: DateParser)
    requires Inv(s) && ValidRun(s, events, parseDate) && Quiet(events)
    requires s.provider.staleUntil.Some?
    ensures s.provider.refreshAfter.Some?
    ensures Attempts(s, events, s.provider.refreshAfter.value, s.provider.staleUntil.value, parseDate)
         <= Intervals(s.provider.retainOnError)
  {
    AttemptsFrom(s, events, None, s.provider.refreshAfter.value, s.provider.staleUntil.value, parseDate);
  }

  /** Callers that queued behind a refresh share its result: after a publication none of them fetches again
      before the new snapshot needs it. */
  lemma {:induction false} WaitersShareTheRefresh(s: State, events: seq<Event>, parseDate: DateParser)
    requires Inv(s) && ValidRun(s, events, parseDate) && Quiet(events)
    requires RecheckIsCurrent(s) && s.provider.refreshAfter.Some?
    ensures Attempts(s, events, 0, s.provider.refreshAfter.value, parseDate) == 0
    decreases |events|
  {
    if events == [] {
    } else {
      var e, t := events[0], Apply(s, events[0], parseDate);
      assert e in events && forall f :: f in events[1..] ==> f in events;
      StepKeepsInv(s, e, parseDate);
      RecheckStaysCurrent(s, e, parseDate);
      WaitersShareTheRefresh(t, events[1..], parseDate);
    }
  }

  lemma NobodyRechecksAfterPublication(s: State, c: Caller, wall: SystemTime, parseDate: DateParser)
    requires Inv(s) && Enabled(s, Publish(c, wall))
    ensures RecheckIsCurrent(Apply(s, Publish(c, wall), parseDate))
  {
    var t := Apply(s, Publish(c, wall), parseDate);
    assert PcInv(s, c);
    forall d: Caller ensures PcOf(t, d).Rechecking? ==> PcOf(t, d).current == t.provider {
      assert PcInv(s, d);
    }
  }
}
