/** What one call of `refresh_metadata_if_stale` or `refresh_metadata` does and returns (src/client.rs), whatever other
    callers, setters and the clock do between its steps. */
module RefreshCalls {
  import opened Wrappers
  import opened Time
  import CachePolicy
  import opened Metadata
  import opened Provider
  import opened RefreshRuns

  /** The events of a run and the states before, between and after them. */
  datatype Run = Run(states: seq<State>, events: seq<Event>)

  ghost predicate StepsAt(run: Run, n: nat, parseDate: CachePolicy.DateParser)
    requires n < |run.events| < |run.states|
  {
    && Enabled(run.states[n], run.events[n])
    && run.states[n + 1] == Apply(run.states[n], run.events[n], parseDate)
  }

  ghost predicate IsRun(run: Run, parseDate: CachePolicy.DateParser) {
    |run.states| == |run.events| + 1 && forall n: nat :: n < |run.events| ==> StepsAt(run, n, parseDate)
  }

  /** What event n returns to caller c. */
  function Returned(run: Run, n: nat, c: Caller): Option<Outcome>
    requires n < |run.events| < |run.states|
  {
    if Acts(run.events[n], c) && Enabled(run.states[n], run.events[n]) then OutcomeOf(run.states[n], run.events[n])
    else None
  }

  /** A call goes from the event that begins it to the first that returns something to its caller. */
  ghost predicate IsCall(run: Run, from: nat, to: nat, c: Caller, kind: Kind)
    requires |run.states| == |run.events| + 1
  {
    && from < to < |run.events|
    && run.events[from] == (if kind.Forced? then Force(c) else CloneSnapshot(c))
    && (forall n: nat :: from < n < to ==> Returned(run, n, c) == None)
    && Returned(run, to, c).Some?
  }

  // The way of a call

  /** The events at which the call took its steps. */
  datatype Marks = Marks(check: nat, under: nat, recheck: nat, answer: nat, keys: nat, sample: nat)

  ghost predicate Did(run: Run, after: nat, n: nat, before: nat, e: Event) {
    after < n < before && n < |run.events| && run.events[n] == e
  }

  /** An automatic call has found the snapshot it cloned to need a refresh. */
  ghost predicate Queued(run: Run, from: nat, m: nat, c: Caller, kind: Kind, k: Marks)
    requires from < m < |run.states|
  {
    kind.Automatic? ==>
      Did(run, from, k.check, m, Check(c)) && NeedsRefresh(run.states[from].provider, run.states[k.check].clock)
  }

  /** It has the lock, and has cloned the snapshot again. */
  ghost predicate Cloned(run: Run, from: nat, m: nat, c: Caller, kind: Kind, k: Marks)
    requires from < m < |run.states|
  {
    && Queued(run, from, m, c, kind, k)
    && Did(run, if kind.Automatic? then k.check else from, k.under, m, CloneUnderLock(c))
  }

  /** It goes on to fetch: a forced call always does, an automatic one if that snapshot needs it too. */
  ghost predicate Entered(run: Run, from: nat, m: nat, c: Caller, kind: Kind, k: Marks)
    requires from < m < |run.states|
  {
    && Cloned(run, from, m, c, kind, k)
    && (kind.Automatic? ==>
          && Did(run, k.under, k.recheck, m, Recheck(c))
          && NeedsRefresh(run.states[k.under].provider, run.states[k.recheck].clock))
  }

  /** It has its answer from the provider. */
  ghost predicate Asked(run: Run, from: nat, m: nat, c: Caller, kind: Kind, k: Marks)
    requires from < m < |run.states|
  {
    && Entered(run, from, m, c, kind, k)
    && k.under < k.answer < m && k.answer < |run.events|
    && (kind.Automatic? ==> k.recheck < k.answer)
    && run.events[k.answer].Answer? && run.events[k.answer].c == c
  }

  /** The answer, validated against the issuer of the snapshot that was cloned under the lock. */
  function Discovery(run: Run, k: Marks): Result<Discovered, DiscoveryError>
    requires k.under < |run.states| && k.answer < |run.events| && run.events[k.answer].Answer?
  {
    Discover(run.states[k.under].provider.metadata.issuer, run.events[k.answer].response)
  }

  ghost predicate NewKeys(run: Run, k: Marks, discovered: Discovered)
    requires k.under < |run.states|
  {
    discovered.metadata.jwksUri != run.states[k.under].provider.metadata.jwksUri
  }

  /** It has everything for a publication. */
  ghost predicate Complete(run: Run, from: nat, m: nat, c: Caller, kind: Kind, k: Marks, discovered: Discovered)
    requires from < m < |run.states|
  {
    && Asked(run, from, m, c, kind, k)
    && Discovery(run, k) == Ok(discovered)
    && (NewKeys(run, k, discovered) ==> Did(run, k.answer, k.keys, m, KeysAnswer(c, true)))
  }

  /** Its answer is unusable, or the keys that it names are. */
  ghost predicate Broken(run: Run, from: nat, m: nat, c: Caller, kind: Kind, k: Marks)
    requires from < m < |run.states|
  {
    && Asked(run, from, m, c, kind, k)
    && match Discovery(run, k)
       case Err(_) => true
       case Ok(discovered) =>
         NewKeys(run, k, discovered) && Did(run, k.answer, k.keys, m, KeysAnswer(c, false))
  }

  /** Where the call is before event m, from its program point. */
  ghost predicate Phase(run: Run, from: nat, m: nat, c: Caller, kind: Kind, k: Marks)
    requires from < m < |run.states|
  {
    match PcOf(run.states[m], c)
    case Idle => false
    case Checking(snapshot) => kind.Automatic? && snapshot == run.states[from].provider
    case Waiting(own) => own == kind && Queued(run, from, m, c, kind, k)
    case Holding(own) => own == kind && Queued(run, from, m, c, kind, k)
    case Rechecking(current) =>
      kind.Automatic? && Cloned(run, from, m, c, kind, k) && current == run.states[k.under].provider
    case Fetching(own, current) =>
      own == kind && Entered(run, from, m, c, kind, k) && current == run.states[k.under].provider
    case FetchingKeys(own, current, discovered, _) =>
      && own == kind && Asked(run, from, m, c, kind, k) && current == run.states[k.under].provider
      && Discovery(run, k) == Ok(discovered) && NewKeys(run, k, discovered)
    case Publishing(own, _, discovered, _) => own == kind && Complete(run, from, m, c, kind, k, discovered)
    case Failed => kind.Automatic? && Broken(run, from, m, c, kind, k)
    case Deferring(sampled) =>
      && kind.Automatic? && Broken(run, from, m, c, kind, k)
      && Did(run, k.answer, k.sample, m, SampleClock(c)) && sampled == run.states[k.sample].clock
  }

  /** The mark that a step of the call leaves. */
  function Marked(k: Marks, e: Event, n: nat): Marks {
    match e
    case Check(_) => k.(check := n)
    case CloneUnderLock(_) => k.(under := n)
    case Recheck(_) => k.(recheck := n)
    case Answer(_, _) => k.(answer := n)
    case KeysAnswer(_, _) => k.(keys := n)
    case SampleClock(_) => k.(sample := n)
    case _ => k
  }

  lemma OthersKeepPhase(run: Run, from: nat, m: nat, c: Caller, kind: Kind, k: Marks, parseDate: CachePolicy.DateParser)
    requires IsRun(run, parseDate) && from < m < |run.events| && !Acts(run.events[m], c)
    requires Phase(run, from, m, c, kind, k)
    ensures Phase(run, from, m + 1, c, kind, k)
  {
    assert StepsAt(run, m, parseDate);
    OthersDoNotMove(run.states[m], run.events[m], c, parseDate);
  }

  lemma QueueKeepsPhase(run: Run, from: nat, m: nat, c: Caller, kind: Kind, k: Marks, parseDate: CachePolicy.DateParser)
    requires IsRun(run, parseDate) && from < m < |run.events| && Acts(run.events[m], c)
    requires Phase(run, from, m, c, kind, k) && Returned(run, m, c) == None
    requires run.events[m].Check? || run.events[m].Acquire? || run.events[m].CloneUnderLock?
    ensures Phase(run, from, m + 1, c, kind, Marked(k, run.events[m], m))
  {
    assert StepsAt(run, m, parseDate);
  }

  lemma RecheckKeepsPhase(run: Run, from: nat, m: nat, c: Caller, kind: Kind, k: Marks,
                          parseDate: CachePolicy.DateParser)
    requires IsRun(run, parseDate) && from < m < |run.events| && Acts(run.events[m], c)
    requires Phase(run, from, m, c, kind, k) && Returned(run, m, c) == None
    requires run.events[m].Recheck?
    ensures Phase(run, from, m + 1, c, kind, Marked(k, run.events[m], m))
  {
    assert StepsAt(run, m, parseDate);
  }

  lemma AnswerKeepsPhase(run: Run, from: nat, m: nat, c: Caller, kind: Kind, k: Marks,
                         parseDate: CachePolicy.DateParser)
    requires IsRun(run, parseDate) && from < m < |run.events| && Acts(run.events[m], c)
    requires Phase(run, from, m, c, kind, k) && Returned(run, m, c) == None
    requires run.events[m].Answer?
    ensures Phase(run, from, m + 1, c, kind, Marked(k, run.events[m], m))
  {
    assert StepsAt(run, m, parseDate);
  }

  lemma KeysKeepPhase(run: Run, from: nat, m: nat, c: Caller, kind: Kind, k: Marks, parseDate: CachePolicy.DateParser)
    requires IsRun(run, parseDate) && from < m < |run.events| && Acts(run.events[m], c)
    requires Phase(run, from, m, c, kind, k) && Returned(run, m, c) == None
    requires run.events[m].KeysAnswer? || run.events[m].SampleClock?
    ensures Phase(run, from, m + 1, c, kind, Marked(k, run.events[m], m))
  {
    assert StepsAt(run, m, parseDate);
  }

  lemma OwnKeepsPhase(run: Run, from: nat, m: nat, c: Caller, kind: Kind, k: Marks, parseDate: CachePolicy.DateParser)
    requires IsRun(run, parseDate) && from < m < |run.events| && Acts(run.events[m], c)
    requires Phase(run, from, m, c, kind, k) && Returned(run, m, c) == None
    ensures Phase(run, from, m + 1, c, kind, Marked(k, run.events[m], m))
  {
    assert StepsAt(run, m, parseDate);
    match run.events[m] {
      case Check(_) => QueueKeepsPhase(run, from, m, c, kind, k, parseDate);
      case Acquire(_) => QueueKeepsPhase(run, from, m, c, kind, k, parseDate);
      case CloneUnderLock(_) => QueueKeepsPhase(run, from, m, c, kind, k, parseDate);
      case Recheck(_) => RecheckKeepsPhase(run, from, m, c, kind, k, parseDate);
      case Answer(_, _) => AnswerKeepsPhase(run, from, m, c, kind, k, parseDate);
      case KeysAnswer(_, _) => KeysKeepPhase(run, from, m, c, kind, k, parseDate);
      case SampleClock(_) => KeysKeepPhase(run, from, m, c, kind, k, parseDate);
      case _ =>
    }
  }

  lemma FirstPhase(run: Run, from: nat, to: nat, c: Caller, kind: Kind, k: Marks, parseDate: CachePolicy.DateParser)
    requires IsRun(run, parseDate) && IsCall(run, from, to, c, kind)
    ensures Phase(run, from, from + 1, c, kind, k)
  {
    assert StepsAt(run, from, parseDate);
  }

  lemma NextPhase(run: Run, from: nat, m: nat, c: Caller, kind: Kind, k: Marks, parseDate: CachePolicy.DateParser)
    returns (next: Marks)
    requires IsRun(run, parseDate) && from < m < |run.events| && Returned(run, m, c) == None
    requires Phase(run, from, m, c, kind, k)
    ensures Phase(run, from, m + 1, c, kind, next)
  {
    if Acts(run.events[m], c) {
      OwnKeepsPhase(run, from, m, c, kind, k, parseDate);
      next := Marked(k, run.events[m], m);
    } else {
      OthersKeepPhase(run, from, m, c, kind, k, parseDate);
      next := k;
    }
  }

  lemma {:induction false} PhaseAt(run: Run, from: nat, to: nat, m: nat, c: Caller, kind: Kind,
                                   parseDate: CachePolicy.DateParser)
    returns (k: Marks)
    requires IsRun(run, parseDate) && IsCall(run, from, to, c, kind) && from < m <= to
    ensures Phase(run, from, m, c, kind, k)
    decreases m
  {
    if m == from + 1 {
      k := Marks(0, 0, 0, 0, 0, 0);
      FirstPhase(run, from, to, c, kind, k, parseDate);
    } else {
      var before := PhaseAt(run, from, to, m - 1, c, kind, parseDate);
      k := NextPhase(run, from, m - 1, c, kind, before, parseDate);
    }
  }

  // What a call returns

  /** The call asked the provider, and returns what it has published from a complete answer. */
  ghost predicate ReturnsFetched(run: Run, from: nat, to: nat, c: Caller, kind: Kind, k: Marks,
                                 metadata: ProviderMetadata)
    requires from < to < |run.events| < |run.states|
  {
    && run.events[to].Publish?
    && Asked(run, from, to, c, kind, k) && Discovery(run, k).Ok?
    && Complete(run, from, to, c, kind, k, Discovery(run, k).value)
    && Discovery(run, k).value.metadata == metadata == run.states[to + 1].provider.metadata
  }

  /** An automatic call returns a snapshot that it had cloned, without asking the provider, exactly because the snapshot
      did not need a refresh when the call looked; or else the one there is after a broken answer. */
  ghost predicate ReturnsServed(run: Run, from: nat, to: nat, c: Caller, k: Marks, snapshot: ProviderState, at: Instant)
    requires from < to < |run.events| < |run.states|
  {
    match run.events[to]
    case Check(_) => snapshot == run.states[from].provider && at == run.states[to].clock && !NeedsRefresh(snapshot, at)
    case Recheck(_) =>
      && Cloned(run, from, to, c, Automatic, k) && snapshot == run.states[k.under].provider
      && at == run.states[to].clock && !NeedsRefresh(snapshot, at)
    case Defer(_) =>
      && Broken(run, from, to, c, Automatic, k) && Did(run, k.answer, k.sample, to, SampleClock(c))
      && snapshot == run.states[to].provider && at == run.states[k.sample].clock && MayServeStale(snapshot, at)
    case _ => false
  }

  /** A call reports an error only after a broken answer: a forced one at once, an automatic one if nothing may be
      served by then. */
  ghost predicate ReturnsReported(run: Run, from: nat, to: nat, c: Caller, kind: Kind, k: Marks)
    requires from < to < |run.events| < |run.states|
  {
    && Broken(run, from, to + 1, c, kind, k)
    && run.states[to + 1].provider == run.states[to].provider
    && match kind
       case Forced => to == if Discovery(run, k).Err? then k.answer else k.keys
       case Automatic =>
         && run.events[to] == Defer(c) && Did(run, k.answer, k.sample, to, SampleClock(c))
         && !MayServeStale(run.states[to].provider, run.states[k.sample].clock)
  }

  ghost predicate Returns(run: Run, from: nat, to: nat, c: Caller, kind: Kind, k: Marks, outcome: Outcome)
    requires from < to < |run.events| < |run.states|
  {
    match outcome
    case Fetched(metadata) => ReturnsFetched(run, from, to, c, kind, k, metadata)
    case Served(snapshot, at) => kind.Automatic? && ReturnsServed(run, from, to, c, k, snapshot, at)
    case Reported => ReturnsReported(run, from, to, c, kind, k)
  }

  lemma PublishReturns(run: Run, from: nat, to: nat, c: Caller, kind: Kind, k: Marks, parseDate: CachePolicy.DateParser)
    requires IsRun(run, parseDate) && from < to < |run.events| && run.events[to].Publish? && run.events[to].c == c
    requires Phase(run, from, to, c, kind, k)
    ensures Returned(run, to, c).Some? && Returns(run, from, to, c, kind, k, Returned(run, to, c).value)
  {
    assert StepsAt(run, to, parseDate);
  }

  lemma DeferReturns(run: Run, from: nat, to: nat, c: Caller, kind: Kind, k: Marks, parseDate: CachePolicy.DateParser)
    requires IsRun(run, parseDate) && from < to < |run.events| && run.events[to] == Defer(c)
    requires Phase(run, from, to, c, kind, k)
    ensures Returned(run, to, c).Some? && Returns(run, from, to, c, kind, k, Returned(run, to, c).value)
  {
    assert StepsAt(run, to, parseDate);
  }

  lemma CheckReturns(run: Run, from: nat, to: nat, c: Caller, kind: Kind, k: Marks, parseDate: CachePolicy.DateParser)
    requires IsRun(run, parseDate) && from < to < |run.events| && run.events[to] in {Check(c), Recheck(c)}
    requires Phase(run, from, to, c, kind, k) && Returned(run, to, c).Some?
    ensures Returns(run, from, to, c, kind, k, Returned(run, to, c).value)
  {
    assert StepsAt(run, to, parseDate);
  }

  lemma AnswerReturns(run: Run, from: nat, to: nat, c: Caller, kind: Kind, k: Marks, parseDate: CachePolicy.DateParser)
    requires IsRun(run, parseDate) && from < to < |run.events|
    requires run.events[to].Answer? || run.events[to].KeysAnswer?
    requires run.events[to].c == c && Phase(run, from, to, c, kind, k) && Returned(run, to, c).Some?
    ensures Returns(run, from, to, c, kind, Marked(k, run.events[to], to), Returned(run, to, c).value)
  {
    assert StepsAt(run, to, parseDate);
  }

  /** Whatever others do in between, a call returns what it would return alone: a forced one always asks the provider,
      and an automatic one exactly if the two snapshots that it looks at need a refresh. */
  lemma CallReturns(run: Run, from: nat, to: nat, c: Caller, kind: Kind, parseDate: CachePolicy.DateParser)
    returns (k: Marks)
    requires IsRun(run, parseDate) && IsCall(run, from, to, c, kind)
    ensures Returns(run, from, to, c, kind, k, Returned(run, to, c).value)
  {
    k := PhaseAt(run, from, to, to, c, kind, parseDate);
    match run.events[to] {
      case Publish(_, _) => PublishReturns(run, from, to, c, kind, k, parseDate);
      case Defer(_) => DeferReturns(run, from, to, c, kind, k, parseDate);
      case Check(_) => CheckReturns(run, from, to, c, kind, k, parseDate);
      case Recheck(_) => CheckReturns(run, from, to, c, kind, k, parseDate);
      case Answer(_, _) =>
        AnswerReturns(run, from, to, c, kind, k, parseDate);
        k := Marked(k, run.events[to], to);
      case KeysAnswer(_, _) =>
        AnswerReturns(run, from, to, c, kind, k, parseDate);
        k := Marked(k, run.events[to], to);
    }
  }

  /** Before it returns, a call leaves the snapshot alone. */
  lemma CallLeavesSnapshot(run: Run, from: nat, to: nat, c: Caller, kind: Kind, n: nat,
                           parseDate: CachePolicy.DateParser)
    requires IsRun(run, parseDate) && IsCall(run, from, to, c, kind) && from <= n < to && Acts(run.events[n], c)
    ensures run.states[n + 1].provider == run.states[n].provider
  {
    assert StepsAt(run, n, parseDate);
    assert n == from || Returned(run, n, c) == None;
    OthersLeaveSnapshot(run.states[n], run.events[n], parseDate);
  }
}
