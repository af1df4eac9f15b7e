/** Client instances that share one store, each with its own metadata cache (src/client.rs).

    The completion of an authorization first refreshes the metadata of its instance: it is one of the callers
    of that instance's refresh machine, and goes on with what the machine returns to it. Every instance has a
    clock of its own. */
module Instances {
  import opened Wrappers
  import opened CachePolicy
  import opened Metadata
  import Flow = Completion
  import Cache = RefreshRuns

  datatype Instance = Instance(client: Flow.ClientConfig, cache: Cache.State)

  /** A completion that waits for metadata, or has been given its outcome. */
  datatype Task = Task(home: nat, outcome: Option<Cache.Outcome>)

  /** Which instance sent a token request, and what its metadata came from. */
  datatype Origin = Origin(home: nat, outcome: Cache.Outcome)

  datatype State = State(
    shared: Flow.State,
    instances: map<nat, Instance>,
    tasks: map<nat, Task>,
    origins: seq<Origin>)

  datatype Event =
    | Shared(flow: Flow.Event)
    | Begin(c: nat, home: nat)
    | Refresh(home: nat, step: Cache.Event)
    | Finish(c: nat)

  function MetadataOf(outcome: Cache.Outcome): Option<ProviderMetadata> {
    match outcome
    case Served(snapshot, _) => Some(snapshot.metadata)
    case Fetched(metadata) => Some(metadata)
    case Reported => None
  }

  /** The step is one of the completion's calls to refresh the metadata of its instance. */
  predicate StepOf(s: State, home: nat, step: Cache.Event) {
    !step.Tick? && !step.Setter? && step.c in s.tasks && s.tasks[step.c].home == home
  }

  function FinishOf(s: State, c: nat): Flow.Event
    requires c in s.tasks && s.tasks[c].home in s.instances && s.tasks[c].outcome.Some?
  {
    Flow.Finish(c, s.instances[s.tasks[c].home].client, MetadataOf(s.tasks[c].outcome.value))
  }

  predicate Enabled(s: State, e: Event) {
    match e
    case Shared(flow) => !flow.Finish? && Flow.Enabled(s.shared, flow)
    case Begin(c, home) =>
      && c in s.shared.completions && s.shared.completions[c].Bound? && c !in s.tasks
      && home in s.instances && Cache.Enabled(s.instances[home].cache, Cache.CloneSnapshot(c))
    case Refresh(home, step) =>
      && home in s.instances && Cache.Enabled(s.instances[home].cache, step)
      && (StepOf(s, home, step) ==> s.tasks[step.c].outcome.None?)
    case Finish(c) =>
      && c in s.tasks && s.tasks[c].home in s.instances && s.tasks[c].outcome.Some?
      && Flow.Enabled(s.shared, FinishOf(s, c))
  }

  function Stepped(s: State, home: nat, step: Cache.Event, parseDate: DateParser): map<nat, Instance>
    requires home in s.instances && Cache.Enabled(s.instances[home].cache, step)
  {
    var instance := s.instances[home];
    s.instances[home := instance.(cache := Cache.Apply(instance.cache, step, parseDate))]
  }

  ghost function Apply(s: State, e: Event, codecs: Flow.Codecs, parseDate: DateParser): State
    requires Enabled(s, e)
  {
    match e
    case Shared(flow) => s.(shared := Flow.Apply(s.shared, flow, codecs))
    case Begin(c, home) =>
      s.(instances := Stepped(s, home, Cache.CloneSnapshot(c), parseDate), tasks := s.tasks[c := Task(home, None)])
    case Refresh(home, step) =>
      var t := s.(instances := Stepped(s, home, step, parseDate));
      if StepOf(s, home, step) then
        t.(tasks := s.tasks[step.c := Task(home, Cache.OutcomeOf(s.instances[home].cache, step))])
      else t
    case Finish(c) =>
      var shared := Flow.Apply(s.shared, FinishOf(s, c), codecs);
      var sent := |shared.exchanges| > |s.shared.exchanges|;
      s.(shared := shared, tasks := s.tasks - {c},
         origins := s.origins + if sent then [Origin(s.tasks[c].home, s.tasks[c].outcome.value)] else [])
  }

  /** Any number of new clients, and an empty store. */
  ghost predicate Fresh(s: State) {
    && s.shared == Flow.INITIAL && s.tasks == map[] && s.origins == []
    && forall i :: i in s.instances ==> Cache.Initial(s.instances[i].cache)
  }

  /** The events of a run and the states before, between and after them. */
  datatype Run = Run(states: seq<State>, events: seq<Event>) {
    predicate Fits() {
      |states| == |events| + 1
    }

    function First(): State
      requires Fits()
    {
      states[0]
    }

    function Last(): State
      requires Fits()
    {
      states[|events|]
    }

    function Tail(): Run
      requires Fits() && events != []
    {
      Run(states[1..], events[1..])
    }

    function Prefix(n: nat): Run
      requires Fits() && n <= |events|
    {
      Run(states[..n + 1], events[..n])
    }
  }

  ghost predicate StepsAt(run: Run, n: nat, codecs: Flow.Codecs, parseDate: DateParser)
    requires run.Fits() && n < |run.events|
  {
    && Enabled(run.states[n], run.events[n])
    && run.states[n + 1] == Apply(run.states[n], run.events[n], codecs, parseDate)
  }

  ghost predicate IsRun(run: Run, codecs: Flow.Codecs, parseDate: DateParser) {
    run.Fits() && forall n: nat :: n < |run.events| ==> StepsAt(run, n, codecs, parseDate)
  }

  lemma TailRuns(run: Run, codecs: Flow.Codecs, parseDate: DateParser)
    requires IsRun(run, codecs, parseDate) && run.events != []
    ensures IsRun(run.Tail(), codecs, parseDate) && run.Tail().Last() == run.Last()
  {
    forall n: nat | n < |run.Tail().events| ensures StepsAt(run.Tail(), n, codecs, parseDate) {
      assert StepsAt(run, n + 1, codecs, parseDate);
    }
  }

  lemma PrefixRuns(run: Run, n: nat, codecs: Flow.Codecs, parseDate: DateParser)
    requires IsRun(run, codecs, parseDate) && n <= |run.events|
    ensures IsRun(run.Prefix(n), codecs, parseDate) && run.Prefix(n).Last() == run.states[n]
  {
    forall k: nat | k < n ensures StepsAt(run.Prefix(n), k, codecs, parseDate) {
      assert StepsAt(run, k, codecs, parseDate);
    }
  }

  // A composed run is a run of each of its parts

  function FlowPart(s: State, e: Event): seq<Flow.Event>
    requires Enabled(s, e)
  {
    match e
    case Shared(flow) => [flow]
    case Finish(c) => [FinishOf(s, c)]
    case _ => []
  }

  function CachePart(e: Event, i: nat): seq<Cache.Event> {
    match e
    case Begin(c, home) => if home == i then [Cache.CloneSnapshot(c)] else []
    case Refresh(home, step) => if home == i then [step] else []
    case _ => []
  }

  ghost function FlowEvents(run: Run, codecs: Flow.Codecs, parseDate: DateParser): seq<Flow.Event>
    requires IsRun(run, codecs, parseDate)
    decreases |run.events|
  {
    if run.events == [] then []
    else
      TailRuns(run, codecs, parseDate);
      assert StepsAt(run, 0, codecs, parseDate);
      FlowPart(run.states[0], run.events[0]) + FlowEvents(run.Tail(), codecs, parseDate)
  }

  function CacheEvents(events: seq<Event>, i: nat): seq<Cache.Event> {
    if events == [] then [] else CachePart(events[0], i) + CacheEvents(events[1..], i)
  }

  lemma FlowRunCons(s: Flow.State, part: seq<Flow.Event>, rest: seq<Flow.Event>, codecs: Flow.Codecs)
    requires |part| <= 1 && Flow.ValidRun(s, part, codecs)
    requires Flow.ValidRun(Flow.Final(s, part, codecs), rest, codecs)
    ensures Flow.ValidRun(s, part + rest, codecs)
    ensures Flow.Final(s, part + rest, codecs) == Flow.Final(Flow.Final(s, part, codecs), rest, codecs)
  {
    if part == [] {
      assert part + rest == rest;
    } else {
      assert part + rest == [part[0]] + rest;
      assert ([part[0]] + rest)[1..] == rest && part[1..] == [];
      assert Flow.Final(s, part, codecs) == Flow.Apply(s, part[0], codecs);
    }
  }

  lemma CacheRunCons(s: Cache.State, part: seq<Cache.Event>, rest: seq<Cache.Event>, parseDate: DateParser)
    requires |part| <= 1 && Cache.ValidRun(s, part, parseDate)
    requires Cache.ValidRun(Cache.Final(s, part, parseDate), rest, parseDate)
    ensures Cache.ValidRun(s, part + rest, parseDate)
    ensures Cache.Final(s, part + rest, parseDate) == Cache.Final(Cache.Final(s, part, parseDate), rest, parseDate)
  {
    if part == [] {
      assert part + rest == rest;
    } else {
      assert part + rest == [part[0]] + rest;
      assert ([part[0]] + rest)[1..] == rest && part[1..] == [];
      assert Cache.Final(s, part, parseDate) == Cache.Apply(s, part[0], parseDate);
    }
  }

  lemma FlowStep(s: State, e: Event, codecs: Flow.Codecs, parseDate: DateParser)
    requires Enabled(s, e)
    ensures |FlowPart(s, e)| <= 1 && Flow.ValidRun(s.shared, FlowPart(s, e), codecs)
    ensures Flow.Final(s.shared, FlowPart(s, e), codecs) == Apply(s, e, codecs, parseDate).shared
  {
  }

  lemma CacheStep(s: State, e: Event, i: nat, codecs: Flow.Codecs, parseDate: DateParser)
    requires Enabled(s, e) && i in s.instances
    ensures var t := Apply(s, e, codecs, parseDate);
      && i in t.instances && t.instances[i].client == s.instances[i].client
      && |CachePart(e, i)| <= 1 && Cache.ValidRun(s.instances[i].cache, CachePart(e, i), parseDate)
      && Cache.Final(s.instances[i].cache, CachePart(e, i), parseDate) == t.instances[i].cache
  {
  }

  /** The store and the completions see a run of their own machine. */
  lemma {:induction false} FlowRun(run: Run, codecs: Flow.Codecs, parseDate: DateParser)
    requires IsRun(run, codecs, parseDate)
    ensures var steps := FlowEvents(run, codecs, parseDate);
      && Flow.ValidRun(run.First().shared, steps, codecs)
      && Flow.Final(run.First().shared, steps, codecs) == run.Last().shared
    decreases |run.events|
  {
    if run.events == [] {
    } else {
      TailRuns(run, codecs, parseDate);
      FlowRun(run.Tail(), codecs, parseDate);
      assert StepsAt(run, 0, codecs, parseDate);
      FlowStep(run.states[0], run.events[0], codecs, parseDate);
      FlowRunCons(run.states[0].shared, FlowPart(run.states[0], run.events[0]),
                  FlowEvents(run.Tail(), codecs, parseDate), codecs);
    }
  }

  /** Each instance sees a run of the refresh machine, so all that holds of such runs holds of every instance. */
  lemma {:induction false} CacheRun(run: Run, i: nat, codecs: Flow.Codecs, parseDate: DateParser)
    requires IsRun(run, codecs, parseDate) && i in run.First().instances
    ensures var before, after, steps := run.First().instances, run.Last().instances, CacheEvents(run.events, i);
      && i in after && after[i].client == before[i].client
      && Cache.ValidRun(before[i].cache, steps, parseDate)
      && Cache.Final(before[i].cache, steps, parseDate) == after[i].cache
    decreases |run.events|
  {
    if run.events == [] {
    } else {
      TailRuns(run, codecs, parseDate);
      assert StepsAt(run, 0, codecs, parseDate);
      CacheStep(run.states[0], run.events[0], i, codecs, parseDate);
      CacheRun(run.Tail(), i, codecs, parseDate);
      CacheRunCons(run.states[0].instances[i].cache, CachePart(run.events[0], i), CacheEvents(run.events[1..], i),
                   parseDate);
    }
  }

  /** Nor does refreshing in between let any put be exchanged twice, or for another than it stored. */
  lemma ComposedExchangesAreGenuine(run: Run, codecs: Flow.Codecs, parseDate: DateParser)
    requires IsRun(run, codecs, parseDate) && Fresh(run.First())
    ensures
      var shared := run.Last().shared;
      && (forall k :: 0 <= k < |shared.exchanges| ==>
            Flow.GenuineExchange(shared.exchanges[k], shared.commits, codecs))
      && (forall j, k :: 0 <= j < k < |shared.exchanges| ==> shared.exchanges[j].id != shared.exchanges[k].id)
  {
    FlowRun(run, codecs, parseDate);
    Flow.AtMostOneExchangePerPut(FlowEvents(run, codecs, parseDate), codecs);
  }

  lemma SameInstances(run: Run, n: nat, codecs: Flow.Codecs, parseDate: DateParser)
    requires IsRun(run, codecs, parseDate) && n < |run.events|
    ensures run.states[n + 1].instances.Keys == run.states[n].instances.Keys
  {
    assert StepsAt(run, n, codecs, parseDate);
  }

  lemma {:induction false} InstancesStay(run: Run, n: nat, codecs: Flow.Codecs, parseDate: DateParser)
    requires IsRun(run, codecs, parseDate) && n <= |run.events|
    ensures run.states[n].instances.Keys == run.First().instances.Keys
  {
    if n == 0 {
    } else {
      InstancesStay(run, n - 1, codecs, parseDate);
      SameInstances(run, n - 1, codecs, parseDate);
    }
  }

  /** An instance has its client and its issuer from the start, and its machine keeps its invariant. */
  lemma InstanceAt(run: Run, n: nat, i: nat, codecs: Flow.Codecs, parseDate: DateParser)
    requires IsRun(run, codecs, parseDate) && Fresh(run.First()) && n <= |run.events|
    requires i in run.states[n].instances
    ensures i in run.First().instances
    ensures var now, built := run.states[n].instances[i], run.First().instances[i];
      && now.client == built.client
      && now.cache.provider.metadata.issuer == built.cache.provider.metadata.issuer
      && Cache.Inv(now.cache)
  {
    InstancesStay(run, n, codecs, parseDate);
    PrefixRuns(run, n, codecs, parseDate);
    CacheRun(run.Prefix(n), i, codecs, parseDate);
    var steps, cache := CacheEvents(run.events[..n], i), run.First().instances[i].cache;
    Cache.InitialInv(cache);
    Cache.RunKeepsInv(cache, steps, parseDate);
    Cache.IssuerNeverChanges(cache, steps, parseDate);
  }

  // The history of a completion

  /** The completion does not finish from event n to just before event m. */
  ghost predicate Unfinished(run: Run, c: nat, n: nat, m: nat)
    requires m <= |run.events|
  {
    forall j :: n <= j < m ==> run.events[j] != Finish(c)
  }

  /** Before event m the completion has called for metadata at event l, and has not finished since. */
  ghost predicate BegunAt(run: Run, l: nat, m: nat, c: nat, home: nat)
    requires m <= |run.events|
  {
    l < m && run.events[l] == Begin(c, home) && Unfinished(run, c, l + 1, m)
  }

  /** Event n is the step of the refresh machine that returned the outcome to the completion, before event m. */
  ghost predicate ReturnedAt(run: Run, n: nat, m: nat, c: nat, origin: Origin)
    requires run.Fits() && m <= |run.events|
  {
    && n < m && run.events[n].Refresh? && run.events[n].home == origin.home
    && Unfinished(run, c, n, m)
    && Enabled(run.states[n], run.events[n])
    && StepOf(run.states[n], origin.home, run.events[n].step) && run.events[n].step.c == c
    && Cache.OutcomeOf(run.states[n].instances[origin.home].cache, run.events[n].step) == Some(origin.outcome)
  }

  /** Event m is the end of the completion, which sent the token request. */
  ghost predicate SentAt(run: Run, m: nat, c: nat, origin: Origin, x: Flow.Exchange)
    requires run.Fits()
  {
    && m < |run.events| && run.events[m] == Finish(c)
    && c in run.states[m].tasks && run.states[m].tasks[c] == Task(origin.home, Some(origin.outcome))
    && run.states[m + 1].shared.exchanges == run.states[m].shared.exchanges + [x]
  }

  lemma TaskStep(run: Run, n: nat, c: nat, codecs: Flow.Codecs, parseDate: DateParser)
    requires IsRun(run, codecs, parseDate) && n < |run.events| && c in run.states[n + 1].tasks
    ensures run.events[n] != Finish(c)
    ensures var s, e, task := run.states[n], run.events[n], run.states[n + 1].tasks[c];
      && (e == Begin(c, task.home) || (c in s.tasks && s.tasks[c].home == task.home))
      && (task.outcome.Some? ==>
            || (c in s.tasks && s.tasks[c] == task)
            || ReturnedAt(run, n, n + 1, c, Origin(task.home, task.outcome.value)))
  {
    assert StepsAt(run, n, codecs, parseDate);
  }

  /** Whatever a step of a completion's call returns is handed to that completion, and to no other. */
  lemma OutcomeIsHandedOver(s: State, home: nat, step: Cache.Event, c: nat, codecs: Flow.Codecs, parseDate: DateParser)
    requires Enabled(s, Refresh(home, step)) && c in s.tasks
    ensures var t := Apply(s, Refresh(home, step), codecs, parseDate);
      && c in t.tasks && t.tasks[c].home == s.tasks[c].home
      && t.tasks[c].outcome
         == if s.tasks[c].home == home && Cache.Acts(step, c) then Cache.OutcomeOf(s.instances[home].cache, step)
            else s.tasks[c].outcome
  {
  }

  /** A completion that has called for metadata did so at some event l. */
  lemma {:induction false} TaskHistory(run: Run, m: nat, c: nat, codecs: Flow.Codecs, parseDate: DateParser)
    returns (l: nat)
    requires IsRun(run, codecs, parseDate) && Fresh(run.First())
    requires m <= |run.events| && c in run.states[m].tasks
    ensures BegunAt(run, l, m, c, run.states[m].tasks[c].home)
  {
    TaskStep(run, m - 1, c, codecs, parseDate);
    if run.events[m - 1] == Begin(c, run.states[m].tasks[c].home) {
      l := m - 1;
    } else {
      l := TaskHistory(run, m - 1, c, codecs, parseDate);
    }
  }

  /** What a completion has been given was returned to it at some event n. */
  lemma {:induction false} OutcomeHistory(run: Run, m: nat, c: nat, codecs: Flow.Codecs, parseDate: DateParser)
    returns (n: nat)
    requires IsRun(run, codecs, parseDate) && Fresh(run.First())
    requires m <= |run.events| && c in run.states[m].tasks && run.states[m].tasks[c].outcome.Some?
    ensures var Task(home, outcome) := run.states[m].tasks[c]; ReturnedAt(run, n, m, c, Origin(home, outcome.value))
  {
    TaskStep(run, m - 1, c, codecs, parseDate);
    if c in run.states[m - 1].tasks && run.states[m - 1].tasks[c] == run.states[m].tasks[c] {
      n := OutcomeHistory(run, m - 1, c, codecs, parseDate);
    } else {
      n := m - 1;
    }
  }

  /** A step leaves origins and token requests alone, or adds one of each. */
  lemma OriginStep(run: Run, n: nat, codecs: Flow.Codecs, parseDate: DateParser)
    requires IsRun(run, codecs, parseDate) && n < |run.events|
    ensures var s, e, t := run.states[n], run.events[n], run.states[n + 1];
      || (t.origins == s.origins && t.shared.exchanges == s.shared.exchanges)
      || (&& e.Finish? && |t.origins| == |s.origins| + 1 && |t.shared.exchanges| == |s.shared.exchanges| + 1
          && s.origins <= t.origins && s.shared.exchanges <= t.shared.exchanges
          && SentAt(run, n, e.c, t.origins[|s.origins|], t.shared.exchanges[|s.shared.exchanges|]))
  {
    var s, e := run.states[n], run.events[n];
    assert StepsAt(run, n, codecs, parseDate);
    match e {
      case Shared(flow) => Flow.OnlyFinishSends(s.shared, flow, codecs);
      case Finish(c) => Flow.OnlyFinishSends(s.shared, FinishOf(s, c), codecs);
      case Begin(_, _) =>
      case Refresh(_, _) =>
    }
  }

  lemma {:induction false} OriginsMatch(run: Run, n: nat, codecs: Flow.Codecs, parseDate: DateParser)
    requires IsRun(run, codecs, parseDate) && Fresh(run.First()) && n <= |run.events|
    ensures |run.states[n].origins| == |run.states[n].shared.exchanges|
  {
    if n == 0 {
    } else {
      OriginsMatch(run, n - 1, codecs, parseDate);
      OriginStep(run, n - 1, codecs, parseDate);
    }
  }

  /** Every token request was sent at some event. */
  lemma {:induction false} SentHistory(run: Run, n: nat, k: nat, codecs: Flow.Codecs, parseDate: DateParser)
    returns (m: nat, c: nat)
    requires IsRun(run, codecs, parseDate) && Fresh(run.First())
    requires n <= |run.events| && k < |run.states[n].origins|
    ensures k < |run.states[n].shared.exchanges|
    ensures SentAt(run, m, c, run.states[n].origins[k], run.states[n].shared.exchanges[k])
  {
    OriginsMatch(run, n - 1, codecs, parseDate);
    OriginStep(run, n - 1, codecs, parseDate);
    if k < |run.states[n - 1].origins| {
      m, c := SentHistory(run, n - 1, k, codecs, parseDate);
    } else {
      m, c := n - 1, run.events[n - 1].c;
    }
  }

  // Where the metadata of a token request comes from

  /** What a refresh returns at one of its steps, under the issuer fixed at construction: a snapshot that is
      admissible by the clock of the machine, read at that step or before its last one, or metadata that the step
      publishes. */
  ghost predicate Sound(cache: Cache.State, step: Cache.Event, outcome: Cache.Outcome, issuer: string,
                        parseDate: DateParser)
    requires Cache.Enabled(cache, step)
  {
    match outcome
    case Served(snapshot, at) =>
      && Cache.Admissible(snapshot, at) && at <= cache.clock && (at == cache.clock || step.Defer?)
      && snapshot.metadata.issuer == issuer && snapshot.metadata.Valid()
    case Fetched(metadata) =>
      && step.Publish? && Cache.Apply(cache, step, parseDate).provider.metadata == metadata
      && metadata.issuer == issuer && metadata.Valid()
    case Reported => true
  }

  lemma OutcomeIsSound(s: Cache.State, e: Cache.Event, parseDate: DateParser)
    requires Cache.Inv(s) && Cache.Enabled(s, e) && Cache.OutcomeOf(s, e).Some?
    ensures Sound(s, e, Cache.OutcomeOf(s, e).value, s.provider.metadata.issuer, parseDate)
  {
    match Cache.OutcomeOf(s, e).value {
      case Served(snapshot, at) => Cache.ServedIsAdmissible(s, e, snapshot, at);
      case Fetched(_) => assert Cache.PcInv(s, e.c);
      case Reported =>
    }
  }

  /** The event begins an automatic call of the instance's machine, with the snapshot that there is. */
  ghost predicate CallsAt(run: Run, l: nat, c: nat, home: nat)
    requires run.Fits() && l < |run.events|
  {
    && home in run.states[l].instances && home in run.states[l + 1].instances
    && Cache.PcOf(run.states[l + 1].instances[home].cache, c)
       == Cache.Checking(run.states[l].instances[home].cache.provider)
  }

  lemma BeginCalls(run: Run, l: nat, m: nat, c: nat, home: nat, codecs: Flow.Codecs, parseDate: DateParser)
    requires IsRun(run, codecs, parseDate) && m <= |run.events| && BegunAt(run, l, m, c, home)
    ensures CallsAt(run, l, c, home)
  {
    assert StepsAt(run, l, codecs, parseDate);
  }

  /** A completion holds what a step of its own call to its instance's refresh machine returned to it. */
  ghost predicate Given(run: Run, l: nat, n: nat, m: nat, c: nat, origin: Origin, parseDate: DateParser)
    requires run.Fits()
  {
    && l < n < m <= |run.events|
    && BegunAt(run, l, m, c, origin.home) && CallsAt(run, l, c, origin.home)
    && ReturnedAt(run, n, m, c, origin)
    && origin.home in run.First().instances
    && Sound(run.states[n].instances[origin.home].cache, run.events[n].step, origin.outcome,
             run.First().instances[origin.home].cache.provider.metadata.issuer, parseDate)
  }

  lemma GivenBefore(run: Run, m: nat, c: nat, codecs: Flow.Codecs, parseDate: DateParser) returns (l: nat, n: nat)
    requires IsRun(run, codecs, parseDate) && Fresh(run.First())
    requires m <= |run.events| && c in run.states[m].tasks && run.states[m].tasks[c].outcome.Some?
    ensures var Task(home, outcome) := run.states[m].tasks[c];
      Given(run, l, n, m, c, Origin(home, outcome.value), parseDate)
  {
    n := OutcomeHistory(run, m, c, codecs, parseDate);
    l := TaskHistory(run, n, c, codecs, parseDate);
    var home := run.states[m].tasks[c].home;
    BeginCalls(run, l, n, c, home, codecs, parseDate);
    InstanceAt(run, n, home, codecs, parseDate);
    OutcomeIsSound(run.states[n].instances[home].cache, run.events[n].step, parseDate);
  }

  /** The token request of the instance's client for the metadata of the outcome, from the issuer that the instance
      was built with. */
  ghost predicate Own(x: Flow.Exchange, origin: Origin, instances: map<nat, Instance>, codecs: Flow.Codecs) {
    && origin.home in instances
    && var Instance(client, cache) := instances[origin.home];
    var issuer := cache.provider.metadata.issuer;
    && MetadataOf(origin.outcome) == Some(x.metadata) && x.client == client
    && Flow.CompleteFromPending(client, x.metadata, x.response, x.pending, x.wall, codecs.base64) == Ok(x.request)
    && x.metadata.issuer == issuer && (x.response.iss.Some? ==> x.response.iss.value == issuer)
  }

  /** The whole story of a token request: completion c called for metadata at event l, was given the outcome at
      event n, and sent the request at event m. */
  ghost predicate Traced(run: Run, origin: Origin, x: Flow.Exchange, l: nat, n: nat, m: nat, c: nat,
                         codecs: Flow.Codecs, parseDate: DateParser)
    requires run.Fits()
  {
    && Given(run, l, n, m, c, origin, parseDate)
    && SentAt(run, m, c, origin, x)
    && Own(x, origin, run.First().instances, codecs)
  }

  ghost predicate HasTrace(run: Run, origin: Origin, x: Flow.Exchange, codecs: Flow.Codecs, parseDate: DateParser)
    requires run.Fits()
  {
    exists l: nat, n: nat, m: nat, c: nat :: Traced(run, origin, x, l, n, m, c, codecs, parseDate)
  }

  lemma SentByFinish(run: Run, m: nat, c: nat, origin: Origin, x: Flow.Exchange, codecs: Flow.Codecs,
                     parseDate: DateParser)
    requires IsRun(run, codecs, parseDate) && SentAt(run, m, c, origin, x)
    ensures origin.home in run.states[m].instances
    ensures var s := run.states[m];
      var finish := Flow.Finish(c, s.instances[origin.home].client, MetadataOf(origin.outcome));
      Flow.Enabled(s.shared, finish) && Flow.Apply(s.shared, finish, codecs).exchanges == s.shared.exchanges + [x]
  {
    assert StepsAt(run, m, codecs, parseDate);
  }

  lemma SentIsOwn(run: Run, m: nat, c: nat, origin: Origin, x: Flow.Exchange, codecs: Flow.Codecs,
                  parseDate: DateParser)
    requires IsRun(run, codecs, parseDate) && SentAt(run, m, c, origin, x)
    requires origin.home in run.First().instances && origin.home in run.states[m].instances
    requires var now, built := run.states[m].instances[origin.home], run.First().instances[origin.home];
      && now.client == built.client
      && (MetadataOf(origin.outcome).Some?
          ==> MetadataOf(origin.outcome).value.issuer == built.cache.provider.metadata.issuer)
    ensures Own(x, origin, run.First().instances, codecs)
  {
    SentByFinish(run, m, c, origin, x, codecs, parseDate);
    Flow.SentIsComplete(run.states[m].shared, c, run.First().instances[origin.home].client, MetadataOf(origin.outcome),
                        x, codecs);
  }

  lemma EachHasTrace(run: Run, k: nat, codecs: Flow.Codecs, parseDate: DateParser)
    requires IsRun(run, codecs, parseDate) && Fresh(run.First()) && k < |run.Last().origins|
    ensures k < |run.Last().shared.exchanges|
    ensures HasTrace(run, run.Last().origins[k], run.Last().shared.exchanges[k], codecs, parseDate)
  {
    var m, c := SentHistory(run, |run.events|, k, codecs, parseDate);
    var l, n := GivenBefore(run, m, c, codecs, parseDate);
    var origin, x := run.Last().origins[k], run.Last().shared.exchanges[k];
    InstancesStay(run, m, codecs, parseDate);
    InstanceAt(run, m, origin.home, codecs, parseDate);
    SentIsOwn(run, m, c, origin, x, codecs, parseDate);
    assert Traced(run, origin, x, l, n, m, c, codecs, parseDate);
  }

  /** In every run of any number of instances with their own metadata caches over one store, every token request
      was made with the client of one instance, and with metadata that a step of its refresh machine returned to the
      very completion that sent the request, within its one call: metadata that the step published, or a snapshot
      admissible by that machine's clock. Its issuer, and that of the response if it names one, is the issuer
      fixed when the instance was built. */
  lemma EveryExchangeIsOwn(run: Run, codecs: Flow.Codecs, parseDate: DateParser)
    requires IsRun(run, codecs, parseDate) && Fresh(run.First())
    ensures
      var end := run.Last();
      && |end.origins| == |end.shared.exchanges|
      && forall k :: 0 <= k < |end.origins| ==>
           HasTrace(run, end.origins[k], end.shared.exchanges[k], codecs, parseDate)
  {
    OriginsMatch(run, |run.events|, codecs, parseDate);
    forall k | 0 <= k < |run.Last().origins|
      ensures HasTrace(run, run.Last().origins[k], run.Last().shared.exchanges[k], codecs, parseDate)
    {
      EachHasTrace(run, k, codecs, parseDate);
    }
  }
}
