/** The process-local store behind the second leg (src/transport/kv.rs).

    An operation reads the clock outside its critical section: before it when storing, after it when
    taking. The store never looks inside a value. */
module KvStore {
  import opened Wrappers
  import opened Time

  datatype KvError = InvalidTtl

  datatype Entry<V> = Entry(value: V, expiresAt: Instant)

  type Entries<V> = map<string, Entry<V>>

  /** When a value stored at `now` expires; a zero or unrepresentable lifetime is refused. */
  function Expiry(now: Instant, ttl: Duration): Option<Instant> {
    if ttl == 0 then None else CheckedAdd(now, ttl)
  }

  function Prune<V>(entries: Entries<V>, now: Instant): Entries<V> {
    map key | key in entries && entries[key].expiresAt > now :: entries[key]
  }

  /** The critical section of `put_if_absent`, with the clock reading made before it. */
  function Insert<V>(entries: Entries<V>, key: string, entry: Entry<V>, now: Instant): (Entries<V>, bool) {
    var kept := Prune(entries, now);
    if key in kept then (kept, false) else (kept[key := entry], true)
  }

  /** The critical section of `take`: the entries left and the one removed. */
  function Remove<V>(entries: Entries<V>, key: string): (Entries<V>, Option<Entry<V>>) {
    (entries - {key}, if key in entries then Some(entries[key]) else None)
  }

  function Unexpired<V>(entry: Option<Entry<V>>, now: Instant): Option<V> {
    if entry.Some? && entry.value.expiresAt > now then Some(entry.value.value) else None
  }

  class InMemoryKvStore<V> {
    var entries: Entries<V>

    constructor ()
      ensures entries == map[]
    {
      entries := map[];
    }

    method PutIfAbsent(key: string, value: V, ttl: Duration, now: Instant) returns (r: Result<bool, KvError>)
      modifies this
      ensures r.Err? <==> ttl == 0 || now + ttl > MAX_INSTANT
      ensures r.Err? ==> entries == old(entries)
      ensures r.Ok? ==> (entries, r.value) == Insert(old(entries), key, Entry(value, now + ttl), now)
    {
      if ttl == 0 {
        return Err(InvalidTtl);
      }
      var expiresAt := CheckedAdd(now, ttl);
      if expiresAt.None? {
        return Err(InvalidTtl);
      }
      entries := Prune(entries, now);
      if key in entries {
        return Ok(false);
      }
      entries := entries[key := Entry(value, expiresAt.value)];
      return Ok(true);
    }

    /** `now` is read after the entry has left the store. */
    method Take(key: string, now: Instant) returns (r: Option<V>)
      modifies this
      ensures entries == old(entries) - {key}
      ensures r.Some? <==> key in old(entries) && now < old(entries)[key].expiresAt
      ensures r.Some? ==> r.value == old(entries)[key].value
    {
      var removed := None;
      if key in entries {
        removed := Some(entries[key]);
        entries := entries - {key};
      }
      return Unexpired(removed, now);
    }
  }

  // Histories of concurrent calls, in the order of their critical sections

  /** `at` is the time of the critical section. */
  datatype Op<V> =
    | Put(key: string, value: V, ttl: Duration, sampled: Instant, at: Instant)
    | Take(key: string, at: Instant, checked: Instant)

  datatype Reply<V> = Refused | Stored(created: bool) | Gave(value: Option<V>)

  function Step<V>(entries: Entries<V>, op: Op<V>): (Entries<V>, Reply<V>) {
    match op
    case Put(key, value, ttl, sampled, _) =>
      (match Expiry(sampled, ttl)
       case None => (entries, Refused)
       case Some(expiresAt) =>
         var (after, created) := Insert(entries, key, Entry(value, expiresAt), sampled);
         (after, Stored(created)))
    case Take(key, _, checked) =>
      var (after, removed) := Remove(entries, key);
      (after, Gave(Unexpired(removed, checked)))
  }

  /** A call reads the clock between its start and its critical section, or after that. */
  predicate WellTimed<V>(op: Op<V>) {
    match op
    case Put(_, _, _, sampled, at) => sampled <= at
    case Take(_, at, checked) => at <= checked
  }

  ghost predicate Legal<V>(ops: seq<Op<V>>) {
    && (forall i :: 0 <= i < |ops| ==> WellTimed(ops[i]))
    && (forall i, j :: 0 <= i < j < |ops| ==> ops[i].at <= ops[j].at)
  }

  // The ideal store: a timed map that never prunes

  /** The ideal store judges expiry at one instant. */
  function IdealStep<V>(entries: Entries<V>, op: Op<V>, instant: Instant): (Entries<V>, Reply<V>) {
    match op
    case Put(key, value, ttl, sampled, _) =>
      (match Expiry(sampled, ttl)
       case None => (entries, Refused)
       case Some(expiresAt) =>
         if key in entries && entries[key].expiresAt > instant then (entries, Stored(false))
         else (entries[key := Entry(value, expiresAt)], Stored(true)))
    case Take(key, _, _) =>
      var unexpired := key in entries && entries[key].expiresAt > instant;
      (entries - {key}, Gave(if unexpired then Some(entries[key].value) else None))
  }

  /** The instants within a call, from its clock reading to its critical section or the other way round. */
  predicate Within<V>(op: Op<V>, instant: Instant) {
    match op
    case Put(_, _, _, sampled, at) => sampled <= instant <= at
    case Take(_, at, checked) => at <= instant <= checked
  }

  /** What has been pruned had expired. */
  ghost predicate Refines<V>(concrete: Entries<V>, ideal: Entries<V>, clock: int) {
    && (forall key :: key in concrete ==> key in ideal && ideal[key] == concrete[key])
    && (forall key :: key in ideal && key !in concrete ==> ideal[key].expiresAt <= clock)
  }

  /** The instant at which the ideal store has to judge: an entry pruned by another call is judged at its expiry. */
  function Judgment<V>(concrete: Entries<V>, ideal: Entries<V>, op: Op<V>): Instant {
    match op
    case Put(key, _, _, sampled, _) =>
      if key in ideal && key !in concrete then Max(sampled, ideal[key].expiresAt) else sampled
    case Take(_, _, checked) => checked
  }

  lemma StepRefines<V>(concrete: Entries<V>, ideal: Entries<V>, clock: int, op: Op<V>)
    requires Refines(concrete, ideal, clock) && clock <= op.at && WellTimed(op)
    ensures var instant := Judgment(concrete, ideal, op);
      && Within(op, instant)
      && Step(concrete, op).1 == IdealStep(ideal, op, instant).1
      && Refines(Step(concrete, op).0, IdealStep(ideal, op, instant).0, op.at)
  {
  }

  function Replies<V>(entries: Entries<V>, ops: seq<Op<V>>): seq<Reply<V>>
    decreases |ops|
  {
    if ops == [] then []
    else [Step(entries, ops[0]).1] + Replies(Step(entries, ops[0]).0, ops[1..])
  }

  function IdealReplies<V>(entries: Entries<V>, ops: seq<Op<V>>, instants: seq<Instant>): seq<Reply<V>>
    requires |instants| == |ops|
    decreases |ops|
  {
    if ops == [] then []
    else [IdealStep(entries, ops[0], instants[0]).1]
         + IdealReplies(IdealStep(entries, ops[0], instants[0]).0, ops[1..], instants[1..])
  }

  function Judgments<V>(concrete: Entries<V>, ideal: Entries<V>, ops: seq<Op<V>>): (r: seq<Instant>)
    ensures |r| == |ops|
    decreases |ops|
  {
    if ops == [] then []
    else
      var instant := Judgment(concrete, ideal, ops[0]);
      [instant] + Judgments(Step(concrete, ops[0]).0, IdealStep(ideal, ops[0], instant).0, ops[1..])
  }

  lemma {:induction false} RunRefines<V>(concrete: Entries<V>, ideal: Entries<V>, clock: int, ops: seq<Op<V>>)
    requires Refines(concrete, ideal, clock) && Legal(ops)
    requires ops != [] ==> clock <= ops[0].at
    ensures var instants := Judgments(concrete, ideal, ops);
      && (forall i :: 0 <= i < |ops| ==> Within(ops[i], instants[i]))
      && Replies(concrete, ops) == IdealReplies(ideal, ops, instants)
    decreases |ops|
  {
    if ops == [] {
    } else {
      var op := ops[0];
      StepRefines(concrete, ideal, clock, op);
      var instant := Judgment(concrete, ideal, op);
      var c, d := Step(concrete, op).0, IdealStep(ideal, op, instant).0;
      assert forall i :: 0 <= i < |ops[1..]| ==> ops[1..][i] == ops[i + 1];
      RunRefines(c, d, op.at, ops[1..]);
      var instants, rest := Judgments(concrete, ideal, ops), Judgments(c, d, ops[1..]);
      assert instants[1..] == rest;
      forall i | 0 <= i < |ops| ensures Within(ops[i], instants[i]) {
        if i > 0 {
          assert Within(ops[1..][i - 1], rest[i - 1]);
        }
      }
    }
  }

  /** Every history answers as the ideal store would, judging each call at some instant within it. */
  lemma RefinesIdealStore<V>(ops: seq<Op<V>>)
    requires Legal(ops)
    ensures exists instants: seq<Instant> ::
      && |instants| == |ops|
      && (forall i :: 0 <= i < |ops| ==> Within(ops[i], instants[i]))
      && Replies(map[], ops) == IdealReplies(map[], ops, instants)
  {
    var empty: Entries<V> := map[];
    RunRefines(empty, empty, 0, ops);
    var instants := Judgments(empty, empty, ops);
    assert |instants| == |ops|;
  }

  // Where a taken value comes from

  function After<V>(ops: seq<Op<V>>, n: nat): Entries<V>
    requires n <= |ops|
  {
    if n == 0 then map[] else Step(After(ops, n - 1), ops[n - 1]).0
  }

  function ReplyAt<V>(ops: seq<Op<V>>, n: nat): Reply<V>
    requires n < |ops|
  {
    Step(After(ops, n), ops[n]).1
  }

  predicate Created<V(==)>(ops: seq<Op<V>>, i: nat, key: string)
    requires i < |ops|
  {
    ops[i].Put? && ops[i].key == key && ReplyAt(ops, i) == Stored(true)
  }

  /** No call between the two created or took the key. */
  ghost predicate Untouched<V>(ops: seq<Op<V>>, key: string, i: nat, j: nat)
    requires j <= |ops|
  {
    forall m :: i < m < j ==> !Created(ops, m, key) && !(ops[m].Take? && ops[m].key == key)
  }

  /** Call i created the entry that call j takes, and it has not expired when j checks it. */
  ghost predicate Supplies<V>(ops: seq<Op<V>>, i: nat, j: nat)
    requires j < |ops|
  {
    && i < j
    && ops[j].Take?
    && Created(ops, i, ops[j].key)
    && Untouched(ops, ops[j].key, i, j)
    && ops[i].sampled + ops[i].ttl > ops[j].checked
  }

  /** An entry in the store was made by the latest creating call for its key. */
  lemma {:induction false} EntryHasCreator<V>(ops: seq<Op<V>>, n: nat, key: string) returns (i: nat)
    requires n <= |ops| && key in After(ops, n)
    ensures i < n && Created(ops, i, key) && Untouched(ops, key, i, n)
    ensures After(ops, n)[key] == Entry(ops[i].value, ops[i].sampled + ops[i].ttl)
  {
    var op := ops[n - 1];
    if Created(ops, n - 1, key) {
      i := n - 1;
    } else {
      assert key in After(ops, n - 1);
      i := EntryHasCreator(ops, n - 1, key);
    }
  }

  /** An entry that nobody touched is still in the store, or has expired. */
  lemma {:induction false} CreatedStaysUntilExpiry<V>(ops: seq<Op<V>>, i: nat, n: nat, key: string)
    requires Legal(ops) && i < n <= |ops| && Created(ops, i, key) && Untouched(ops, key, i, n)
    ensures || (key in After(ops, n) && After(ops, n)[key] == Entry(ops[i].value, ops[i].sampled + ops[i].ttl))
            || ops[i].sampled + ops[i].ttl <= ops[n - 1].at
  {
    if i < n - 1 {
      assert Untouched(ops, key, i, n - 1);
      CreatedStaysUntilExpiry(ops, i, n - 1, key);
      assert ops[n - 2].at <= ops[n - 1].at && WellTimed(ops[n - 1]);
      assert !Created(ops, n - 1, key) && !(ops[n - 1].Take? && ops[n - 1].key == key);
    }
  }

  /** A take answers with a value exactly if the latest put for the key, still untouched, has not expired. */
  lemma TakeGivesLatestUnexpired<V>(ops: seq<Op<V>>, j: nat, value: V)
    requires Legal(ops) && j < |ops| && ops[j].Take?
    ensures ReplyAt(ops, j) == Gave(Some(value)) <==> exists i: nat :: Supplies(ops, i, j) && ops[i].value == value
  {
    var key := ops[j].key;
    if ReplyAt(ops, j) == Gave(Some(value)) {
      var i := EntryHasCreator(ops, j, key);
      assert Supplies(ops, i, j);
    }
    if i: nat :| Supplies(ops, i, j) && ops[i].value == value {
      CreatedStaysUntilExpiry(ops, i, j, key);
      assert ops[j - 1].at <= ops[j].at && WellTimed(ops[j]);
    }
  }

  /** No put supplies two takes. */
  lemma PutSuppliesOneTake<V>(ops: seq<Op<V>>, i: nat, j: nat, k: nat)
    requires j < |ops| && k < |ops| && Supplies(ops, i, j) && Supplies(ops, i, k)
    ensures j == k
  {
  }

  /** A put that creates displaces only an entry that had expired by its critical section. */
  lemma OnlyExpiredIsDisplaced<V>(ops: seq<Op<V>>, i: nat, j: nat)
    requires Legal(ops) && i < j < |ops|
    requires ops[j].Put? && Created(ops, j, ops[j].key) && Created(ops, i, ops[j].key)
    requires Untouched(ops, ops[j].key, i, j)
    ensures ops[i].sampled + ops[i].ttl <= ops[j].at
  {
    CreatedStaysUntilExpiry(ops, i, j, ops[j].key);
    assert ops[j - 1].at <= ops[j].at && WellTimed(ops[j]);
  }

  /** A put that is not refused leaves nothing in the store that had expired when it read the clock. */
  lemma PutPrunes<V>(entries: Entries<V>, op: Op<V>, key: string)
    requires op.Put? && Step(entries, op).1.Stored?
    ensures key in Step(entries, op).0 ==> Step(entries, op).0[key].expiresAt > op.sampled
    ensures key in entries && entries[key].expiresAt > op.sampled
        ==> key in Step(entries, op).0 && Step(entries, op).0[key] == entries[key]
  {
  }
}
