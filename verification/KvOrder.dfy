/** Whether the calls of a history can be judged in their order (src/transport/kv.rs).

    Every history has judgment instants within its calls. They need not follow the order of the critical sections:
    a take reads the clock after it has removed the entry, and a put before it sees the entries. */
module KvOrder {
  import opened Wrappers
  import opened Time
  import opened KvStore

  ghost predicate InOrder(instants: seq<Instant>) {
    forall i, j :: 0 <= i < j < |instants| ==> instants[i] <= instants[j]
  }

  ghost predicate AllWithin<V>(ops: seq<Op<V>>, instants: seq<Instant>)
    requires |ops| == |instants|
  {
    forall i :: 0 <= i < |ops| ==> Within(ops[i], instants[i])
  }

  /** The ideal store, judging at these instants within the calls, gives the replies of the real one. */
  ghost predicate Explains<V>(concrete: Entries<V>, ideal: Entries<V>, ops: seq<Op<V>>, instants: seq<Instant>)
    requires |instants| == |ops|
  {
    AllWithin(ops, instants) && Replies(concrete, ops) == IdealReplies(ideal, ops, instants)
  }

  // The instants at which a call can be judged

  /** The ideal store after a call with that reply. */
  function IdealNext<V>(ideal: Entries<V>, op: Op<V>, reply: Reply<V>): Entries<V> {
    match op
    case Put(key, value, ttl, sampled, _) =>
      if reply.Stored? && reply.created && Expiry(sampled, ttl).Some?
      then ideal[key := Entry(value, Expiry(sampled, ttl).value)]
      else ideal
    case Take(key, _, _) => ideal - {key}
  }

  /** A put that creates, and a take that gives nothing, are judged no earlier than the expiry of the entry there is. */
  function Earliest<V>(ideal: Entries<V>, op: Op<V>, reply: Reply<V>): Instant {
    match op
    case Put(key, _, _, sampled, _) =>
      if reply.Stored? && reply.created && key in ideal then Max(sampled, ideal[key].expiresAt) else sampled
    case Take(key, at, _) =>
      if reply.Gave? && reply.value.None? && key in ideal then Max(at, ideal[key].expiresAt) else at
  }

  /** A put that creates nothing, and a take that gives a value, are judged before that expiry. */
  function Latest<V>(ideal: Entries<V>, op: Op<V>, reply: Reply<V>): int {
    match op
    case Put(key, _, _, _, at) =>
      if reply.Stored? && !reply.created && key in ideal then Min(at, ideal[key].expiresAt - 1) else at
    case Take(key, _, checked) =>
      if reply.Gave? && reply.value.Some? && key in ideal then Min(checked, ideal[key].expiresAt - 1) else checked
  }

  lemma StepExplained<V>(concrete: Entries<V>, ideal: Entries<V>, clock: int, op: Op<V>, instant: Instant)
    requires Refines(concrete, ideal, clock) && clock <= op.at && WellTimed(op)
    ensures var reply := Step(concrete, op).1;
      && (Within(op, instant) && IdealStep(ideal, op, instant).1 == reply
          <==> Earliest(ideal, op, reply) <= instant <= Latest(ideal, op, reply))
      && (IdealStep(ideal, op, instant).1 == reply ==> IdealStep(ideal, op, instant).0 == IdealNext(ideal, op, reply))
  {
  }

  lemma StepStillRefines<V>(concrete: Entries<V>, ideal: Entries<V>, clock: int, op: Op<V>)
    requires Refines(concrete, ideal, clock) && clock <= op.at && WellTimed(op)
    ensures Refines(Step(concrete, op).0, IdealNext(ideal, op, Step(concrete, op).1), op.at)
    ensures var reply := Step(concrete, op).1; Earliest(ideal, op, reply) <= Latest(ideal, op, reply)
  {
  }

  /** For each call of a history, the earliest and the latest instant at which it can be judged. */
  function Bounds<V>(concrete: Entries<V>, ideal: Entries<V>, ops: seq<Op<V>>): (r: seq<(Instant, int)>)
    ensures |r| == |ops|
    decreases |ops|
  {
    if ops == [] then []
    else
      var (next, reply) := Step(concrete, ops[0]);
      [(Earliest(ideal, ops[0], reply), Latest(ideal, ops[0], reply))]
      + Bounds(next, IdealNext(ideal, ops[0], reply), ops[1..])
  }

  ghost predicate Fits(bounds: seq<(Instant, int)>, instants: seq<Instant>)
    requires |bounds| == |instants|
  {
    forall i :: 0 <= i < |bounds| ==> bounds[i].0 <= instants[i] <= bounds[i].1
  }

  lemma FitsCons(bounds: seq<(Instant, int)>, instants: seq<Instant>)
    requires |bounds| == |instants| && bounds != []
    ensures Fits(bounds, instants)
       <==> bounds[0].0 <= instants[0] <= bounds[0].1 && Fits(bounds[1..], instants[1..])
  {
    assert forall i :: 0 < i < |bounds| ==> bounds[i] == bounds[1..][i - 1] && instants[i] == instants[1..][i - 1];
  }

  lemma AllWithinCons<V>(ops: seq<Op<V>>, instants: seq<Instant>)
    requires |ops| == |instants| && ops != []
    ensures AllWithin(ops, instants) <==> Within(ops[0], instants[0]) && AllWithin(ops[1..], instants[1..])
  {
    assert forall i :: 0 < i < |ops| ==> ops[i] == ops[1..][i - 1] && instants[i] == instants[1..][i - 1];
  }

  lemma ConsEqual<T>(x: T, a: seq<T>, y: T, b: seq<T>)
    ensures [x] + a == [y] + b <==> x == y && a == b
  {
    if [x] + a == [y] + b {
      assert ([x] + a)[0] == x && ([y] + b)[0] == y && ([x] + a)[1..] == a && ([y] + b)[1..] == b;
    }
  }

  /** Instants explain a history exactly if each is between the bounds of its call. */
  lemma {:induction false} ExplainsIffFits<V>(concrete: Entries<V>, ideal: Entries<V>, clock: int, ops: seq<Op<V>>,
                                              instants: seq<Instant>)
    requires Refines(concrete, ideal, clock) && Legal(ops) && |instants| == |ops|
    requires ops != [] ==> clock <= ops[0].at
    ensures Explains(concrete, ideal, ops, instants) <==> Fits(Bounds(concrete, ideal, ops), instants)
    decreases |ops|
  {
    if ops == [] {
    } else {
      var op, instant := ops[0], instants[0];
      var (next, reply) := Step(concrete, op);
      StepExplained(concrete, ideal, clock, op, instant);
      StepStillRefines(concrete, ideal, clock, op);
      var ideal' := IdealNext(ideal, op, reply);
      ExplainsIffFits(next, ideal', op.at, ops[1..], instants[1..]);
      var bounds := Bounds(concrete, ideal, ops);
      assert bounds[1..] == Bounds(next, ideal', ops[1..]);
      FitsCons(bounds, instants);
      AllWithinCons(ops, instants);
      var judged := IdealStep(ideal, op, instant);
      ConsEqual(reply, Replies(next, ops[1..]), judged.1, IdealReplies(judged.0, ops[1..], instants[1..]));
    }
  }

  // Instants in order

  /** The greatest of the earliest instants up to call j. */
  function Greatest(bounds: seq<(Instant, int)>, j: nat): Instant
    requires j < |bounds|
  {
    if j == 0 then bounds[0].0 else Max(Greatest(bounds, j - 1), bounds[j].0)
  }

  lemma {:induction false} GreatestGrows(bounds: seq<(Instant, int)>, i: nat, j: nat)
    requires i <= j < |bounds|
    ensures bounds[i].0 <= Greatest(bounds, i) <= Greatest(bounds, j)
  {
    if i == j {
    } else {
      GreatestGrows(bounds, i, j - 1);
    }
  }

  lemma {:induction false} GreatestIsOne(bounds: seq<(Instant, int)>, j: nat) returns (i: nat)
    requires j < |bounds|
    ensures i <= j && Greatest(bounds, j) == bounds[i].0
  {
    if j == 0 || Greatest(bounds, j) == bounds[j].0 {
      i := j;
    } else {
      i := GreatestIsOne(bounds, j - 1);
    }
  }

  function Chosen(bounds: seq<(Instant, int)>): (r: seq<Instant>) {
    seq(|bounds|, j requires 0 <= j < |bounds| => Greatest(bounds, j))
  }

  /** No call must be judged later than one after it can be. */
  ghost predicate Compatible(bounds: seq<(Instant, int)>) {
    forall i, j :: 0 <= i <= j < |bounds| ==> bounds[i].0 <= bounds[j].1
  }

  lemma OrderedFit(bounds: seq<(Instant, int)>, instants: seq<Instant>)
    requires |instants| == |bounds| && InOrder(instants) && Fits(bounds, instants)
    ensures Compatible(bounds)
  {
    forall i, j | 0 <= i <= j < |bounds| ensures bounds[i].0 <= bounds[j].1 {
      assert instants[i] <= instants[j];
    }
  }

  lemma ChosenFits(bounds: seq<(Instant, int)>)
    requires Compatible(bounds)
    ensures Fits(bounds, Chosen(bounds)) && InOrder(Chosen(bounds))
  {
    forall i, j | 0 <= i <= j < |bounds| ensures Chosen(bounds)[i] <= Chosen(bounds)[j] {
      GreatestGrows(bounds, i, j);
    }
    forall j | 0 <= j < |bounds| ensures bounds[j].0 <= Chosen(bounds)[j] <= bounds[j].1 {
      GreatestGrows(bounds, j, j);
      var i := GreatestIsOne(bounds, j);
      assert bounds[i].0 <= bounds[j].1;
    }
  }

  ghost predicate ExplainedInOrder<V>(ops: seq<Op<V>>, instants: seq<Instant>) {
    |instants| == |ops| && InOrder(instants) && Explains(map[], map[], ops, instants)
  }

  /** A history answers like an ideal store that judges its calls one after the other, each at an instant within it,
      exactly if no call must be judged later than one after it can be. */
  lemma OrderedIffCompatible<V>(ops: seq<Op<V>>)
    requires Legal(ops)
    ensures (exists instants :: ExplainedInOrder(ops, instants)) <==> Compatible(Bounds(map[], map[], ops))
  {
    var empty: Entries<V> := map[];
    var bounds := Bounds(empty, empty, ops);
    forall instants: seq<Instant> | |instants| == |ops|
      ensures Explains(empty, empty, ops, instants) <==> Fits(bounds, instants)
    {
      ExplainsIffFits(empty, empty, 0, ops, instants);
    }
    if instants :| ExplainedInOrder(ops, instants) {
      OrderedFit(bounds, instants);
    }
    if Compatible(bounds) {
      ChosenFits(bounds);
      assert ExplainedInOrder(ops, Chosen(bounds));
    }
  }

  // When the order can be kept

  /** The entry expires during the call: between its reading of the clock and its critical section, or in between the
      other way round. */
  predicate ExpiresDuring<V>(op: Op<V>, expiresAt: int) {
    match op
    case Put(_, _, _, sampled, at) => sampled < expiresAt <= at
    case Take(_, at, checked) => at < expiresAt <= checked
  }

  /** No entry there is, and none put earlier in the history, expires during a call for its key. */
  ghost predicate NoneExpiresDuring<V>(ideal: Entries<V>, ops: seq<Op<V>>) {
    && (forall j :: 0 <= j < |ops| && ops[j].key in ideal ==> !ExpiresDuring(ops[j], ideal[ops[j].key].expiresAt))
    && (forall i, j :: 0 <= i < j < |ops| && ops[i].Put? && ops[i].key == ops[j].key ==>
          !ExpiresDuring(ops[j], ops[i].sampled + ops[i].ttl))
  }

  function CriticalTimes<V>(ops: seq<Op<V>>): (r: seq<Instant>) {
    seq(|ops|, i requires 0 <= i < |ops| => ops[i].at)
  }

  lemma NoneExpiresLater<V>(ideal: Entries<V>, ops: seq<Op<V>>, reply: Reply<V>)
    requires ops != [] && NoneExpiresDuring(ideal, ops)
    ensures NoneExpiresDuring(IdealNext(ideal, ops[0], reply), ops[1..])
  {
    var next, rest := IdealNext(ideal, ops[0], reply), ops[1..];
    forall j | 0 <= j < |rest|
      ensures rest[j].key in next ==> !ExpiresDuring(rest[j], next[rest[j].key].expiresAt)
    {
      assert rest[j] == ops[j + 1];
    }
    forall i, j | 0 <= i < j < |rest|
      ensures rest[i].Put? && rest[i].key == rest[j].key ==> !ExpiresDuring(rest[j], rest[i].sampled + rest[i].ttl)
    {
      assert rest[i] == ops[i + 1] && rest[j] == ops[j + 1];
    }
  }

  lemma CriticalTimeFits<V>(concrete: Entries<V>, ideal: Entries<V>, clock: int, op: Op<V>)
    requires Refines(concrete, ideal, clock) && clock <= op.at && WellTimed(op)
    requires op.key in ideal ==> !ExpiresDuring(op, ideal[op.key].expiresAt)
    ensures var reply := Step(concrete, op).1; Earliest(ideal, op, reply) <= op.at <= Latest(ideal, op, reply)
  {
  }

  lemma {:induction false} CriticalTimesFit<V>(concrete: Entries<V>, ideal: Entries<V>, clock: int, ops: seq<Op<V>>)
    requires Refines(concrete, ideal, clock) && Legal(ops) && (ops != [] ==> clock <= ops[0].at)
    requires NoneExpiresDuring(ideal, ops)
    ensures Fits(Bounds(concrete, ideal, ops), CriticalTimes(ops))
    decreases |ops|
  {
    if ops == [] {
    } else {
      var (next, reply) := Step(concrete, ops[0]);
      var ideal' := IdealNext(ideal, ops[0], reply);
      CriticalTimeFits(concrete, ideal, clock, ops[0]);
      StepStillRefines(concrete, ideal, clock, ops[0]);
      NoneExpiresLater(ideal, ops, reply);
      CriticalTimesFit(next, ideal', ops[0].at, ops[1..]);
      assert Bounds(concrete, ideal, ops)[1..] == Bounds(next, ideal', ops[1..]);
      assert CriticalTimes(ops)[1..] == CriticalTimes(ops[1..]);
      FitsCons(Bounds(concrete, ideal, ops), CriticalTimes(ops));
    }
  }

  /** If no entry expires during a call for its key, the critical sections themselves are the instants: the store
      is atomic. */
  lemma AtomicUnlessExpiring<V>(ops: seq<Op<V>>)
    requires Legal(ops) && NoneExpiresDuring(map[], ops)
    ensures ExplainedInOrder(ops, CriticalTimes(ops))
  {
    var empty: Entries<V> := map[];
    CriticalTimesFit(empty, empty, 0, ops);
    ExplainsIffFits(empty, empty, 0, ops, CriticalTimes(ops));
  }

  // When it cannot

  /** A take that removes an entry before it expires and finds it expired afterwards: a put in between creates, which
      the ideal store allows only after the expiry, and the take must come before that put. */
  const LATE_TAKE: seq<Op<int>> := [Put("k", 1, 50, 0, 0), Take("k", 10, 100), Put("k", 2, 50, 11, 12)]

  /** A put that read the clock before a take of another key and sees an entry that has expired since. */
  const EARLY_PUT: seq<Op<int>> := [Put("k", 1, 50, 0, 0), Take("x", 90, 90), Put("k", 2, 50, 10, 100)]

  /** Two calls in a row, the first of which must be judged after the second can be. */
  lemma Incompatible<V>(a: Op<V>, b: Op<V>, c: Op<V>)
    requires
      var (s1, r1) := Step(map[], a);
      var i1 := IdealNext(map[], a, r1);
      var (s2, r2) := Step(s1, b);
      Earliest(i1, b, r2) > Latest(IdealNext(i1, b, r2), c, Step(s2, c).1)
    ensures !Compatible(Bounds(map[], map[], [a, b, c]))
  {
    var ops, empty: Entries<V> := [a, b, c], map[];
    var (s1, r1) := Step(empty, a);
    var i1 := IdealNext(empty, a, r1);
    var (s2, r2) := Step(s1, b);
    var i2 := IdealNext(i1, b, r2);
    assert ops[1..] == [b, c] && [b, c][1..] == [c];
    var bounds, rest, last := Bounds(empty, empty, ops), Bounds(s1, i1, [b, c]), Bounds(s2, i2, [c]);
    assert bounds[1..] == rest && rest[1..] == last;
    assert last[0].1 == Latest(i2, c, Step(s2, c).1) && rest[0].0 == Earliest(i1, b, r2);
    assert bounds[1] == rest[0] && bounds[2] == rest[1] == last[0];
  }

  lemma LateTakeBreaksOrder()
    ensures Legal(LATE_TAKE) && !exists instants :: ExplainedInOrder(LATE_TAKE, instants)
  {
    var put, take, again := LATE_TAKE[0], LATE_TAKE[1], LATE_TAKE[2];
    var entry := Entry(1, 50);
    assert Step(map[], put) == (map["k" := entry], Stored(true));
    assert Step(map["k" := entry], take).1 == Gave(None);
    Incompatible(put, take, again);
    OrderedIffCompatible(LATE_TAKE);
  }

  lemma EarlyPutBreaksOrder()
    ensures Legal(EARLY_PUT) && !exists instants :: ExplainedInOrder(EARLY_PUT, instants)
  {
    var put, take, again := EARLY_PUT[0], EARLY_PUT[1], EARLY_PUT[2];
    var entry := Entry(1, 50);
    assert Step(map[], put) == (map["k" := entry], Stored(true));
    assert "x"[0] != "k"[0];
    assert map["k" := entry] - {"x"} == map["k" := entry];
    assert Step(map["k" := entry], take) == (map["k" := entry], Gave(None));
    assert Prune(map["k" := entry], 10) == map["k" := entry];
    assert Step(map["k" := entry], again).1 == Stored(false);
    Incompatible(put, take, again);
    OrderedIffCompatible(EARLY_PUT);
  }
}
