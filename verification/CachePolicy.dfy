/** Freshness of a discovery response (src/metadata/cache.rs), after RFC 9111. */
module CachePolicy {
  import opened Wrappers
  import opened Time
  import opened Ascii
  import Text

  const MAX_DELTA_SECONDS: nat := 2_147_483_648
  const MAX_U64: nat := 0xFFFF_FFFF_FFFF_FFFF
  const MAX_U128: nat := 0xFFFF_FFFF_FFFF_FFFF_FFFF_FFFF_FFFF_FFFF

  datatype Policy =
    | CacheFor(lifetime: Duration, mustRevalidate: bool)
    | Revalidate
    | DoNotStore

  type Header = (string, string)

  /** An HTTP-date parser; `None` is a value it cannot read. */
  type DateParser = string -> Option<SystemTime>

  function ApplyMinimum(policy: Policy, minimum: Duration): Policy {
    if minimum == 0 then policy
    else
      match policy
      case CacheFor(lifetime, mustRevalidate) => CacheFor(Max(lifetime, minimum), mustRevalidate)
      case Revalidate => CacheFor(minimum, true)
      case DoNotStore => CacheFor(minimum, true)
  }

  // Cache-Control directives

  datatype Directives = Directives(maxAge: Option<Duration>, noCache: bool, noStore: bool, mustRevalidate: bool)

  const NO_DIRECTIVES := Directives(None, false, false, false)

  /** What one comma-separated part of a Cache-Control value asks of a private cache. */
  datatype Directive = MaxAge(lifetime: Duration) | NoCache | NoStore | MustRevalidate | Ignored

  /** Malformed values count as zero, and anything over the cap as the cap. */
  function ParseDeltaSeconds(value: string): Duration {
    Min(ParseUnsigned(TrimQuotes(value), MAX_U128).GetOr(0), MAX_DELTA_SECONDS) * SECOND
  }

  /** The trimmed name of a part and, after an equals sign, its trimmed argument. */
  function NameAndArgument(part: string): (string, Option<string>) {
    match Text.SplitOnce(part, '=')
    case Some((name, argument)) => (Trim(name), Some(Trim(argument)))
    case None => (part, None)
  }

  function ReadDirective(raw: string): Directive {
    var (name, argument) := NameAndArgument(Trim(raw));
    if EqualIgnoreCase(name, "max-age") then
      if argument.Some? then MaxAge(ParseDeltaSeconds(argument.value)) else Ignored
    else if EqualIgnoreCase(name, "no-cache") then NoCache
    else if EqualIgnoreCase(name, "no-store") then NoStore
    else if EqualIgnoreCase(name, "must-revalidate") then MustRevalidate
    else Ignored
  }

  function Apply(d: Directives, directive: Directive): Directives {
    match directive
    case MaxAge(lifetime) =>
      d.(maxAge := Some(if d.maxAge.Some? then Min(d.maxAge.value, lifetime) else lifetime))
    case NoCache => d.(noCache := true)
    case NoStore => d.(noStore := true)
    case MustRevalidate => d.(mustRevalidate := true)
    case Ignored => d
  }

  function ApplyAll(parts: seq<string>, d: Directives): Directives {
    if parts == [] then d
    else Apply(ApplyAll(parts[..|parts| - 1], d), ReadDirective(parts[|parts| - 1]))
  }

  /** The directives after reading one more Cache-Control value. */
  function Parsed(value: string, d: Directives): Directives {
    ApplyAll(Text.Split(value, ','), d)
  }

  /** The mutable accumulator that is handed from one header line to the next. */
  class CacheDirectives {
    var maxAge: Option<Duration>
    var noCache: bool
    var noStore: bool
    var mustRevalidate: bool

    function Value(): Directives
      reads this
    {
      Directives(maxAge, noCache, noStore, mustRevalidate)
    }

    constructor ()
      ensures Value() == NO_DIRECTIVES
    {
      maxAge, noCache, noStore, mustRevalidate := None, false, false, false;
    }

    method ParseCacheControl(value: string)
      modifies this
      ensures Value() == Parsed(value, old(Value()))
    {
      var parts := Text.Split(value, ',');
      for i := 0 to |parts|
        invariant Value() == ApplyAll(parts[..i], old(Value()))
      {
        assert parts[..i + 1][..i] == parts[..i];
        var part := Trim(parts[i]);
        if part == "" {
          assert ReadDirective(parts[i]) == Ignored;
          continue;
        }
        var (name, argument) := NameAndArgument(part);
        if EqualIgnoreCase(name, "max-age") {
          if argument.Some? {
            var lifetime := ParseDeltaSeconds(argument.value);
            maxAge := Some(if maxAge.Some? then Min(maxAge.value, lifetime) else lifetime);
          }
        } else if EqualIgnoreCase(name, "no-cache") {
          noCache := true;
        } else if EqualIgnoreCase(name, "no-store") {
          noStore := true;
        } else if EqualIgnoreCase(name, "must-revalidate") {
          mustRevalidate := true;
        }
      }
      assert parts[..|parts|] == parts;
    }
  }

  // Header lines

  function Find(headers: seq<Header>, name: string): Option<string> {
    if headers == [] then None
    else if EqualIgnoreCase(headers[0].0, name) then Some(headers[0].1)
    else Find(headers[1..], name)
  }

  /** The first line with that name counts, in any letter case. */
  lemma {:induction false} FindIsFirst(headers: seq<Header>, name: string, value: string)
    ensures Find(headers, name) == Some(value)
       <==> exists i :: 0 <= i < |headers| && EqualIgnoreCase(headers[i].0, name) && headers[i].1 == value
                        && forall j :: 0 <= j < i ==> !EqualIgnoreCase(headers[j].0, name)
  {
    if headers != [] && !EqualIgnoreCase(headers[0].0, name) {
      var rest := headers[1..];
      FindIsFirst(rest, name, value);
      if i :| 0 <= i < |rest| && EqualIgnoreCase(rest[i].0, name) && rest[i].1 == value
              && forall j :: 0 <= j < i ==> !EqualIgnoreCase(rest[j].0, name)
      {
        forall j | 0 <= j < i + 1 ensures !EqualIgnoreCase(headers[j].0, name) {
          assert j > 0 ==> headers[j] == rest[j - 1];
        }
        assert headers[i + 1] == rest[i];
      }
      if i :| 0 <= i < |headers| && EqualIgnoreCase(headers[i].0, name) && headers[i].1 == value
              && forall j :: 0 <= j < i ==> !EqualIgnoreCase(headers[j].0, name)
      {
        assert rest[i - 1] == headers[i];
        forall j | 0 <= j < i - 1 ensures !EqualIgnoreCase(rest[j].0, name) {
          assert rest[j] == headers[j + 1];
        }
      }
    } else if headers != [] {
      assert EqualIgnoreCase(headers[0].0, name);
    }
  }

  /** The values of the Cache-Control lines, in order. */
  function CacheControlLines(headers: seq<Header>): seq<string> {
    if headers == [] then []
    else
      var n := |headers| - 1;
      CacheControlLines(headers[..n]) + if EqualIgnoreCase(headers[n].0, "cache-control") then [headers[n].1] else []
  }

  /** All the parts of all the lines. */
  function Parts(lines: seq<string>): seq<string> {
    if lines == [] then []
    else Parts(lines[..|lines| - 1]) + Text.Split(lines[|lines| - 1], ',')
  }

  function DirectivesOf(headers: seq<Header>): Directives {
    ApplyAll(Parts(CacheControlLines(headers)), NO_DIRECTIVES)
  }

  // Freshness

  /** Elapsed wall-clock time, if it is not negative. */
  function DurationSince(later: SystemTime, earlier: SystemTime): Option<Duration> {
    if earlier <= later then Some(later - earlier) else None
  }

  /** The larger of the stated and the apparent age, of those that are known. */
  function Age(stated: Option<Duration>, apparent: Option<Duration>): Option<Duration> {
    if stated.None? then apparent
    else if apparent.None? then stated
    else Some(Max(stated.value, apparent.value))
  }

  /** An age that is no 64-bit number of seconds is not known. */
  function AgeOfText(value: string): Option<Duration> {
    match ParseUnsigned(value, MAX_U64)
    case None => None
    case Some(seconds) => Some(seconds * SECOND)
  }

  function StatedAge(headers: seq<Header>): Option<Duration> {
    match Find(headers, "age")
    case None => None
    case Some(value) => AgeOfText(value)
  }

  function ResponseDate(headers: seq<Header>, parseDate: DateParser): Option<SystemTime> {
    match Find(headers, "date")
    case None => None
    case Some(value) => parseDate(value)
  }

  function ApparentAge(date: Option<SystemTime>, now: SystemTime): Option<Duration> {
    if date.Some? then DurationSince(now, date.value) else None
  }

  function ExpiresLifetime(value: string, date: Option<SystemTime>, age: Option<Duration>, parseDate: DateParser,
                           now: SystemTime): Duration {
    match parseDate(value)
    case None => 0
    case Some(expires) =>
      SaturatingSub(DurationSince(expires, date.GetOr(now)).GetOr(0), age.GetOr(0))
  }

  function ComputePolicy(directives: Directives, expires: Option<string>, date: Option<SystemTime>,
                         age: Option<Duration>, defaultLifetime: Duration, parseDate: DateParser,
                         now: SystemTime): Policy {
    if directives.noStore then DoNotStore
    else if directives.noCache then Revalidate
    else if directives.maxAge.Some? then
      CacheFor(SaturatingSub(directives.maxAge.value, age.GetOr(0)), directives.mustRevalidate)
    else if expires.Some? then
      CacheFor(ExpiresLifetime(expires.value, date, age, parseDate, now), directives.mustRevalidate)
    else CacheFor(SaturatingSub(defaultLifetime, age.GetOr(0)), directives.mustRevalidate)
  }

  function PolicyOf(headers: seq<Header>, defaultLifetime: Duration, parseDate: DateParser, now: SystemTime): Policy {
    var date := ResponseDate(headers, parseDate);
    var age := Age(StatedAge(headers), ApparentAge(date, now));
    ComputePolicy(DirectivesOf(headers), Find(headers, "expires"), date, age, defaultLifetime, parseDate, now)
  }

  lemma {:induction false} ApplyAllConcat(a: seq<string>, b: seq<string>, d: Directives)
    ensures ApplyAll(a + b, d) == ApplyAll(b, ApplyAll(a, d))
  {
    if b == [] {
      assert a + b == a;
    } else {
      var n := |b| - 1;
      assert (a + b)[..|a + b| - 1] == a + b[..n];
      ApplyAllConcat(a, b[..n], d);
    }
  }

  /** Reads the header lines one after the other into one accumulator. */
  method PolicyFromHeaders(headers: seq<Header>, defaultLifetime: Duration, parseDate: DateParser, now: SystemTime)
    returns (policy: Policy)
    ensures policy == PolicyOf(headers, defaultLifetime, parseDate, now)
  {
    var directives := new CacheDirectives();
    for i := 0 to |headers|
      invariant directives.Value() == DirectivesOf(headers[..i])
    {
      assert headers[..i + 1][..i] == headers[..i];
      if EqualIgnoreCase(headers[i].0, "cache-control") {
        ghost var lines := CacheControlLines(headers[..i]);
        directives.ParseCacheControl(headers[i].1);
        assert (lines + [headers[i].1])[..|lines|] == lines;
        ApplyAllConcat(Parts(lines), Text.Split(headers[i].1, ','), NO_DIRECTIVES);
        assert CacheControlLines(headers[..i + 1]) == lines + [headers[i].1];
      } else {
        assert CacheControlLines(headers[..i + 1]) == CacheControlLines(headers[..i]);
      }
    }
    assert headers[..|headers|] == headers;
    var date := ResponseDate(headers, parseDate);
    var age := Age(StatedAge(headers), ApparentAge(date, now));
    policy := ComputePolicy(directives.Value(), Find(headers, "expires"), date, age, defaultLifetime, parseDate, now);
  }

  // Cache-Control parsing is a homomorphism

  /** Two values joined by a comma read like the two values in sequence (RFC 9110, section 5.3). */
  lemma CommaJoins(a: string, b: string, d: Directives)
    ensures Parsed(a + "," + b, d) == Parsed(b, Parsed(a, d))
  {
    assert a + "," + b == a + [','] + b;
    Text.SplitConcat(a, ',', b);
    ApplyAllConcat(Text.Split(a, ','), Text.Split(b, ','), d);
  }

  lemma {:induction false} PartsOfJoin(lines: seq<string>)
    requires lines != []
    ensures Text.Split(Text.Join(lines, ','), ',') == Parts(lines)
  {
    var n := |lines| - 1;
    if n == 0 {
      assert lines[..0] == [];
      assert Parts(lines[..0]) == [];
    } else {
      PartsOfJoin(lines[..n]);
      Text.JoinAppend(lines[..n], lines[n], ',');
      assert lines[..n] + [lines[n]] == lines;
      Text.SplitConcat(Text.Join(lines[..n], ','), ',', lines[n]);
    }
  }

  /** Any split into header lines reads like the one combined line. */
  lemma LinesCombine(headers: seq<Header>)
    ensures DirectivesOf(headers) == Parsed(Text.Join(CacheControlLines(headers), ','), NO_DIRECTIVES)
  {
    var lines := CacheControlLines(headers);
    if lines == [] {
      assert Text.Split("", ',') == [""];
      assert ReadDirective("") == Ignored;
      assert [""][..0] == [];
    } else {
      PartsOfJoin(lines);
    }
  }

  ghost predicate Contains(parts: seq<string>, directive: Directive) {
    exists part :: part in parts && ReadDirective(part) == directive
  }

  /** The least of all the max-age directives, if there are any. */
  ghost predicate LeastMaxAge(least: Option<Duration>, parts: seq<string>) {
    match least
    case None => forall l :: !Contains(parts, MaxAge(l))
    case Some(m) => Contains(parts, MaxAge(m)) && forall l :: Contains(parts, MaxAge(l)) ==> m <= l
  }

  lemma ContainsAppend(parts: seq<string>, last: string, directive: Directive)
    ensures Contains(parts + [last], directive) <==> Contains(parts, directive) || ReadDirective(last) == directive
  {
    var all := parts + [last];
    assert all[|parts|] == last;
    if Contains(all, directive) {
      var part :| part in all && ReadDirective(part) == directive;
      assert part in parts || part == last;
    }
    if Contains(parts, directive) {
      var part :| part in parts && ReadDirective(part) == directive;
      assert part in all;
    }
  }

  lemma LeastAppend(parts: seq<string>, last: string, d: Directives)
    requires LeastMaxAge(d.maxAge, parts)
    ensures LeastMaxAge(Apply(d, ReadDirective(last)).maxAge, parts + [last])
  {
    forall l: Duration
      ensures Contains(parts + [last], MaxAge(l)) <==> Contains(parts, MaxAge(l)) || ReadDirective(last) == MaxAge(l)
    {
      ContainsAppend(parts, last, MaxAge(l));
    }
  }

  /** Each flag is set by any part that names it, and max-age is the least of all given. */
  ghost predicate Collects(d: Directives, parts: seq<string>) {
    && (d.noStore <==> Contains(parts, NoStore))
    && (d.noCache <==> Contains(parts, NoCache))
    && (d.mustRevalidate <==> Contains(parts, MustRevalidate))
    && LeastMaxAge(d.maxAge, parts)
  }

  lemma CollectsAppend(d: Directives, parts: seq<string>, last: string)
    requires Collects(d, parts)
    ensures Collects(Apply(d, ReadDirective(last)), parts + [last])
  {
    ContainsAppend(parts, last, NoStore);
    ContainsAppend(parts, last, NoCache);
    ContainsAppend(parts, last, MustRevalidate);
    LeastAppend(parts, last, d);
  }

  lemma {:induction false} DirectivesClosedForm(parts: seq<string>)
    ensures Collects(ApplyAll(parts, NO_DIRECTIVES), parts)
  {
    if parts == [] {
    } else {
      var front, last := parts[..|parts| - 1], parts[|parts| - 1];
      assert parts == front + [last];
      DirectivesClosedForm(front);
      CollectsAppend(ApplyAll(front, NO_DIRECTIVES), front, last);
    }
  }

  // What the header lines ask for

  /** The part occurs in some Cache-Control line. */
  ghost predicate PartOf(headers: seq<Header>, part: string) {
    exists i :: 0 <= i < |headers| && EqualIgnoreCase(headers[i].0, "cache-control")
                && part in Text.Split(headers[i].1, ',')
  }

  ghost predicate Asks(headers: seq<Header>, directive: Directive) {
    exists part :: PartOf(headers, part) && ReadDirective(part) == directive
  }

  /** The least max-age that any line gives, if there is one. */
  ghost predicate LeastAsked(least: Option<Duration>, headers: seq<Header>) {
    match least
    case None => forall l :: !Asks(headers, MaxAge(l))
    case Some(m) => Asks(headers, MaxAge(m)) && forall l :: Asks(headers, MaxAge(l)) ==> m <= l
  }

  lemma {:induction false} PartsOfLines(headers: seq<Header>, part: string)
    ensures part in Parts(CacheControlLines(headers)) <==> PartOf(headers, part)
  {
    if headers == [] {
    } else {
      var n := |headers| - 1;
      var front, last := headers[..n], headers[n];
      PartsOfLines(front, part);
      var lines := CacheControlLines(front);
      assert (lines + [last.1])[..|lines|] == lines && lines + [] == lines;
      if i :| 0 <= i < |front| && EqualIgnoreCase(front[i].0, "cache-control") && part in Text.Split(front[i].1, ',') {
        assert headers[i] == front[i];
      }
      if i :| 0 <= i < |headers| && EqualIgnoreCase(headers[i].0, "cache-control")
              && part in Text.Split(headers[i].1, ',')
      {
        assert i < n ==> front[i] == headers[i];
      }
    }
  }

  lemma AsksIffContains(headers: seq<Header>, directive: Directive)
    ensures Asks(headers, directive) <==> Contains(Parts(CacheControlLines(headers)), directive)
  {
    var parts := Parts(CacheControlLines(headers));
    if part :| PartOf(headers, part) && ReadDirective(part) == directive {
      PartsOfLines(headers, part);
    }
    if part :| part in parts && ReadDirective(part) == directive {
      PartsOfLines(headers, part);
    }
  }

  /** Every line counts, wherever it stands: each flag is set by any part of any line that names it, and max-age
      is the least that any part of any line gives. */
  lemma EveryLineCounts(headers: seq<Header>)
    ensures var d := DirectivesOf(headers);
      && (d.noStore <==> Asks(headers, NoStore))
      && (d.noCache <==> Asks(headers, NoCache))
      && (d.mustRevalidate <==> Asks(headers, MustRevalidate))
      && LeastAsked(d.maxAge, headers)
  {
    DirectivesClosedForm(Parts(CacheControlLines(headers)));
    AsksIffContains(headers, NoStore);
    AsksIffContains(headers, NoCache);
    AsksIffContains(headers, MustRevalidate);
    forall l: Duration
      ensures Asks(headers, MaxAge(l)) <==> Contains(Parts(CacheControlLines(headers)), MaxAge(l))
    {
      AsksIffContains(headers, MaxAge(l));
    }
  }

  lemma LeastIsUnique(a: Option<Duration>, b: Option<Duration>, g: seq<Header>, h: seq<Header>)
    requires forall l: Duration :: Asks(g, MaxAge(l)) <==> Asks(h, MaxAge(l))
    requires LeastAsked(a, g) && LeastAsked(b, h)
    ensures a == b
  {
    if a.Some? {
      assert Asks(h, MaxAge(a.value));
    }
    if b.Some? {
      assert Asks(g, MaxAge(b.value));
    }
  }

  lemma SameAsks(g: seq<Header>, h: seq<Header>, directive: Directive)
    requires forall part :: PartOf(g, part) <==> PartOf(h, part)
    ensures Asks(g, directive) <==> Asks(h, directive)
  {
    if part :| PartOf(g, part) && ReadDirective(part) == directive {
      assert PartOf(h, part);
    }
    if part :| PartOf(h, part) && ReadDirective(part) == directive {
      assert PartOf(g, part);
    }
  }

  /** Order, repetition and the split into lines do not matter: equal sets of parts give equal directives. */
  lemma OnlyTheSetOfPartsMatters(g: seq<Header>, h: seq<Header>)
    requires forall part :: PartOf(g, part) <==> PartOf(h, part)
    ensures DirectivesOf(g) == DirectivesOf(h)
  {
    EveryLineCounts(g);
    EveryLineCounts(h);
    SameAsks(g, h, NoStore);
    SameAsks(g, h, NoCache);
    SameAsks(g, h, MustRevalidate);
    forall l: Duration ensures Asks(g, MaxAge(l)) <==> Asks(h, MaxAge(l)) {
      SameAsks(g, h, MaxAge(l));
    }
    LeastIsUnique(DirectivesOf(g).maxAge, DirectivesOf(h).maxAge, g, h);
  }

  // Strict directives

  /** Some line of the response asks for no reuse without asking again. */
  ghost predicate Strict(headers: seq<Header>) {
    Asks(headers, NoStore) || Asks(headers, NoCache) || Asks(headers, MustRevalidate)
  }

  predicate PermitsStale(policy: Policy) {
    policy.CacheFor? && !policy.mustRevalidate
  }

  /** For every minimum, stale use is permitted exactly if no directive is strict. */
  lemma StaleUseIffNotStrict(headers: seq<Header>, defaultLifetime: Duration, minimum: Duration, parseDate: DateParser,
                             now: SystemTime)
    ensures PermitsStale(ApplyMinimum(PolicyOf(headers, defaultLifetime, parseDate, now), minimum))
       <==> !Strict(headers)
  {
    EveryLineCounts(headers);
  }

  /** With no-store nothing is kept, and otherwise with no-cache nothing is used without asking: neither leaves any
      freshness. */
  lemma StrictLifetimes(headers: seq<Header>, defaultLifetime: Duration, parseDate: DateParser, now: SystemTime)
    ensures PolicyOf(headers, defaultLifetime, parseDate, now) == DoNotStore <==> Asks(headers, NoStore)
    ensures PolicyOf(headers, defaultLifetime, parseDate, now) == Revalidate
       <==> Asks(headers, NoCache) && !Asks(headers, NoStore)
  {
    EveryLineCounts(headers);
  }

  lemma MaxAgeSpelling(digits: string)
    requires digits != [] && AllDigits(digits)
    ensures ReadDirective("max-age=" + digits) == MaxAge(ParseDeltaSeconds(digits))
  {
    var part := "max-age=" + digits;
    assert part[0] == 'm' && part[|part| - 1] == digits[|digits| - 1];
    assert Digit(digits[|digits| - 1]);
    assert "" + part + "" == part;
    TrimPadded("", part, "");
    assert part == "max-age" + ['='] + digits;
    Text.SplitOnceAt("max-age", '=', digits);
    ParseDigits(digits, 0);
    assert "" + "max-age" + "" == "max-age";
    assert "max-age"[0] == 'm' && "max-age"[6] == 'e';
    TrimPadded("", "max-age", "");
    forall i | 0 <= i < 7 ensures Lower("max-age"[i]) == Lower("max-age"[i]) {
    }
  }

  // Freshness arithmetic

  /** How long the policy lets a response be used without asking again. */
  function FreshFor(policy: Policy): Duration {
    if policy.CacheFor? then policy.lifetime else 0
  }

  /** The minimum acts as a floor under every policy. */
  lemma MinimumIsFloor(policy: Policy, minimum: Duration)
    ensures FreshFor(ApplyMinimum(policy, minimum)) == Max(FreshFor(policy), minimum)
  {
  }

  /** A string of digits is capped at 2^31 seconds exactly while it denotes a 128-bit number;
      a larger one is taken as zero. */
  lemma DeltaSecondsOfDigits(digits: string)
    requires digits != [] && AllDigits(digits)
    ensures ParseDeltaSeconds(digits) == Min(Numeral(digits), MAX_DELTA_SECONDS) * SECOND
       <==> Numeral(digits) <= MAX_U128
    ensures Numeral(digits) > MAX_U128 ==> ParseDeltaSeconds(digits) == 0
  {
    ParseDigits(digits, MAX_U128);
  }

  /** The value is a numeral, perhaps with a plus sign, between any number of quotes. */
  ghost predicate Spells(value: string, before: string, sign: string, digits: string, after: string) {
    && value == before + (sign + digits + after)
    && (forall c :: c in before + after ==> Quote(c))
    && (sign == "" || sign == "+")
    && digits != [] && AllDigits(digits)
  }

  lemma DeltaSecondsOfNumeral(value: string, before: string, sign: string, digits: string, after: string)
    requires Spells(value, before, sign, digits, after)
    ensures ParseDeltaSeconds(value)
         == if Numeral(digits) <= MAX_U128 then Min(Numeral(digits), MAX_DELTA_SECONDS) * SECOND else 0
  {
    var s := sign + digits;
    assert Digit(digits[0]) && Digit(digits[|digits| - 1]) && s[|s| - 1] == digits[|digits| - 1];
    assert value == before + s + after;
    BothPadded(before, s, after, Quote);
    assert sign == "+" ==> s[1..] == digits;
    assert sign == "" ==> s == digits;
  }

  lemma SpellingOfPositive(value: string) returns (before: string, sign: string, digits: string, after: string)
    requires ParseDeltaSeconds(value) > 0
    ensures Spells(value, before, sign, digits, after) && 0 < Numeral(digits) <= MAX_U128
  {
    before := TrimStartSplits(value, Quote);
    after := TrimEndSplits(TrimStart(value, Quote), Quote);
    sign, digits := SignAndDigits(TrimQuotes(value), MAX_U128);
  }

  /** Which values give a positive lifetime: exactly the spellings of a positive 128-bit number. */
  lemma PositiveDeltaSeconds(value: string)
    ensures ParseDeltaSeconds(value) > 0
       <==> exists before, sign, digits, after ::
              Spells(value, before, sign, digits, after) && 0 < Numeral(digits) <= MAX_U128
  {
    if ParseDeltaSeconds(value) > 0 {
      var before, sign, digits, after := SpellingOfPositive(value);
    }
    forall before, sign, digits, after | Spells(value, before, sign, digits, after)
      ensures 0 < Numeral(digits) <= MAX_U128 ==> ParseDeltaSeconds(value) > 0
    {
      DeltaSecondsOfNumeral(value, before, sign, digits, after);
    }
  }

  /** Section 1.2.2 of RFC 9111 asks for the cap where the code takes zero: one such value. */
  lemma OversizedMaxAgeIsNotCapped()
    ensures ReadDirective("max-age=" + Decimal(MAX_U128 + 1)) == MaxAge(0)
  {
    DecimalDenotes(MAX_U128 + 1);
    MaxAgeSpelling(Decimal(MAX_U128 + 1));
    DeltaSecondsOfDigits(Decimal(MAX_U128 + 1));
  }

  /** With max-age, the lifetime is what the larger of the two ages leaves of the least max-age. */
  lemma MaxAgeLifetime(headers: seq<Header>, least: Duration, defaultLifetime: Duration, parseDate: DateParser,
                       now: SystemTime)
    requires LeastAsked(Some(least), headers) && !Asks(headers, NoStore) && !Asks(headers, NoCache)
    ensures PolicyOf(headers, defaultLifetime, parseDate, now)
         == CacheFor(Max(0, least - Max(StatedAge(headers).GetOr(0),
                                        ApparentAge(ResponseDate(headers, parseDate), now).GetOr(0))),
                     Asks(headers, MustRevalidate))
  {
    EveryLineCounts(headers);
    LeastIsUnique(DirectivesOf(headers).maxAge, Some(least), headers, headers);
  }

  lemma NothingAsked(headers: seq<Header>)
    requires LeastAsked(None, headers) && !Asks(headers, NoStore) && !Asks(headers, NoCache)
    ensures var d := DirectivesOf(headers);
      !d.noStore && !d.noCache && d.maxAge == None && (d.mustRevalidate <==> Asks(headers, MustRevalidate))
  {
    EveryLineCounts(headers);
    LeastIsUnique(DirectivesOf(headers).maxAge, None, headers, headers);
  }

  lemma WithoutMaxAge(d: Directives, expires: Option<string>, date: Option<SystemTime>, stated: Option<Duration>,
                      apparent: Option<Duration>, defaultLifetime: Duration, parseDate: DateParser, now: SystemTime)
    requires !d.noStore && !d.noCache && d.maxAge.None?
    ensures
      var age := Max(stated.GetOr(0), apparent.GetOr(0));
      ComputePolicy(d, expires, date, Age(stated, apparent), defaultLifetime, parseDate, now)
      == CacheFor(if expires.None? then Max(0, defaultLifetime - age)
                  else if parseDate(expires.value).None? then 0
                  else Max(0, parseDate(expires.value).value - date.GetOr(now) - age),
                  d.mustRevalidate)
  {
  }

  lemma LifetimesWithoutMaxAge(headers: seq<Header>, defaultLifetime: Duration, parseDate: DateParser, now: SystemTime)
    requires var d := DirectivesOf(headers); !d.noStore && !d.noCache && d.maxAge.None?
    ensures
      var date := ResponseDate(headers, parseDate);
      var age := Max(StatedAge(headers).GetOr(0), ApparentAge(date, now).GetOr(0));
      var expires := Find(headers, "expires");
      PolicyOf(headers, defaultLifetime, parseDate, now)
      == CacheFor(if expires.None? then Max(0, defaultLifetime - age)
                  else if parseDate(expires.value).None? then 0
                  else Max(0, parseDate(expires.value).value - date.GetOr(now) - age),
                  DirectivesOf(headers).mustRevalidate)
  {
    var d, expires := DirectivesOf(headers), Find(headers, "expires");
    var date, stated := ResponseDate(headers, parseDate), StatedAge(headers);
    WithoutMaxAge(d, expires, date, stated, ApparentAge(date, now), defaultLifetime, parseDate, now);
  }

  /** Without max-age, Expires counts from the Date of the response or else from now, an unreadable value
      counts as expired, and without Expires the default is used; the greater age is taken off each. */
  lemma OtherLifetimes(headers: seq<Header>, defaultLifetime: Duration, parseDate: DateParser, now: SystemTime)
    requires LeastAsked(None, headers) && !Asks(headers, NoStore) && !Asks(headers, NoCache)
    ensures
      var date := ResponseDate(headers, parseDate);
      var age := Max(StatedAge(headers).GetOr(0), ApparentAge(date, now).GetOr(0));
      var expires := Find(headers, "expires");
      PolicyOf(headers, defaultLifetime, parseDate, now)
      == CacheFor(if expires.None? then Max(0, defaultLifetime - age)
                  else if parseDate(expires.value).None? then 0
                  else Max(0, parseDate(expires.value).value - date.GetOr(now) - age),
                  Asks(headers, MustRevalidate))
  {
    NothingAsked(headers);
    LifetimesWithoutMaxAge(headers, defaultLifetime, parseDate, now);
  }

  lemma SingleLine(line: string)
    requires ',' !in line
    ensures DirectivesOf([("cache-control", line)]) == Apply(NO_DIRECTIVES, ReadDirective(line))
  {
    var headers := [("cache-control", line)];
    assert headers[..0] == [] && EqualIgnoreCase("cache-control", "cache-control");
    assert CacheControlLines(headers) == [] + [line] == [line];
    Text.SplitJoin([line], ',');
    assert [line][..0] == [];
    assert Parts([line]) == Parts([]) + [line];
    assert Parts([line]) == [line];
    assert ApplyAll([line], NO_DIRECTIVES) == Apply(ApplyAll([], NO_DIRECTIVES), ReadDirective(line));
  }

  lemma LoneHeader(name: string, value: string, other: string)
    requires |name| != |other|
    ensures Find([(name, value)], other) == None
  {
    assert [(name, value)][1..] == [];
  }

  lemma LoneLinePolicy(line: string, defaultLifetime: Duration, parseDate: DateParser, now: SystemTime)
    ensures PolicyOf([("cache-control", line)], defaultLifetime, parseDate, now)
         == ComputePolicy(DirectivesOf([("cache-control", line)]), None, None, None, defaultLifetime, parseDate, now)
  {
    LoneHeader("cache-control", line, "age");
    LoneHeader("cache-control", line, "date");
    LoneHeader("cache-control", line, "expires");
  }

  lemma MaxAgeLine(digits: string)
    requires digits != [] && AllDigits(digits)
    ensures DirectivesOf([("cache-control", "max-age=" + digits)])
         == NO_DIRECTIVES.(maxAge := Some(ParseDeltaSeconds(digits)))
  {
    var line := "max-age=" + digits;
    forall i | 0 <= i < |line| ensures line[i] != ',' {
      if i >= 8 {
        assert line[i] == digits[i - 8] && digits[i - 8] in digits;
      }
    }
    SingleLine(line);
    MaxAgeSpelling(digits);
  }

  /** A response line "Cache-Control: max-age=n", for every n. */
  lemma SingleMaxAge(n: nat, defaultLifetime: Duration, parseDate: DateParser, now: SystemTime)
    ensures PolicyOf([("cache-control", "max-age=" + Decimal(n))], defaultLifetime, parseDate, now)
         == CacheFor(if n < 0x1_0000_0000_0000_0000_0000_0000_0000_0000 then Min(n, 2_147_483_648) * SECOND else 0,
                     false)
  {
    DecimalDenotes(n);
    MaxAgeLine(Decimal(n));
    DeltaSecondsOfDigits(Decimal(n));
    LoneLinePolicy("max-age=" + Decimal(n), defaultLifetime, parseDate, now);
  }

  /** Under every precedence, a greater age never gives a longer lifetime. */
  lemma OlderIsNotFresher(directives: Directives, expires: Option<string>, date: Option<SystemTime>,
                          younger: Option<Duration>, older: Option<Duration>, defaultLifetime: Duration,
                          parseDate: DateParser, now: SystemTime)
    requires younger.GetOr(0) <= older.GetOr(0)
    ensures FreshFor(ComputePolicy(directives, expires, date, older, defaultLifetime, parseDate, now))
         <= FreshFor(ComputePolicy(directives, expires, date, younger, defaultLifetime, parseDate, now))
  {
  }

  lemma LaterIsOlder(d: Directives, expires: Option<string>, date: Option<SystemTime>, stated: Option<Duration>,
                     defaultLifetime: Duration, parseDate: DateParser, now: SystemTime, later: SystemTime)
    requires now <= later
    ensures
      var young, aged := Age(stated, ApparentAge(date, now)), Age(stated, ApparentAge(date, later));
      var p := ComputePolicy(d, expires, date, young, defaultLifetime, parseDate, now);
      var q := ComputePolicy(d, expires, date, aged, defaultLifetime, parseDate, later);
      FreshFor(q) <= FreshFor(p) && (PermitsStale(q) <==> PermitsStale(p))
  {
  }

  /** Reading the same response later never gives a longer lifetime, and never changes stale permission. */
  lemma LaterIsNotFresher(headers: seq<Header>, defaultLifetime: Duration, parseDate: DateParser, now: SystemTime,
                          later: SystemTime)
    requires now <= later
    ensures FreshFor(PolicyOf(headers, defaultLifetime, parseDate, later))
         <= FreshFor(PolicyOf(headers, defaultLifetime, parseDate, now))
    ensures PermitsStale(PolicyOf(headers, defaultLifetime, parseDate, later))
       <==> PermitsStale(PolicyOf(headers, defaultLifetime, parseDate, now))
  {
    LaterIsOlder(DirectivesOf(headers), Find(headers, "expires"), ResponseDate(headers, parseDate), StatedAge(headers),
                 defaultLifetime, parseDate, now, later);
  }
}
