/** The Age header of a discovery response, from its text to the lifetime (src/metadata/cache.rs). */
module AgeHeader {
  import opened Wrappers
  import opened Time
  import opened Ascii
  import opened CachePolicy

  // The text of an age

  /** The text of a number, perhaps with a plus sign. */
  ghost predicate Writes(text: string, sign: string, digits: string) {
    text == sign + digits && (sign == "" || sign == "+") && digits != [] && AllDigits(digits)
  }

  /** A number of seconds is known exactly if it has 64 bits. */
  lemma AgeOfNumber(text: string, sign: string, digits: string)
    requires Writes(text, sign, digits)
    ensures AgeOfText(text)
         == if Numeral(digits) < 18_446_744_073_709_551_616 then Some(Numeral(digits) * SECOND) else None
  {
    assert Digit(digits[0]);
    assert sign == "+" ==> text[1..] == digits;
    assert sign == "" ==> text == digits;
  }

  /** And nothing else is. */
  lemma AgeIsNumber(text: string)
    ensures AgeOfText(text).Some?
       <==> exists sign, digits :: Writes(text, sign, digits) && Numeral(digits) <= MAX_U64
  {
    if AgeOfText(text).Some? {
      var sign, digits := SignAndDigits(text, MAX_U64);
      assert Writes(text, sign, digits);
    }
    forall sign, digits | Writes(text, sign, digits)
      ensures Numeral(digits) <= MAX_U64 ==> AgeOfText(text).Some?
    {
      AgeOfNumber(text, sign, digits);
    }
  }

  lemma AgeOfDigits(digits: string)
    requires digits != [] && AllDigits(digits)
    ensures AgeOfText(digits) == if Numeral(digits) <= MAX_U64 then Some(Numeral(digits) * SECOND) else None
  {
    assert digits == "" + digits;
    AgeOfNumber(digits, "", digits);
  }

  // The line among the others

  lemma {:induction false} FindPast(before: seq<Header>, line: Header, after: seq<Header>, name: string)
    requires !EqualIgnoreCase(line.0, name)
    ensures Find(before + [line] + after, name) == Find(before + after, name)
  {
    if before == [] {
      assert [line] + after == before + [line] + after && ([line] + after)[1..] == after;
      assert before + after == after;
    } else {
      assert (before + [line] + after)[1..] == before[1..] + [line] + after;
      assert (before + after)[1..] == before[1..] + after;
      FindPast(before[1..], line, after, name);
    }
  }

  lemma {:induction false} FindAt(before: seq<Header>, line: Header, after: seq<Header>, name: string)
    requires EqualIgnoreCase(line.0, name) && Find(before, name) == None
    ensures Find(before + [line] + after, name) == Some(line.1)
  {
    if before == [] {
    } else {
      assert (before + [line] + after)[1..] == before[1..] + [line] + after;
      FindAt(before[1..], line, after, name);
    }
  }

  lemma {:induction false} LinesPast(before: seq<Header>, line: Header, after: seq<Header>)
    requires !EqualIgnoreCase(line.0, "cache-control")
    ensures CacheControlLines(before + [line] + after) == CacheControlLines(before + after)
  {
    if after == [] {
      assert before + [line] + after == before + [line] && before + after == before;
      assert (before + [line])[..|before|] == before;
    } else {
      var n := |after| - 1;
      var all, rest := before + [line] + after, before + after;
      assert all[..|all| - 1] == before + [line] + after[..n] && rest[..|rest| - 1] == before + after[..n];
      LinesPast(before, line, after[..n]);
    }
  }

  /** The first Age line of a response, with any other lines around it. */
  function WithAge(before: seq<Header>, text: string, after: seq<Header>): seq<Header> {
    before + [("age", text)] + after
  }

  /** The Age line decides the stated age, and nothing else. */
  lemma PolicyWithAge(before: seq<Header>, text: string, after: seq<Header>, defaultLifetime: Duration,
                      parseDate: DateParser, now: SystemTime)
    requires Find(before, "age") == None
    ensures var others := before + after;
      var date := ResponseDate(others, parseDate);
      PolicyOf(WithAge(before, text, after), defaultLifetime, parseDate, now)
      == ComputePolicy(DirectivesOf(others), Find(others, "expires"), date,
                       Age(AgeOfText(text), ApparentAge(date, now)), defaultLifetime, parseDate, now)
  {
    var line := ("age", text);
    assert |"age"| == 3 && |"date"| == 4 && |"expires"| == 7 && |"cache-control"| == 13;
    FindAt(before, line, after, "age");
    FindPast(before, line, after, "date");
    FindPast(before, line, after, "expires");
    LinesPast(before, line, after);
  }

  // Older is not fresher, from the text on

  ghost function FreshWithAge(before: seq<Header>, text: string, after: seq<Header>, defaultLifetime: Duration,
                              parseDate: DateParser, now: SystemTime): Duration {
    FreshFor(PolicyOf(WithAge(before, text, after), defaultLifetime, parseDate, now))
  }

  /** Whatever the other lines say, text b never gives a longer lifetime than text a. */
  ghost predicate NeverFresher(a: string, b: string, parseDate: DateParser) {
    forall before: seq<Header>, after: seq<Header>, defaultLifetime: Duration, now: SystemTime ::
      Find(before, "age") == None ==>
        FreshWithAge(before, b, after, defaultLifetime, parseDate, now)
        <= FreshWithAge(before, a, after, defaultLifetime, parseDate, now)
  }

  lemma OlderTextIsNotFresher(a: string, b: string, before: seq<Header>, after: seq<Header>, defaultLifetime: Duration,
                              parseDate: DateParser, now: SystemTime)
    requires Find(before, "age") == None && AgeOfText(a).GetOr(0) <= AgeOfText(b).GetOr(0)
    ensures FreshWithAge(before, b, after, defaultLifetime, parseDate, now)
         <= FreshWithAge(before, a, after, defaultLifetime, parseDate, now)
  {
    var others := before + after;
    var date := ResponseDate(others, parseDate);
    var apparent := ApparentAge(date, now);
    PolicyWithAge(before, a, after, defaultLifetime, parseDate, now);
    PolicyWithAge(before, b, after, defaultLifetime, parseDate, now);
    OlderIsNotFresher(DirectivesOf(others), Find(others, "expires"), date, Age(AgeOfText(a), apparent),
                      Age(AgeOfText(b), apparent), defaultLifetime, parseDate, now);
  }

  lemma AgeOnly(text: string, defaultLifetime: Duration, parseDate: DateParser, now: SystemTime)
    ensures FreshWithAge([], text, [], defaultLifetime, parseDate, now)
         == SaturatingSub(defaultLifetime, AgeOfText(text).GetOr(0))
  {
    var none: seq<Header> := [];
    assert none + none == none;
    PolicyWithAge(none, text, none, defaultLifetime, parseDate, now);
    assert DirectivesOf(none) == NO_DIRECTIVES;
  }

  /** For every two texts, the order of the ages that are understood is exactly what decides. */
  lemma NeverFresherIff(a: string, b: string, parseDate: DateParser)
    ensures NeverFresher(a, b, parseDate) <==> AgeOfText(a).GetOr(0) <= AgeOfText(b).GetOr(0)
  {
    if NeverFresher(a, b, parseDate) {
      var age := AgeOfText(a).GetOr(0);
      assert FreshWithAge([], b, [], age, parseDate, 0) <= FreshWithAge([], a, [], age, parseDate, 0);
      AgeOnly(a, age, parseDate, 0);
      AgeOnly(b, age, parseDate, 0);
    }
    if AgeOfText(a).GetOr(0) <= AgeOfText(b).GetOr(0) {
      forall before: seq<Header>, after: seq<Header>, defaultLifetime: Duration, now: SystemTime
        ensures Find(before, "age") == None ==>
          FreshWithAge(before, b, after, defaultLifetime, parseDate, now)
          <= FreshWithAge(before, a, after, defaultLifetime, parseDate, now)
      {
        if Find(before, "age") == None {
          OlderTextIsNotFresher(a, b, before, after, defaultLifetime, parseDate, now);
        }
      }
    }
  }

  /** A greater number of seconds never gives a longer lifetime exactly if it has 64 bits, or the smaller is zero
      or has more than 64 bits itself. */
  lemma OlderDigitsIff(a: string, b: string, parseDate: DateParser)
    requires a != [] && AllDigits(a) && b != [] && AllDigits(b) && Numeral(a) <= Numeral(b)
    ensures NeverFresher(a, b, parseDate) <==> Numeral(b) <= MAX_U64 || Numeral(a) == 0 || Numeral(a) > MAX_U64
  {
    NeverFresherIff(a, b, parseDate);
    AgeOfDigits(a);
    AgeOfDigits(b);
  }

  // A whole response

  /** The age that "age: n" states. */
  function StatedSeconds(n: nat): Duration {
    if n <= MAX_U64 then n * SECOND else 0
  }

  /** The lifetime that "max-age=n" states. */
  function MaxAgeSeconds(n: nat): Duration {
    if n <= MAX_U128 then Min(n, MAX_DELTA_SECONDS) * SECOND else 0
  }

  function DateLine(date: Option<string>): seq<Header> {
    if date.Some? then [("date", date.value)] else []
  }

  lemma MaxAgeAndDate(n: nat, date: Option<string>)
    ensures var headers := [("cache-control", "max-age=" + Decimal(n))] + DateLine(date);
      && DirectivesOf(headers) == NO_DIRECTIVES.(maxAge := Some(MaxAgeSeconds(n)))
      && Find(headers, "date") == date && Find(headers, "expires") == None
  {
    var line := ("cache-control", "max-age=" + Decimal(n));
    assert |"date"| == 4 && |"expires"| == 7 && |"cache-control"| == 13;
    DecimalDenotes(n);
    MaxAgeLine(Decimal(n));
    DeltaSecondsOfDigits(Decimal(n));
    assert [line] + [] == [line];
    LoneHeader(line.0, line.1, "date");
    LoneHeader(line.0, line.1, "expires");
    if date.Some? {
      var dated := ("date", date.value);
      assert [line] + [dated] == [line] + [dated] + [];
      FindAt([line], dated, [], "date");
      FindPast([line], dated, [], "expires");
      LinesPast([line], dated, []);
    }
  }

  function ElapsedSince(sent: Option<SystemTime>, now: SystemTime): Duration {
    if sent.Some? then Max(0, now - sent.value) else 0
  }

  lemma AgedMaxAge(lifetime: Duration, stated: Option<Duration>, sent: Option<SystemTime>, defaultLifetime: Duration,
                   parseDate: DateParser, now: SystemTime)
    ensures ComputePolicy(NO_DIRECTIVES.(maxAge := Some(lifetime)), None, sent, Age(stated, ApparentAge(sent, now)),
                          defaultLifetime, parseDate, now)
         == CacheFor(Max(0, lifetime - Max(stated.GetOr(0), ElapsedSince(sent, now))), false)
  {
  }

  lemma StatedDecimal(a: nat)
    ensures AgeOfText(Decimal(a)).GetOr(0) == StatedSeconds(a)
  {
    DecimalDenotes(a);
    AgeOfDigits(Decimal(a));
  }

  /** The lines "cache-control: max-age=n", "age: a" and perhaps a date: what the greater of the stated and the
      apparent age leaves of the capped max-age. */
  lemma MaxAgeWithAge(n: nat, a: nat, date: Option<string>, defaultLifetime: Duration, parseDate: DateParser,
                      now: SystemTime)
    ensures
      var sent := if date.Some? then parseDate(date.value) else None;
      PolicyOf([("cache-control", "max-age=" + Decimal(n))] + [("age", Decimal(a))] + DateLine(date), defaultLifetime,
               parseDate, now)
      == CacheFor(Max(0, MaxAgeSeconds(n) - Max(StatedSeconds(a), ElapsedSince(sent, now))), false)
  {
    var before := [("cache-control", "max-age=" + Decimal(n))];
    LoneHeader("cache-control", "max-age=" + Decimal(n), "age");
    PolicyWithAge(before, Decimal(a), DateLine(date), defaultLifetime, parseDate, now);
    MaxAgeAndDate(n, date);
    StatedDecimal(a);
    var sent := if date.Some? then parseDate(date.value) else None;
    AgedMaxAge(MaxAgeSeconds(n), AgeOfText(Decimal(a)), sent, defaultLifetime, parseDate, now);
  }

  /** Section 1.2.2 of RFC 9111 asks for 2^31 seconds where the code takes no age at all: a response of that age
      counts as fresh for the whole of its max-age, one of a minute as stale. */
  lemma OversizedAgeIsDropped(defaultLifetime: Duration, parseDate: DateParser, now: SystemTime)
    ensures
      var response := (age: nat) =>
        [("cache-control", "max-age=" + Decimal(60))] + [("age", Decimal(age))] + DateLine(None);
      && PolicyOf(response(MAX_U64 + 1), defaultLifetime, parseDate, now) == CacheFor(60 * SECOND, false)
      && PolicyOf(response(60), defaultLifetime, parseDate, now) == CacheFor(0, false)
  {
    MaxAgeWithAge(60, MAX_U64 + 1, None, defaultLifetime, parseDate, now);
    MaxAgeWithAge(60, 60, None, defaultLifetime, parseDate, now);
  }
}
