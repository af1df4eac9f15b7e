/** Escapes may be written with digits of either case, in the whole of a callback query (src/flow/callback.rs). */
module EscapeCase {
  import opened Wrappers
  import opened Utf8
  import opened FormUrlEncoded
  import opened Callback
  import Text

  function LowerDigit(b: byte): byte {
    if 0x41 <= b <= 0x46 then b + 0x20 else b
  }

  predicate EscapeFirst(bs: seq<byte>) {
    |bs| >= 3 && bs[0] == PERCENT && IsHex(bs[1]) && IsHex(bs[2])
  }

  /** The text with the digits of all its escapes in lower case, and nothing else changed. */
  function Lowered(bs: seq<byte>): seq<byte>
    decreases |bs|
  {
    if bs == [] then []
    else if EscapeFirst(bs) then [PERCENT, LowerDigit(bs[1]), LowerDigit(bs[2])] + Lowered(bs[3..])
    else [bs[0]] + Lowered(bs[1..])
  }

  lemma LowerDigitValue(b: byte)
    ensures HexValue(LowerDigit(b)) == HexValue(b)
  {
  }

  lemma EscapesAfterLone(rest: seq<byte>)
    requires |rest| >= 2 ==> !IsHex(rest[0]) || !IsHex(rest[1])
    ensures !EscapesComplete([PERCENT] + rest)
  {
    assert PercentAt([PERCENT] + rest, 0) && !HexPairAt([PERCENT] + rest, 1);
  }

  lemma {:induction false} StartsAlike(bs: seq<byte>)
    ensures |Lowered(bs)| == |bs|
    ensures bs != [] ==> HexValue(Lowered(bs)[0]) == HexValue(bs[0])
    ensures |bs| >= 2 ==> (IsHex(bs[0]) ==> HexValue(Lowered(bs)[1]) == HexValue(bs[1]))
    decreases |bs|
  {
    if bs == [] {
    } else if EscapeFirst(bs) {
      StartsAlike(bs[3..]);
    } else {
      StartsAlike(bs[1..]);
    }
  }

  /** The two components decode to the same, and are as complete. */
  ghost predicate Alike(a: seq<byte>, b: seq<byte>) {
    DecodeBytes(a) == DecodeBytes(b) && (EscapesComplete(a) <==> EscapesComplete(b))
  }

  lemma EscapeAlike(h: byte, l: byte, a: seq<byte>, b: seq<byte>)
    requires IsHex(h) && IsHex(l) && Alike(a, b)
    ensures Alike([PERCENT, LowerDigit(h), LowerDigit(l)] + a, [PERCENT, h, l] + b)
  {
    LowerDigitValue(h);
    LowerDigitValue(l);
    DecodeEscape(LowerDigit(h), LowerDigit(l), a);
    EscapesAfterEscape(LowerDigit(h), LowerDigit(l), a);
    DecodeEscape(h, l, b);
    EscapesAfterEscape(h, l, b);
  }

  lemma PlainAlike(c: byte, a: seq<byte>, b: seq<byte>)
    requires c != PERCENT && Alike(a, b)
    ensures Alike([c] + a, [c] + b)
  {
    DecodePlain(c, a);
    DecodePlain(c, b);
    EscapesAfterPlain(c, a);
    EscapesAfterPlain(c, b);
  }

  lemma LoneAlike(a: seq<byte>, b: seq<byte>)
    requires Alike(a, b)
    requires |a| >= 2 ==> !IsHex(a[0]) || !IsHex(a[1])
    requires |b| >= 2 ==> !IsHex(b[0]) || !IsHex(b[1])
    ensures Alike([PERCENT] + a, [PERCENT] + b)
  {
    LonePercent(a);
    LonePercent(b);
    EscapesAfterLone(a);
    EscapesAfterLone(b);
  }

  lemma {:induction false} LoweredDecodes(c: seq<byte>)
    ensures Alike(Lowered(c), c)
    decreases |c|
  {
    if c == [] {
    } else if EscapeFirst(c) {
      LoweredDecodes(c[3..]);
      assert c == [PERCENT, c[1], c[2]] + c[3..];
      EscapeAlike(c[1], c[2], Lowered(c[3..]), c[3..]);
    } else {
      LoweredDecodes(c[1..]);
      assert c == [c[0]] + c[1..];
      if c[0] == PERCENT {
        StartsAlike(c[1..]);
        LoneAlike(Lowered(c[1..]), c[1..]);
      } else {
        PlainAlike(c[0], Lowered(c[1..]), c[1..]);
      }
    }
  }

  // Separators stay where they are

  predicate Separates(sep: byte) {
    sep != PERCENT && !IsHex(sep)
  }

  lemma Prepend<T>(first: seq<T>, a: seq<T>, b: seq<T>, c: seq<T>)
    ensures first + (a + b + c) == (first + a) + b + c
  {
    Text.Regroup(first, a + b, c);
    Text.Regroup(first, a, b);
  }

  lemma {:induction false} LoweredPast(a: seq<byte>, sep: byte, b: seq<byte>)
    requires Separates(sep)
    ensures Lowered(a + [sep] + b) == Lowered(a) + [sep] + Lowered(b)
    decreases |a|
  {
    var all := a + [sep] + b;
    if a == [] {
      assert all[1..] == b && all[0] == sep;
    } else if EscapeFirst(a) {
      assert all[3..] == a[3..] + [sep] + b;
      LoweredPast(a[3..], sep, b);
      Prepend([PERCENT, LowerDigit(a[1]), LowerDigit(a[2])], Lowered(a[3..]), [sep], Lowered(b));
    } else {
      assert all[1..] == a[1..] + [sep] + b;
      assert |a| <= 2 ==> all[|a|] == sep;
      assert !EscapeFirst(all);
      LoweredPast(a[1..], sep, b);
      Prepend([a[0]], Lowered(a[1..]), [sep], Lowered(b));
    }
  }

  lemma {:induction false} LoweredMembers(a: seq<byte>, sep: byte)
    requires Separates(sep)
    ensures sep in Lowered(a) <==> sep in a
    decreases |a|
  {
    if a == [] {
    } else if EscapeFirst(a) {
      assert a == [PERCENT, a[1], a[2]] + a[3..];
      LowerDigitValue(a[1]);
      LowerDigitValue(a[2]);
      LoweredMembers(a[3..], sep);
    } else {
      assert a == [a[0]] + a[1..];
      LoweredMembers(a[1..], sep);
    }
  }

  lemma SplitOnceLowered(a: seq<byte>, sep: byte)
    requires Separates(sep)
    ensures Text.SplitOnce(Lowered(a), sep)
         == match Text.SplitOnce(a, sep)
            case None => None
            case Some((x, y)) => Some((Lowered(x), Lowered(y)))
  {
    match Text.SplitOnce(a, sep) {
      case None => LoweredMembers(a, sep);
      case Some((x, y)) =>
        LoweredPast(x, sep, y);
        LoweredMembers(x, sep);
        Text.SplitOnceAt(Lowered(x), sep, Lowered(y));
    }
  }

  function AllLowered(parts: seq<seq<byte>>): (r: seq<seq<byte>>)
    ensures |r| == |parts| && forall i :: 0 <= i < |parts| ==> r[i] == Lowered(parts[i])
  {
    if parts == [] then [] else [Lowered(parts[0])] + AllLowered(parts[1..])
  }

  lemma {:induction false} SplitLowered(a: seq<byte>, sep: byte)
    requires Separates(sep)
    ensures Text.Split(Lowered(a), sep) == AllLowered(Text.Split(a, sep))
    decreases |a|
  {
    SplitOnceLowered(a, sep);
    match Text.SplitOnce(a, sep) {
      case None =>
      case Some((x, y)) =>
        SplitLowered(y, sep);
        assert Text.Split(a, sep)[1..] == Text.Split(y, sep);
    }
  }

  lemma FieldLowered(field: seq<byte>)
    ensures WellFormedField(Lowered(field)) <==> WellFormedField(field)
    ensures ParseField(Lowered(field)) == ParseField(field)
    ensures Lowered(field) == [] <==> field == []
  {
    var (name, value) := SplitField(field);
    SplitOnceLowered(field, EQUALS);
    assert SplitField(Lowered(field)) == (Lowered(name), Lowered(value));
    LoweredDecodes(name);
    LoweredDecodes(value);
  }

  lemma {:induction false} FieldsLowered(fields: seq<seq<byte>>)
    ensures ParseFields(AllLowered(fields)) == ParseFields(fields)
  {
    if fields == [] {
    } else {
      FieldLowered(fields[0]);
      FieldsLowered(fields[1..]);
      assert AllLowered(fields)[1..] == AllLowered(fields[1..]);
    }
  }

  lemma WellFormedLowered(raw: seq<byte>)
    ensures WellFormed(Lowered(raw)) <==> WellFormed(raw)
  {
    var fields, lowered := Text.Split(raw, AMPERSAND), Text.Split(Lowered(raw), AMPERSAND);
    SplitLowered(raw, AMPERSAND);
    forall field: seq<byte> ensures WellFormedField(Lowered(field)) <==> WellFormedField(field) {
      FieldLowered(field);
    }
    if WellFormed(raw) {
      forall i | 0 <= i < |lowered| ensures WellFormedField(lowered[i]) {
        assert fields[i] in fields;
      }
    }
    if WellFormed(Lowered(raw)) {
      forall i | 0 <= i < |fields| ensures WellFormedField(fields[i]) {
        assert lowered[i] in lowered;
      }
    }
  }

  lemma LoweredParses(raw: seq<byte>)
    ensures ParseResponse(Lowered(raw)) == ParseResponse(raw)
  {
    WellFormedLowered(raw);
    SplitLowered(raw, AMPERSAND);
    FieldsLowered(Text.Split(raw, AMPERSAND));
  }

  /** Two queries that differ only in the letter case of the digits of their escapes have the same outcome. */
  lemma EscapeCaseIrrelevant(raw1: seq<byte>, raw2: seq<byte>)
    requires Lowered(raw1) == Lowered(raw2)
    ensures ParseResponse(raw1) == ParseResponse(raw2)
  {
    LoweredParses(raw1);
    LoweredParses(raw2);
  }
}
