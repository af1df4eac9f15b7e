/** The application/x-www-form-urlencoded format: parsing (section 5.1) and serializing
    (section 5.2) of the WHATWG URL Standard, as the `url` crate performs them. */
module FormUrlEncoded {
  import opened Wrappers
  import opened Utf8
  import Ascii
  import Text

  const PERCENT: byte := 0x25
  const AMPERSAND: byte := 0x26
  const PLUS: byte := 0x2B
  const COLON: byte := 0x3A
  const EQUALS: byte := 0x3D
  const SPACE: byte := 0x20

  function HexValue(b: byte): (v: Option<nat>)
    ensures v.Some? ==> v.value < 16
  {
    if 0x30 <= b <= 0x39 then Some(b - 0x30)
    else if 0x61 <= b <= 0x66 then Some(b - 0x61 + 10)
    else if 0x41 <= b <= 0x46 then Some(b - 0x41 + 10)
    else None
  }

  predicate IsHex(b: byte) {
    HexValue(b).Some?
  }

  // Serializing

  predicate Unreserved(b: byte) {
    0x30 <= b <= 0x39 || 0x41 <= b <= 0x5A || 0x61 <= b <= 0x7A || b in {0x2A, 0x2D, 0x2E, 0x5F}
  }

  function HexDigit(v: nat): byte
    requires v < 16
  {
    if v < 10 then 0x30 + v else 0x41 + (v - 10)
  }

  function EncodeByte(b: byte): seq<byte> {
    if Unreserved(b) then [b]
    else if b == SPACE then [PLUS]
    else [PERCENT, HexDigit(b / 16), HexDigit(b % 16)]
  }

  function EncodeBytes(bs: seq<byte>): seq<byte> {
    if bs == [] then [] else EncodeByte(bs[0]) + EncodeBytes(bs[1..])
  }

  function EncodeComponent(s: string): seq<byte> {
    EncodeBytes(Encode(s))
  }

  function EncodePair(pair: (string, string)): seq<byte> {
    EncodeComponent(pair.0) + [EQUALS] + EncodeComponent(pair.1)
  }

  function EncodedPairs(pairs: seq<(string, string)>): seq<seq<byte>> {
    if pairs == [] then [] else [EncodePair(pairs[0])] + EncodedPairs(pairs[1..])
  }

  function Serialize(pairs: seq<(string, string)>): seq<byte> {
    Text.Join(EncodedPairs(pairs), AMPERSAND)
  }

  // Parsing

  function ReplacePlus(bs: seq<byte>): seq<byte> {
    if bs == [] then [] else [if bs[0] == PLUS then SPACE else bs[0]] + ReplacePlus(bs[1..])
  }

  function PercentDecode(bs: seq<byte>): seq<byte>
    decreases |bs|
  {
    if bs == [] then []
    else if bs[0] == PERCENT && |bs| >= 3 && IsHex(bs[1]) && IsHex(bs[2]) then
      [16 * HexValue(bs[1]).value + HexValue(bs[2]).value] + PercentDecode(bs[3..])
    else [bs[0]] + PercentDecode(bs[1..])
  }

  function DecodeBytes(component: seq<byte>): seq<byte> {
    PercentDecode(ReplacePlus(component))
  }

  function DecodeComponent(component: seq<byte>): string {
    DecodeLossy(DecodeBytes(component))
  }

  /** The name and value of one field, still encoded. */
  function SplitField(field: seq<byte>): (seq<byte>, seq<byte>) {
    Text.SplitOnce(field, EQUALS).GetOr((field, []))
  }

  function ParseField(field: seq<byte>): (string, string) {
    var (name, value) := SplitField(field);
    (DecodeComponent(name), DecodeComponent(value))
  }

  /** Empty fields are skipped. */
  function ParseFields(fields: seq<seq<byte>>): seq<(string, string)> {
    if fields == [] then []
    else (if fields[0] == [] then [] else [ParseField(fields[0])]) + ParseFields(fields[1..])
  }

  function Parse(raw: seq<byte>): seq<(string, string)> {
    ParseFields(Text.Split(raw, AMPERSAND))
  }

  // Properties of the encoder

  /** Every byte that means something to the format has been encoded away, except in escapes. */
  ghost predicate Encoded(bs: seq<byte>) {
    forall b :: b in bs ==> Unreserved(b) || b == PLUS || b == PERCENT
  }

  lemma {:induction false} EncodeBytesEncoded(bs: seq<byte>)
    ensures Encoded(EncodeBytes(bs))
  {
    if bs == [] {
    } else {
      EncodeBytesEncoded(bs[1..]);
      assert Encoded(EncodeByte(bs[0]));
    }
  }

  lemma HexDigitValue(v: nat)
    requires v < 16
    ensures HexValue(HexDigit(v)) == Some(v)
  {
  }

  lemma DecodePlain(b: byte, rest: seq<byte>)
    requires b != PERCENT
    ensures DecodeBytes([b] + rest) == [if b == PLUS then SPACE else b] + DecodeBytes(rest)
  {
    var s := [b] + rest;
    assert s[1..] == rest;
    assert ReplacePlus(s)[1..] == ReplacePlus(rest);
  }

  lemma DecodeEscape(h: byte, l: byte, rest: seq<byte>)
    requires IsHex(h) && IsHex(l)
    ensures DecodeBytes([PERCENT, h, l] + rest) == [16 * HexValue(h).value + HexValue(l).value] + DecodeBytes(rest)
  {
    var s := [PERCENT, h, l] + rest;
    assert s[1..] == [h, l] + rest && ([h, l] + rest)[1..] == [l] + rest && ([l] + rest)[1..] == rest;
    assert ReplacePlus([l] + rest) == [l] + ReplacePlus(rest);
    assert ReplacePlus([h, l] + rest) == [h, l] + ReplacePlus(rest);
    assert ReplacePlus(s) == [PERCENT, h, l] + ReplacePlus(rest);
    assert ReplacePlus(s)[3..] == ReplacePlus(rest);
  }

  lemma {:induction false} DecodeEncodeBytes(bs: seq<byte>)
    ensures DecodeBytes(EncodeBytes(bs)) == bs
  {
    if bs == [] {
    } else {
      var b, rest := bs[0], EncodeBytes(bs[1..]);
      DecodeEncodeBytes(bs[1..]);
      if Unreserved(b) || b == SPACE {
        DecodePlain(EncodeByte(b)[0], rest);
      } else {
        HexDigitValue(b / 16);
        HexDigitValue(b % 16);
        DecodeEscape(HexDigit(b / 16), HexDigit(b % 16), rest);
      }
    }
  }

  lemma DecodeEncodeComponent(s: string)
    ensures DecodeComponent(EncodeComponent(s)) == s
    ensures AMPERSAND !in EncodeComponent(s)
    ensures EQUALS !in EncodeComponent(s)
    ensures COLON !in EncodeComponent(s)
  {
    EncodeBytesEncoded(Encode(s));
    DecodeEncodeBytes(Encode(s));
    DecodeEncode(s);
    LossyIsStrict(Encode(s));
  }

  lemma ParseEncodedPair(pair: (string, string))
    ensures SplitField(EncodePair(pair)) == (EncodeComponent(pair.0), EncodeComponent(pair.1))
    ensures ParseField(EncodePair(pair)) == pair
    ensures AMPERSAND !in EncodePair(pair)
  {
    DecodeEncodeComponent(pair.0);
    DecodeEncodeComponent(pair.1);
    Text.SplitOnceAt(EncodeComponent(pair.0), EQUALS, EncodeComponent(pair.1));
  }

  lemma {:induction false} ParseEncodedPairs(pairs: seq<(string, string)>)
    ensures |EncodedPairs(pairs)| == |pairs|
    ensures forall i :: 0 <= i < |pairs| ==> EncodedPairs(pairs)[i] == EncodePair(pairs[i])
    ensures Text.FreeOf(EncodedPairs(pairs), AMPERSAND)
    ensures ParseFields(EncodedPairs(pairs)) == pairs
  {
    if pairs == [] {
    } else {
      ParseEncodedPair(pairs[0]);
      ParseEncodedPairs(pairs[1..]);
      assert EncodedPairs(pairs)[1..] == EncodedPairs(pairs[1..]);
    }
  }

  /** Serializing and parsing again gives back every list of pairs. */
  lemma RoundTrip(pairs: seq<(string, string)>)
    ensures Parse(Serialize(pairs)) == pairs
  {
    ParseEncodedPairs(pairs);
    if pairs == [] {
      assert ParseFields([[]]) == [];
    } else {
      Text.SplitJoin(EncodedPairs(pairs), AMPERSAND);
    }
  }

  // Appending to a query

  lemma {:induction false} ParseFieldsConcat(a: seq<seq<byte>>, b: seq<seq<byte>>)
    ensures ParseFields(a + b) == ParseFields(a) + ParseFields(b)
  {
    if a == [] {
      assert a + b == b;
    } else {
      var first := if a[0] == [] then [] else [ParseField(a[0])];
      assert (a + b)[0] == a[0] && (a + b)[1..] == a[1..] + b;
      ParseFieldsConcat(a[1..], b);
      Text.Regroup(first, ParseFields(a[1..]), ParseFields(b));
    }
  }

  /** The query text with one more pair; an empty one needs no separator. */
  function AppendPair(raw: seq<byte>, pair: (string, string)): seq<byte> {
    (if raw == [] then [] else raw + [AMPERSAND]) + EncodePair(pair)
  }

  /** The query text with the pairs appended one after the other. */
  function AppendPairs(raw: seq<byte>, pairs: seq<(string, string)>): seq<byte>
    decreases |pairs|
  {
    if pairs == [] then raw else AppendPairs(AppendPair(raw, pairs[0]), pairs[1..])
  }

  lemma ParseLonePair(pair: (string, string))
    ensures Text.Split(EncodePair(pair), AMPERSAND) == [EncodePair(pair)]
    ensures ParseFields([EncodePair(pair)]) == [pair]
  {
    ParseEncodedPairs([pair]);
    assert EncodedPairs([pair]) == [EncodePair(pair)];
    Text.SplitJoin([EncodePair(pair)], AMPERSAND);
  }

  lemma ParseAppendPair(raw: seq<byte>, pair: (string, string))
    ensures Parse(AppendPair(raw, pair)) == Parse(raw) + [pair]
  {
    var fields, last := Text.Split(raw, AMPERSAND), [EncodePair(pair)];
    ParseLonePair(pair);
    if raw == [] {
      assert AppendPair(raw, pair) == EncodePair(pair);
      assert fields == [[]] && ParseFields([[]]) == [];
    } else {
      Text.SplitConcat(raw, AMPERSAND, EncodePair(pair));
      ParseFieldsConcat(fields, last);
    }
  }

  /** Whatever query was there, parsing gives its pairs and then the appended ones. */
  lemma {:induction false} ParseAppendPairs(raw: seq<byte>, pairs: seq<(string, string)>)
    ensures Parse(AppendPairs(raw, pairs)) == Parse(raw) + pairs
    decreases |pairs|
  {
    if pairs == [] {
    } else {
      var next := AppendPair(raw, pairs[0]);
      ParseAppendPair(raw, pairs[0]);
      ParseAppendPairs(next, pairs[1..]);
      Text.Regroup(Parse(raw), [pairs[0]], pairs[1..]);
      assert [pairs[0]] + pairs[1..] == pairs;
    }
  }

  // The digits of an escape

  const LOWER_DIGITS := "0123456789abcdef"
  const UPPER_DIGITS := "0123456789ABCDEF"

  /** The byte is a way to write the digit. */
  predicate Spells(b: byte, digit: nat)
    requires digit < 16
  {
    b == LOWER_DIGITS[digit] as int || b == UPPER_DIGITS[digit] as int
  }

  lemma SpelledDigit(b: byte, digit: nat)
    requires digit < 16
    ensures HexValue(b) == Some(digit) <==> Spells(b, digit)
  {
  }

  /** However its two digits are written, an escape decodes to the byte they denote. */
  lemma EscapeDenotes(b: byte, high: byte, low: byte, rest: seq<byte>)
    requires Spells(high, b / 16) && Spells(low, b % 16)
    ensures DecodeBytes([PERCENT, high, low] + rest) == [b] + DecodeBytes(rest)
  {
    SpelledDigit(high, b / 16);
    SpelledDigit(low, b % 16);
    DecodeEscape(high, low, rest);
  }

  /** And only such a byte is a digit. */
  lemma DigitIsSpelled(b: byte)
    ensures IsHex(b) <==> exists digit: nat :: digit < 16 && Spells(b, digit)
  {
    forall digit: nat | digit < 16 ensures HexValue(b) == Some(digit) <==> Spells(b, digit) {
      SpelledDigit(b, digit);
    }
    if IsHex(b) {
      assert Spells(b, HexValue(b).value);
    }
  }

  /** Replacing plus signs changes no length, and no digit. */
  lemma {:induction false} ReplaceKeepsDigits(bs: seq<byte>)
    ensures |ReplacePlus(bs)| == |bs|
    ensures forall i :: 0 <= i < |bs| ==> ReplacePlus(bs)[i] == if bs[i] == PLUS then SPACE else bs[i]
  {
    if bs == [] {
    } else {
      ReplaceKeepsDigits(bs[1..]);
    }
  }

  /** A percent sign that begins no escape stands for itself. */
  lemma LonePercent(rest: seq<byte>)
    requires |rest| >= 2 ==> !IsHex(rest[0]) || !IsHex(rest[1])
    ensures DecodeBytes([PERCENT] + rest) == [PERCENT] + DecodeBytes(rest)
  {
    var all := [PERCENT] + rest;
    ReplaceKeepsDigits(rest);
    assert all[1..] == rest;
    assert ReplacePlus(all) == [PERCENT] + ReplacePlus(rest);
    assert ([PERCENT] + ReplacePlus(rest))[1..] == ReplacePlus(rest);
  }

  const MARKS := "*-._"

  ghost predicate OneOf(b: byte, text: string) {
    exists i :: 0 <= i < |text| && text[i] as int == b
  }

  lemma LettersAre(b: byte)
    ensures OneOf(b, Ascii.UPPER) <==> 0x41 <= b <= 0x5A
    ensures OneOf(b, Ascii.LOWER) <==> 0x61 <= b <= 0x7A
  {
    forall i: nat | i < 26
      ensures Ascii.UPPER[i] as int == 'A' as int + i && Ascii.LOWER[i] as int == 'a' as int + i
    {
      Ascii.Alphabet(i);
    }
    assert |Ascii.UPPER| == 26 && |Ascii.LOWER| == 26;
    if 0x41 <= b <= 0x5A {
      assert Ascii.UPPER[b - 0x41] as int == b;
    }
    if 0x61 <= b <= 0x7A {
      assert Ascii.LOWER[b - 0x61] as int == b;
    }
  }

  lemma DigitsAre(b: byte)
    ensures OneOf(b, "0123456789") <==> 0x30 <= b <= 0x39
  {
    var digits := "0123456789";
    assert forall i :: 0 <= i < 10 ==> digits[i] as int == 0x30 + i;
    if 0x30 <= b <= 0x39 {
      assert digits[b - 0x30] as int == b;
    }
  }

  lemma MarksAre(b: byte)
    ensures OneOf(b, MARKS) <==> b in {0x2A, 0x2D, 0x2E, 0x5F}
  {
    assert MARKS[0] == '*' && MARKS[1] == '-' && MARKS[2] == '.' && MARKS[3] == '_';
  }

  /** How a byte is written: letters, digits and four marks as themselves, a space as a plus sign, and all others as an
      escape with upper-case digits. */
  lemma EncodedByte(b: byte)
    ensures EncodeByte(b)
         == if OneOf(b, Ascii.UPPER) || OneOf(b, Ascii.LOWER) || OneOf(b, "0123456789") || OneOf(b, MARKS) then [b]
            else if b == 0x20 then [0x2B]
            else [0x25, UPPER_DIGITS[b / 16] as int, UPPER_DIGITS[b % 16] as int]
  {
    LettersAre(b);
    DigitsAre(b);
    MarksAre(b);
  }

  // The parts of a field

  /** A field is split at its first equals sign; without one it is a name with an empty value. */
  lemma FieldParts(name: seq<byte>, value: seq<byte>)
    requires EQUALS !in name
    ensures ParseField(name + [EQUALS] + value) == (DecodeComponent(name), DecodeComponent(value))
    ensures ParseField(name) == (DecodeComponent(name), "")
  {
    Text.SplitOnceAt(name, EQUALS, value);
    assert DecodeComponent([]) == "";
  }
}
