/** Parsing of authorization responses from a redirect query (src/flow/callback.rs). */
module Callback {
  import opened Wrappers
  import opened Utf8
  import opened FormUrlEncoded
  import Text

  datatype CallbackError =
    | Missing(parameter: string)
    | ProviderError(error: string, description: Option<string>, errorUri: Option<string>, state: string,
                    iss: Option<string>)
    | DuplicateParameter(name: string)
    | AmbiguousResponse
    | InvalidParameter(parameter: string)
    | IssuerMismatch(expected: string, actual: string)
    | Parse(reason: string)

  datatype AuthorizationResponse =
    | Success(code: string, state: string, iss: Option<string>)
    | Error(error: string, description: Option<string>, errorUri: Option<string>, state: string,
            iss: Option<string>)

  const MALFORMED := Parse("authorization response is not valid form encoding")

  type Params = seq<(string, string)>

  // Validation of the form encoding

  predicate PercentAt(component: seq<byte>, i: int) {
    0 <= i < |component| && component[i] == PERCENT
  }

  predicate HexPairAt(component: seq<byte>, i: int) {
    0 <= i && i + 1 < |component| && IsHex(component[i]) && IsHex(component[i + 1])
  }

  /** Every percent sign is followed by two hexadecimal digits. */
  ghost predicate EscapesComplete(component: seq<byte>) {
    forall i :: PercentAt(component, i) ==> HexPairAt(component, i + 1)
  }

  ghost predicate WellFormedComponent(component: seq<byte>) {
    EscapesComplete(component) && Valid(DecodeBytes(component))
  }

  ghost predicate WellFormedField(field: seq<byte>) {
    var (name, value) := SplitField(field);
    WellFormedComponent(name) && WellFormedComponent(value)
  }

  ghost predicate WellFormed(raw: seq<byte>) {
    forall field :: field in Text.Split(raw, AMPERSAND) ==> WellFormedField(field)
  }

  /** Escapes that start beyond a prefix are those of the rest. */
  lemma EscapesAfter(prefix: seq<byte>, rest: seq<byte>)
    ensures EscapesComplete(rest)
       <==> forall i :: i >= |prefix| && PercentAt(prefix + rest, i) ==> HexPairAt(prefix + rest, i + 1)
  {
    var s, n := prefix + rest, |prefix|;
    forall i | i >= n ensures PercentAt(s, i) <==> PercentAt(rest, i - n) {
    }
    forall i | i >= n ensures HexPairAt(s, i) <==> HexPairAt(rest, i - n) {
    }
    if forall i :: i >= n && PercentAt(s, i) ==> HexPairAt(s, i + 1) {
      forall i | PercentAt(rest, i) ensures HexPairAt(rest, i + 1) {
        assert PercentAt(s, i + n) && HexPairAt(s, i + n + 1);
      }
    }
  }

  lemma EscapesAfterPlain(b: byte, rest: seq<byte>)
    requires b != PERCENT
    ensures EscapesComplete([b] + rest) <==> EscapesComplete(rest)
  {
    EscapesAfter([b], rest);
    assert forall i :: PercentAt([b] + rest, i) ==> i >= 1;
  }

  lemma EscapesAfterEscape(h: byte, l: byte, rest: seq<byte>)
    requires IsHex(h) && IsHex(l)
    ensures EscapesComplete([PERCENT, h, l] + rest) <==> EscapesComplete(rest)
  {
    EscapesAfter([PERCENT, h, l], rest);
    assert HexPairAt([PERCENT, h, l] + rest, 0 + 1);
    assert forall i :: PercentAt([PERCENT, h, l] + rest, i) ==> i == 0 || i >= 3;
  }

  lemma PlainStep(encoded: seq<byte>, index: nat)
    requires index < |encoded| && encoded[index] != PERCENT
    ensures DecodeBytes(encoded[index..])
         == [if encoded[index] == PLUS then SPACE else encoded[index]] + DecodeBytes(encoded[index + 1..])
    ensures EscapesComplete(encoded[index..]) <==> EscapesComplete(encoded[index + 1..])
  {
    assert encoded[index..] == [encoded[index]] + encoded[index + 1..];
    DecodePlain(encoded[index], encoded[index + 1..]);
    EscapesAfterPlain(encoded[index], encoded[index + 1..]);
  }

  lemma EscapeStep(encoded: seq<byte>, index: nat)
    requires index + 3 <= |encoded| && encoded[index] == PERCENT
    requires IsHex(encoded[index + 1]) && IsHex(encoded[index + 2])
    ensures DecodeBytes(encoded[index..])
         == [16 * HexValue(encoded[index + 1]).value + HexValue(encoded[index + 2]).value]
            + DecodeBytes(encoded[index + 3..])
    ensures EscapesComplete(encoded[index..]) <==> EscapesComplete(encoded[index + 3..])
  {
    var h, l, rest := encoded[index + 1], encoded[index + 2], encoded[index + 3..];
    assert encoded[index..] == [PERCENT, h, l] + rest;
    DecodeEscape(h, l, rest);
    EscapesAfterEscape(h, l, rest);
  }

  lemma BadEscape(encoded: seq<byte>, index: nat)
    requires index < |encoded| && encoded[index] == PERCENT
    requires index + 3 <= |encoded| ==> !IsHex(encoded[index + 1]) || !IsHex(encoded[index + 2])
    ensures !EscapesComplete(encoded)
  {
    assert PercentAt(encoded, index) && !HexPairAt(encoded, index + 1);
  }

  /** The hand-written decoder accepts exactly the components with complete escapes whose
      library decoding is well-formed UTF-8. */
  method ValidateEncodedComponent(encoded: seq<byte>) returns (r: Result<(), CallbackError>)
    ensures r == if WellFormedComponent(encoded) then Ok(()) else Err(MALFORMED)
  {
    var decoded: seq<byte> := [];
    var index := 0;
    while index < |encoded|
      invariant 0 <= index <= |encoded|
      invariant decoded + DecodeBytes(encoded[index..]) == DecodeBytes(encoded)
      invariant EscapesComplete(encoded) <==> EscapesComplete(encoded[index..])
    {
      if encoded[index] == PERCENT {
        if index + 3 > |encoded| {
          BadEscape(encoded, index);
          return Err(MALFORMED);
        }
        var high, low := HexValue(encoded[index + 1]), HexValue(encoded[index + 2]);
        if high.None? || low.None? {
          BadEscape(encoded, index);
          return Err(MALFORMED);
        }
        EscapeStep(encoded, index);
        Text.Regroup(decoded, [16 * high.value + low.value], DecodeBytes(encoded[index + 3..]));
        decoded := decoded + [16 * high.value + low.value];
        index := index + 3;
      } else {
        PlainStep(encoded, index);
        var plain := if encoded[index] == PLUS then SPACE else encoded[index];
        Text.Regroup(decoded, [plain], DecodeBytes(encoded[index + 1..]));
        decoded := decoded + [plain];
        index := index + 1;
      }
    }
    assert decoded == DecodeBytes(encoded);
    return if Valid(decoded) then Ok(()) else Err(MALFORMED);
  }

  method ValidateFormEncoding(raw: seq<byte>) returns (r: Result<(), CallbackError>)
    ensures r == if WellFormed(raw) then Ok(()) else Err(MALFORMED)
  {
    var fields := Text.Split(raw, AMPERSAND);
    for i := 0 to |fields|
      invariant forall j :: 0 <= j < i ==> WellFormedField(fields[j])
    {
      var (name, value) := SplitField(fields[i]);
      r := ValidateEncodedComponent(name);
      if r.Err? {
        assert !WellFormedField(fields[i]) && fields[i] in fields;
        return;
      }
      r := ValidateEncodedComponent(value);
      if r.Err? {
        assert !WellFormedField(fields[i]) && fields[i] in fields;
        return;
      }
    }
    return Ok(());
  }

  /** On what the validator accepts, the library's lossy decoding loses nothing; on a component with
      complete escapes it accepts nothing else. */
  lemma AcceptedDecodesFaithfully(component: seq<byte>)
    requires EscapesComplete(component)
    ensures WellFormedComponent(component) <==> Encode(DecodeComponent(component)) == DecodeBytes(component)
    ensures WellFormedComponent(component) ==> Decode(DecodeBytes(component)) == Some(DecodeComponent(component))
  {
    LosesNothing(DecodeBytes(component));
    if WellFormedComponent(component) {
      LossyIsStrict(DecodeBytes(component));
    }
  }

  lemma {:induction false} EncodedEscapesComplete(bs: seq<byte>)
    ensures EscapesComplete(EncodeBytes(bs))
  {
    if bs == [] {
    } else {
      var b, rest := bs[0], EncodeBytes(bs[1..]);
      EncodedEscapesComplete(bs[1..]);
      if Unreserved(b) || b == SPACE {
        EscapesAfterPlain(EncodeByte(b)[0], rest);
      } else {
        HexDigitValue(b / 16);
        HexDigitValue(b % 16);
        EscapesAfterEscape(HexDigit(b / 16), HexDigit(b % 16), rest);
      }
    }
  }

  lemma EncodedComponentWellFormed(s: string)
    ensures WellFormedComponent(EncodeComponent(s))
  {
    EncodedEscapesComplete(Encode(s));
    DecodeEncodeBytes(Encode(s));
    DecodeEncode(s);
  }

  /** Whatever the form encoder writes is accepted by the validator. */
  lemma SerializedIsWellFormed(pairs: Params)
    ensures WellFormed(Serialize(pairs))
  {
    ParseEncodedPairs(pairs);
    if pairs != [] {
      Text.SplitJoin(EncodedPairs(pairs), AMPERSAND);
    }
    forall field | field in Text.Split(Serialize(pairs), AMPERSAND)
      ensures WellFormedField(field)
    {
      if pairs == [] {
        assert field == [];
        assert DecodeBytes(field) == [];
      } else {
        var i :| 0 <= i < |pairs| && field == EncodePair(pairs[i]);
        ParseEncodedPair(pairs[i]);
        EncodedComponentWellFormed(pairs[i].0);
        EncodedComponentWellFormed(pairs[i].1);
      }
    }
  }

  // Character sets of RFC 6749, appendix A

  const VSCHAR: byte -> bool := b => 0x20 <= b <= 0x7E
  const NQSCHAR: byte -> bool := b => 0x20 <= b <= 0x21 || 0x23 <= b <= 0x5B || 0x5D <= b <= 0x7E
  const URI_REFERENCE_CHAR: byte -> bool := b => b == 0x21 || 0x23 <= b <= 0x5B || 0x5D <= b <= 0x7E

  /** The sets, character by character: what is visible or a space; of that, neither quotes nor backslashes; and of
      that, no spaces. */
  lemma CharacterSets(c: char)
    ensures (c as int) < 0x80 && VSCHAR(c as int) <==> ' ' <= c <= '~'
    ensures (c as int) < 0x80 && NQSCHAR(c as int) <==> ' ' <= c <= '~' && c != '\"' && c != '\\'
    ensures (c as int) < 0x80 && URI_REFERENCE_CHAR(c as int) <==> ' ' < c <= '~' && c != '\"' && c != '\\'
  {
  }

  predicate AllBytes(value: string, allowed: byte -> bool) {
    forall b :: b in Encode(value) ==> allowed(b)
  }

  predicate AllChars(value: string, allowed: byte -> bool) {
    forall c :: c in value ==> (c as int) < 0x80 && allowed(c as int)
  }

  /** Checking the bytes of a value is checking its characters, since only ASCII is allowed. */
  lemma BytesAreChars(value: string, allowed: byte -> bool)
    requires forall b: byte :: b >= 0x80 ==> !allowed(b)
    ensures AllBytes(value, allowed) <==> AllChars(value, allowed)
  {
    var e := Encode(value);
    if !Utf8.Ascii(value) {
      NonAsciiByte(value);
    } else {
      AsciiBytes(value);
      if AllBytes(value, allowed) {
        forall c | c in value ensures (c as int) < 0x80 && allowed(c as int) {
          var i :| 0 <= i < |value| && value[i] == c;
          assert e[i] in e;
        }
      }
      if AllChars(value, allowed) {
        forall b | b in e ensures allowed(b) {
          var i :| 0 <= i < |e| && e[i] == b;
          assert value[i] in value;
        }
      }
    }
  }

  // Classification

  /** The value of the first field with this name; an empty value counts as absent. */
  function Parameter(params: Params, name: string): Option<string> {
    if params == [] then None
    else if params[0].0 == name then (if params[0].1 == "" then None else Some(params[0].1))
    else Parameter(params[1..], name)
  }

  /** The outcome once names are known to be unique, check by check. */
  function Classify(params: Params): Result<AuthorizationResponse, CallbackError> {
    var code := Parameter(params, "code");
    var error := Parameter(params, "error");
    var description := Parameter(params, "error_description");
    var errorUri := Parameter(params, "error_uri");
    var state := Parameter(params, "state");
    var iss := Parameter(params, "iss");
    if code.Some? && (error.Some? || description.Some? || errorUri.Some?) then Err(AmbiguousResponse)
    else if error.Some? then
      if !AllBytes(error.value, NQSCHAR) then Err(InvalidParameter("error"))
      else if description.Some? && !AllBytes(description.value, NQSCHAR) then
        Err(InvalidParameter("error_description"))
      else if errorUri.Some? && !AllBytes(errorUri.value, URI_REFERENCE_CHAR) then
        Err(InvalidParameter("error_uri"))
      else if state.None? then Err(Missing("state"))
      else if !AllBytes(state.value, VSCHAR) then Err(InvalidParameter("state"))
      else Ok(Error(error.value, description, errorUri, state.value, iss))
    else if description.Some? || errorUri.Some? then Err(Missing("error"))
    else if code.None? then Err(Missing("code"))
    else if state.None? then Err(Missing("state"))
    else if !AllBytes(code.value, VSCHAR) then Err(InvalidParameter("code"))
    else if !AllBytes(state.value, VSCHAR) then Err(InvalidParameter("state"))
    else Ok(Success(code.value, state.value, iss))
  }

  predicate HasName(params: Params, name: string) {
    exists i :: 0 <= i < |params| && params[i].0 == name
  }

  /** The first name that repeats an earlier one. */
  function FirstRepeat(params: Params): Option<string> {
    if params == [] then None
    else
      var n := |params| - 1;
      match FirstRepeat(params[..n])
      case Some(name) => Some(name)
      case None => if HasName(params[..n], params[n].0) then Some(params[n].0) else None
  }

  ghost predicate UniqueNames(params: Params) {
    forall i, j :: 0 <= i < j < |params| ==> params[i].0 != params[j].0
  }

  /** What parsing yields for every query: the specification of the method below. */
  ghost function ParseResponse(raw: seq<byte>): Result<AuthorizationResponse, CallbackError> {
    if !WellFormed(raw) then Err(MALFORMED)
    else
      var params := FormUrlEncoded.Parse(raw);
      match FirstRepeat(params)
      case Some(name) => Err(DuplicateParameter(name))
      case None => Classify(params)
  }

  lemma OneMoreName(params: Params, i: nat)
    requires i < |params|
    ensures forall n :: HasName(params[..i + 1], n) <==> HasName(params[..i], n) || n == params[i].0
    ensures FirstRepeat(params[..i]) == None
            ==> FirstRepeat(params[..i + 1]) == if HasName(params[..i], params[i].0) then Some(params[i].0) else None
  {
    var next := params[..i + 1];
    assert next[..i] == params[..i];
    forall n ensures HasName(next, n) <==> HasName(params[..i], n) || n == params[i].0 {
      assert next[i].0 == params[i].0;
      if HasName(params[..i], n) {
        var j :| 0 <= j < i && params[j].0 == n;
        assert next[j].0 == n;
      }
      if HasName(next, n) && n != params[i].0 {
        var j :| 0 <= j <= i && next[j].0 == n;
        assert params[..i][j].0 == n;
      }
    }
  }

  lemma {:induction false} RepeatPersists(params: Params, k: nat)
    requires k <= |params| && FirstRepeat(params[..k]).Some?
    ensures FirstRepeat(params) == FirstRepeat(params[..k])
  {
    if k == |params| {
      assert params[..k] == params;
    } else {
      var shorter := params[..|params| - 1];
      assert shorter[..k] == params[..k];
      RepeatPersists(shorter, k);
    }
  }

  method ParseAuthorizationResponse(raw: seq<byte>) returns (r: Result<AuthorizationResponse, CallbackError>)
    ensures r == ParseResponse(raw)
  {
    var valid := ValidateFormEncoding(raw);
    if valid.Err? {
      return Err(valid.error);
    }
    var params := FormUrlEncoded.Parse(raw);
    var names: set<string> := {};
    for i := 0 to |params|
      invariant FirstRepeat(params[..i]) == None
      invariant forall name :: name in names <==> HasName(params[..i], name)
    {
      var name := params[i].0;
      OneMoreName(params, i);
      if name in names {
        RepeatPersists(params, i + 1);
        return Err(DuplicateParameter(name));
      }
      names := names + {name};
    }
    assert params[..|params|] == params;
    return Classify(params);
  }

  lemma {:induction false} NoRepeatIffUnique(params: Params)
    ensures FirstRepeat(params) == None <==> UniqueNames(params)
  {
    if params == [] {
    } else {
      var n := |params| - 1;
      NoRepeatIffUnique(params[..n]);
      if UniqueNames(params) {
        assert UniqueNames(params[..n]);
        assert !HasName(params[..n], params[n].0);
      } else if UniqueNames(params[..n]) {
        var i, j :| 0 <= i < j <= n && params[i].0 == params[j].0;
        assert params[..n][i].0 == params[n].0;
      }
    }
  }

  // What is accepted, without reference to the order of the fields

  /** The field is present with this value, or absent or empty. */
  ghost predicate Holds(params: Params, name: string, value: Option<string>) {
    match value
    case Some(v) => v != "" && (name, v) in params
    case None => forall v :: (name, v) in params ==> v == ""
  }

  lemma {:induction false} ParameterHolds(params: Params, name: string, value: Option<string>)
    requires UniqueNames(params)
    ensures Parameter(params, name) == value <==> Holds(params, name, value)
  {
    if params == [] {
    } else {
      assert params == [params[0]] + params[1..];
      forall i, j | 0 <= i < j < |params[1..]| ensures params[1..][i].0 != params[1..][j].0 {
        assert params[i + 1].0 != params[j + 1].0;
      }
      ParameterHolds(params[1..], name, value);
      if params[0].0 == name {
        forall v | (name, v) in params ensures v == params[0].1 {
          var i :| 0 <= i < |params| && params[i] == (name, v);
          assert i == 0;
        }
        assert params[0] == (name, params[0].1);
      } else {
        assert forall v :: (name, v) in params <==> (name, v) in params[1..];
      }
    }
  }

  /** The two shapes of response and the fields each of them must and must not have. */
  ghost predicate Describes(params: Params, r: AuthorizationResponse) {
    && Holds(params, "state", Some(r.state))
    && AllChars(r.state, VSCHAR)
    && Holds(params, "iss", r.iss)
    && match r
       case Success(code, _, _) =>
         && Holds(params, "code", Some(code))
         && AllChars(code, VSCHAR)
         && Holds(params, "error", None)
         && Holds(params, "error_description", None)
         && Holds(params, "error_uri", None)
       case Error(error, description, errorUri, _, _) =>
         && Holds(params, "code", None)
         && Holds(params, "error", Some(error))
         && AllChars(error, NQSCHAR)
         && Holds(params, "error_description", description)
         && (description.Some? ==> AllChars(description.value, NQSCHAR))
         && Holds(params, "error_uri", errorUri)
         && (errorUri.Some? ==> AllChars(errorUri.value, URI_REFERENCE_CHAR))
  }

  lemma ClassifyDescribes(params: Params, r: AuthorizationResponse)
    requires UniqueNames(params)
    ensures Classify(params) == Ok(r) <==> Describes(params, r)
  {
    forall name, value {:trigger Holds(params, name, value)}
      ensures Parameter(params, name) == value <==> Holds(params, name, value)
    {
      ParameterHolds(params, name, value);
    }
    forall value ensures AllBytes(value, VSCHAR) <==> AllChars(value, VSCHAR) {
      BytesAreChars(value, VSCHAR);
    }
    forall value ensures AllBytes(value, NQSCHAR) <==> AllChars(value, NQSCHAR) {
      BytesAreChars(value, NQSCHAR);
    }
    forall value ensures AllBytes(value, URI_REFERENCE_CHAR) <==> AllChars(value, URI_REFERENCE_CHAR) {
      BytesAreChars(value, URI_REFERENCE_CHAR);
    }
  }

  /** A query is accepted with response r exactly if it is well formed, names no field twice, and its
      fields describe r. */
  lemma AcceptedIff(raw: seq<byte>, r: AuthorizationResponse)
    ensures ParseResponse(raw) == Ok(r)
       <==> WellFormed(raw) && UniqueNames(FormUrlEncoded.Parse(raw)) && Describes(FormUrlEncoded.Parse(raw), r)
  {
    var params := FormUrlEncoded.Parse(raw);
    NoRepeatIffUnique(params);
    if UniqueNames(params) {
      ClassifyDescribes(params, r);
    }
  }

  // What is rejected, and why

  ghost predicate Present(params: Params, name: string) {
    exists value :: value != "" && (name, value) in params
  }

  lemma ParameterPresent(params: Params, name: string)
    requires UniqueNames(params)
    ensures Parameter(params, name).Some? <==> Present(params, name)
  {
    ParameterHolds(params, name, Parameter(params, name));
  }

  /** The field at j is the first one that repeats an earlier name. */
  ghost predicate RepeatAt(params: Params, j: int, name: string) {
    0 <= j < |params| && params[j].0 == name && UniqueNames(params[..j]) && HasName(params[..j], name)
  }

  lemma RepeatInFront(params: Params, j: nat, name: string)
    requires j < |params| - 1
    ensures RepeatAt(params, j, name) <==> RepeatAt(params[..|params| - 1], j, name)
  {
    assert params[..|params| - 1][..j] == params[..j];
  }

  /** The reported duplicate is the first name that repeats one of the names before it. */
  lemma {:induction false} FirstRepeatIs(params: Params, name: string)
    ensures FirstRepeat(params) == Some(name) <==> exists j :: RepeatAt(params, j, name)
  {
    if params == [] {
    } else {
      var n := |params| - 1;
      var front := params[..n];
      FirstRepeatIs(front, name);
      NoRepeatIffUnique(front);
      forall j: nat | j < n ensures RepeatAt(params, j, name) <==> RepeatAt(front, j, name) {
        RepeatInFront(params, j, name);
      }
      if FirstRepeat(params) == Some(name) {
        if FirstRepeat(front) == None {
          assert RepeatAt(params, n, name);
        } else {
          var j :| RepeatAt(front, j, name);
          assert RepeatAt(params, j, name);
        }
      }
      if j :| RepeatAt(params, j, name) {
        if j < n {
          assert RepeatAt(front, j, name);
        }
      }
    }
  }

  lemma ReasonsDiffer()
    ensures "code" != "error" && "code" != "state" && "error" != "state"
  {
    assert |"code"| == 4 && |"error"| == 5 && |"state"| == 5;
    assert "error"[0] == 'e' && "state"[0] == 's';
  }

  /** Mixed, incomplete and stateless responses are told apart by which fields are present. */
  lemma RejectionReasons(raw: seq<byte>)
    requires WellFormed(raw) && UniqueNames(FormUrlEncoded.Parse(raw))
    ensures
      var p := FormUrlEncoded.Parse(raw);
      var errorDetail := Present(p, "error_description") || Present(p, "error_uri");
      && (ParseResponse(raw) == Err(AmbiguousResponse)
          <==> Present(p, "code") && (Present(p, "error") || errorDetail))
      && (ParseResponse(raw) == Err(Missing("error")) <==> !Present(p, "code") && !Present(p, "error") && errorDetail)
      && (ParseResponse(raw) == Err(Missing("code")) <==> !Present(p, "code") && !Present(p, "error") && !errorDetail)
      && (Present(p, "code") && !Present(p, "error") && !errorDetail
          ==> (ParseResponse(raw) == Err(Missing("state")) <==> !Present(p, "state")))
  {
    var p := FormUrlEncoded.Parse(raw);
    NoRepeatIffUnique(p);
    ParameterPresent(p, "code");
    ParameterPresent(p, "error");
    ParameterPresent(p, "error_description");
    ParameterPresent(p, "error_uri");
    ParameterPresent(p, "state");
    ReasonsDiffer();
  }

  /** What is blamed. With a code: an absent state, the code, the state. With an error: the first invalid one of
      error, description and URI, then an absent state, then an invalid one. */
  lemma InvalidValues(raw: seq<byte>, code: string, error: string, description: Option<string>,
                      errorUri: Option<string>, state: Option<string>)
    requires WellFormed(raw) && UniqueNames(FormUrlEncoded.Parse(raw))
    requires Holds(FormUrlEncoded.Parse(raw), "state", state)
    ensures
      var p := FormUrlEncoded.Parse(raw);
      Holds(p, "code", Some(code)) && Holds(p, "error", None) && Holds(p, "error_description", None)
      && Holds(p, "error_uri", None)
      ==> && (state.None? ==> ParseResponse(raw) == Err(Missing("state")))
          && (state.Some? && ParseResponse(raw).Err? ==>
                ParseResponse(raw).error == InvalidParameter(if !AllChars(code, VSCHAR) then "code" else "state"))
    ensures
      var p := FormUrlEncoded.Parse(raw);
      Holds(p, "code", None) && Holds(p, "error", Some(error)) && Holds(p, "error_description", description)
      && Holds(p, "error_uri", errorUri)
      ==> && (state.None? ==> ParseResponse(raw).Err?)
          && (ParseResponse(raw).Err? ==>
                ParseResponse(raw).error ==
                  if !AllChars(error, NQSCHAR) then InvalidParameter("error")
                  else if description.Some? && !AllChars(description.value, NQSCHAR) then
                    InvalidParameter("error_description")
                  else if errorUri.Some? && !AllChars(errorUri.value, URI_REFERENCE_CHAR) then
                    InvalidParameter("error_uri")
                  else if state.None? then Missing("state")
                  else InvalidParameter("state"))
  {
    var p := FormUrlEncoded.Parse(raw);
    NoRepeatIffUnique(p);
    ParameterHolds(p, "state", state);
    ParameterHolds(p, "code", Some(code));
    ParameterHolds(p, "code", None);
    ParameterHolds(p, "error", Some(error));
    ParameterHolds(p, "error", None);
    ParameterHolds(p, "error_description", description);
    ParameterHolds(p, "error_description", None);
    ParameterHolds(p, "error_uri", errorUri);
    ParameterHolds(p, "error_uri", None);
    BytesAreChars(code, VSCHAR);
    BytesAreChars(error, NQSCHAR);
    if state.Some? {
      BytesAreChars(state.value, VSCHAR);
    }
    if description.Some? {
      BytesAreChars(description.value, NQSCHAR);
    }
    if errorUri.Some? {
      BytesAreChars(errorUri.value, URI_REFERENCE_CHAR);
    }
    ReasonsDiffer();
  }

  lemma SameMembersHold(p: Params, q: Params, name: string, value: Option<string>)
    requires forall x :: x in p <==> x in q
    ensures Holds(p, name, value) <==> Holds(q, name, value)
  {
  }

  // The order of the fields is irrelevant

  function Names(params: Params): seq<string> {
    seq(|params|, i requires 0 <= i < |params| => params[i].0)
  }

  lemma Shuffled<T>(a: seq<T>, x: seq<T>, b: seq<T>, t: seq<T>)
    requires multiset(t) == multiset(a + b)
    ensures multiset(x + t) == multiset(a + x + b)
  {
    calc {
      multiset(x + t);
      multiset(x) + multiset(a + b);
      multiset(a) + multiset(x) + multiset(b);
      multiset(a + x + b);
    }
  }

  lemma MoveFront(a: Params, x: Params, b: Params, t: Params)
    requires multiset(t) == multiset(a + b)
    requires multiset(Names(t)) == multiset(Names(a + b))
    ensures multiset(x + t) == multiset(a + x + b)
    ensures multiset(Names(x + t)) == multiset(Names(a + x + b))
  {
    Shuffled(a, x, b, t);
    assert Names(a + b) == Names(a) + Names(b);
    Shuffled(Names(a), Names(x), Names(b), Names(t));
    assert Names(x + t) == Names(x) + Names(t);
    assert Names(a + x + b) == Names(a) + Names(x) + Names(b);
  }

  lemma Cancel<T>(x: multiset<T>, t: multiset<T>, a: multiset<T>, b: multiset<T>)
    requires x + t == a + x + b
    ensures t == a + b
  {
    assert x + t - x == t && a + x + b - x == a + b;
  }

  lemma PermutedRest<T>(f: seq<T>, g: seq<T>, i: nat)
    requires f != [] && i < |g| && g[i] == f[0] && multiset(f) == multiset(g)
    ensures multiset(f[1..]) == multiset(g[..i] + g[i + 1..])
  {
    var x, t, a, b := [f[0]], f[1..], g[..i], g[i + 1..];
    assert f == x + t && g == a + x + b;
    Cancel(multiset(x), multiset(t), multiset(a), multiset(b));
  }

  lemma ParseMiddle(a: seq<seq<byte>>, x: seq<seq<byte>>, b: seq<seq<byte>>)
    ensures ParseFields(a + x + b) == ParseFields(a) + ParseFields(x) + ParseFields(b)
  {
    ParseFieldsConcat(a + x, b);
    ParseFieldsConcat(a, x);
  }

  /** Permuting the fields permutes the parsed pairs and their names. */
  lemma {:induction false} ParsePermuted(f: seq<seq<byte>>, g: seq<seq<byte>>)
    requires multiset(f) == multiset(g)
    ensures multiset(ParseFields(f)) == multiset(ParseFields(g))
    ensures multiset(Names(ParseFields(f))) == multiset(Names(ParseFields(g)))
  {
    if f == [] {
      assert g == [] by {
        assert |multiset(f)| == |multiset(g)|;
      }
    } else {
      assert f[0] in multiset(f);
      var i :| 0 <= i < |g| && g[i] == f[0];
      var x, t, a, b := [f[0]], f[1..], g[..i], g[i + 1..];
      assert f == x + t && g == a + x + b;
      PermutedRest(f, g, i);
      ParsePermuted(t, a + b);
      ParseFieldsConcat(x, t);
      ParseMiddle(a, x, b);
      ParseFieldsConcat(a, b);
      MoveFront(ParseFields(a), ParseFields(x), ParseFields(b), ParseFields(t));
    }
  }

  lemma {:induction false} UniqueIffSingle(names: seq<string>)
    ensures (forall i, j :: 0 <= i < j < |names| ==> names[i] != names[j])
       <==> (forall n :: multiset(names)[n] <= 1)
  {
    if names == [] {
    } else {
      var t := names[1..];
      UniqueIffSingle(t);
      assert names == [names[0]] + t;
      assert multiset(names) == multiset{names[0]} + multiset(t);
      if forall i, j :: 0 <= i < j < |names| ==> names[i] != names[j] {
        assert forall i, j :: 0 <= i < j < |t| ==> t[i] != t[j] by {
          forall i, j | 0 <= i < j < |t| ensures t[i] != t[j] {
            assert names[i + 1] != names[j + 1];
          }
        }
        assert names[0] !in t;
      }
      if forall n :: multiset(names)[n] <= 1 {
        assert forall n :: multiset(t)[n] <= multiset(names)[n];
        assert multiset(names)[names[0]] <= 1;
        assert names[0] !in multiset(t);
        forall i, j | 0 <= i < j < |names| ensures names[i] != names[j] {
          if i > 0 {
            assert t[i - 1] != t[j - 1];
          } else {
            assert names[j] == t[j - 1] && t[j - 1] in multiset(t);
          }
        }
      }
    }
  }

  lemma UniquePermuted(p: Params, q: Params)
    requires multiset(Names(p)) == multiset(Names(q))
    requires UniqueNames(p)
    ensures UniqueNames(q)
  {
    var m, n := Names(p), Names(q);
    UniqueIffSingle(m);
    UniqueIffSingle(n);
    assert forall i, j :: 0 <= i < j < |m| ==> m[i] != m[j];
    forall i, j | 0 <= i < j < |q| ensures q[i].0 != q[j].0 {
      assert n[i] != n[j];
    }
  }

  lemma ClassifyPermuted(p: Params, q: Params)
    requires UniqueNames(p) && UniqueNames(q)
    requires multiset(p) == multiset(q)
    ensures Classify(p) == Classify(q)
  {
    forall x ensures x in p <==> x in q {
      assert x in multiset(p) <==> x in multiset(q);
    }
    forall name: string ensures Parameter(p, name) == Parameter(q, name) {
      ParameterHolds(p, name, Parameter(p, name));
      ParameterHolds(q, name, Parameter(p, name));
      SameMembersHold(p, q, name, Parameter(p, name));
    }
  }

  lemma WellFormedPermuted(raw1: seq<byte>, raw2: seq<byte>)
    requires multiset(Text.Split(raw1, AMPERSAND)) == multiset(Text.Split(raw2, AMPERSAND))
    ensures WellFormed(raw1) <==> WellFormed(raw2)
  {
    var f, g := Text.Split(raw1, AMPERSAND), Text.Split(raw2, AMPERSAND);
    forall field ensures field in f <==> field in g {
      assert field in multiset(f) <==> field in multiset(g);
    }
  }

  /** Rearranging the fields of a query changes neither the response nor the error, except which of several
      repeated names is reported. */
  lemma OrderIrrelevant(raw1: seq<byte>, raw2: seq<byte>)
    requires multiset(Text.Split(raw1, AMPERSAND)) == multiset(Text.Split(raw2, AMPERSAND))
    ensures || ParseResponse(raw1) == ParseResponse(raw2)
            || (exists m, n :: ParseResponse(raw1) == Err(DuplicateParameter(m))
                               && ParseResponse(raw2) == Err(DuplicateParameter(n)))
  {
    var p, q := FormUrlEncoded.Parse(raw1), FormUrlEncoded.Parse(raw2);
    WellFormedPermuted(raw1, raw2);
    ParsePermuted(Text.Split(raw1, AMPERSAND), Text.Split(raw2, AMPERSAND));
    NoRepeatIffUnique(p);
    NoRepeatIffUnique(q);
    if UniqueNames(p) {
      UniquePermuted(p, q);
      ClassifyPermuted(p, q);
    } else if UniqueNames(q) {
      UniquePermuted(q, p);
    }
  }

  // Unknown fields

  const KNOWN: set<string> := {"code", "error", "error_description", "error_uri", "state", "iss"}

  lemma {:induction false} ParameterAppend(params: Params, last: (string, string), name: string)
    requires last.0 != name
    ensures Parameter(params + [last], name) == Parameter(params, name)
  {
    if params == [] {
    } else {
      assert (params + [last])[1..] == params[1..] + [last];
      ParameterAppend(params[1..], last, name);
    }
  }

  lemma ClassifyAppend(params: Params, last: (string, string))
    requires last.0 !in KNOWN
    ensures Classify(params + [last]) == Classify(params)
  {
    ParameterAppend(params, last, "code");
    ParameterAppend(params, last, "error");
    ParameterAppend(params, last, "error_description");
    ParameterAppend(params, last, "error_uri");
    ParameterAppend(params, last, "state");
    ParameterAppend(params, last, "iss");
  }

  lemma ParseAppend(raw: seq<byte>, field: seq<byte>)
    requires AMPERSAND !in field && WellFormedField(field)
    ensures WellFormed(raw + [AMPERSAND] + field) <==> WellFormed(raw)
    ensures FormUrlEncoded.Parse(raw + [AMPERSAND] + field)
         == FormUrlEncoded.Parse(raw) + ParseFields([field])
  {
    var before, after := Text.Split(raw, AMPERSAND), Text.Split(raw + [AMPERSAND] + field, AMPERSAND);
    Text.SplitConcat(raw, AMPERSAND, field);
    Text.SplitJoin([field], AMPERSAND);
    ParseFieldsConcat(before, [field]);
    assert after == before + [field];
    assert forall x :: x in after <==> x in before || x == field;
  }

  /** A well-formed field with a fresh, unknown name changes nothing, not even the error. */
  lemma UnknownFieldIgnored(raw: seq<byte>, field: seq<byte>)
    requires AMPERSAND !in field && WellFormedField(field)
    requires field != [] ==> ParseField(field).0 !in KNOWN && !HasName(FormUrlEncoded.Parse(raw), ParseField(field).0)
    ensures ParseResponse(raw + [AMPERSAND] + field) == ParseResponse(raw)
  {
    ParseAppend(raw, field);
    var p := FormUrlEncoded.Parse(raw);
    if field == [] {
      assert ParseFields([field]) == [] && p + [] == p;
    } else {
      var x := ParseField(field);
      assert ParseFields([field]) == [x];
      assert (p + [x])[..|p|] == p;
      ClassifyAppend(p, x);
    }
  }

  // Encoded responses

  /** The fields an authorization server sends for a successful response. */
  function SuccessFields(code: string, state: string, iss: Option<string>): Params {
    [("code", code), ("state", state)] + (if iss.Some? then [("iss", iss.value)] else [])
  }

  lemma SuccessFieldsDescribe(code: string, state: string, iss: Option<string>)
    requires iss.Some? ==> iss.value != ""
    ensures UniqueNames(SuccessFields(code, state, iss))
    ensures Describes(SuccessFields(code, state, iss), Success(code, state, iss))
       <==> code != "" && state != "" && AllChars(code, VSCHAR) && AllChars(state, VSCHAR)
  {
    var p := SuccessFields(code, state, iss);
    assert p[0] == ("code", code) && p[1] == ("state", state);
    assert iss.Some? ==> p[2] == ("iss", iss.value);
    forall x | x in p
      ensures x == ("code", code) || x == ("state", state) || (iss.Some? && x == ("iss", iss.value))
    {
      var i :| 0 <= i < |p| && p[i] == x;
    }
    assert Holds(p, "error", None) && Holds(p, "error_description", None) && Holds(p, "error_uri", None);
    assert Holds(p, "iss", iss);
  }

  /** Encoding a non-empty code and state of visible characters parses to exactly that response. */
  lemma EncodedSuccessParses(code: string, state: string, iss: Option<string>)
    requires iss.Some? ==> iss.value != ""
    ensures ParseResponse(Serialize(SuccessFields(code, state, iss))) == Ok(Success(code, state, iss))
       <==> code != "" && state != "" && AllChars(code, VSCHAR) && AllChars(state, VSCHAR)
  {
    var fields := SuccessFields(code, state, iss);
    SerializedIsWellFormed(fields);
    RoundTrip(fields);
    SuccessFieldsDescribe(code, state, iss);
    AcceptedIff(Serialize(fields), Success(code, state, iss));
  }
}
