/** UTF-8, strict and lossy, over the scalar values that make up a string. */
module Utf8 {
  import opened Wrappers

  type byte = b: int | 0 <= b < 256

  const REPLACEMENT: char := '\U{FFFD}'

  predicate Continuation(b: byte) {
    0x80 <= b < 0xC0
  }

  function EncodeScalar(n: int): (r: seq<byte>)
    requires 0 <= n < 0x11_0000
    ensures 1 <= |r| <= 4
  {
    if n < 0x80 then [n]
    else if n < 0x800 then [0xC0 + n / 64, 0x80 + n % 64]
    else if n < 0x1_0000 then [0xE0 + n / 4096, 0x80 + n / 64 % 64, 0x80 + n % 64]
    else [0xF0 + n / 262144, 0x80 + n / 4096 % 64, 0x80 + n / 64 % 64, 0x80 + n % 64]
  }

  function EncodeChar(c: char): (r: seq<byte>)
    ensures 1 <= |r| <= 4
  {
    EncodeScalar(c as int)
  }

  function Encode(s: string): seq<byte> {
    if s == [] then [] else EncodeChar(s[0]) + Encode(s[1..])
  }

  /** The second bytes that may follow a multi-byte lead (Unicode table 3-7). */
  predicate SecondByteOk(lead: byte, b: byte) {
    Continuation(b)
    && (lead == 0xE0 ==> 0xA0 <= b)
    && (lead == 0xED ==> b < 0xA0)
    && (lead == 0xF0 ==> 0x90 <= b)
    && (lead == 0xF4 ==> b < 0x90)
  }

  /** The length announced by a lead byte; zero if no character starts with it. */
  function SequenceLength(lead: byte): (n: nat)
    ensures n <= 4
  {
    if lead < 0x80 then 1
    else if 0xC2 <= lead < 0xE0 then 2
    else if 0xE0 <= lead < 0xF0 then 3
    else if 0xF0 <= lead < 0xF5 then 4
    else 0
  }

  predicate StartsWithChar(b: seq<byte>) {
    b != []
    && var n := SequenceLength(b[0]);
    && 1 <= n <= |b|
    && (n >= 2 ==> SecondByteOk(b[0], b[1]))
    && (n >= 3 ==> Continuation(b[2]))
    && (n == 4 ==> Continuation(b[3]))
  }

  function Scalar2(x: nat, y: nat): (n: nat)
    requires 2 <= x < 32 && y < 64
    ensures 0x80 <= n < 0x800 && n / 64 == x && n % 64 == y
  {
    x * 64 + y
  }

  function Scalar3(x: nat, y: nat, z: nat): (n: nat)
    requires x < 16 && y < 64 && z < 64
    requires x == 0 ==> 0x20 <= y
    requires x == 13 ==> y < 0x20
    ensures 0x800 <= n < 0xD800 || 0xE000 <= n < 0x1_0000
    ensures n / 4096 == x && n / 64 % 64 == y && n % 64 == z
  {
    assert (x * 4096 + y * 64 + z) / 64 == x * 64 + y;
    x * 4096 + y * 64 + z
  }

  function Scalar4(x: nat, y: nat, z: nat, w: nat): (n: nat)
    requires x < 5 && y < 64 && z < 64 && w < 64
    requires x == 0 ==> 0x10 <= y
    requires x == 4 ==> y < 0x10
    ensures 0x1_0000 <= n < 0x11_0000
    ensures n / 262144 == x && n / 4096 % 64 == y && n / 64 % 64 == z && n % 64 == w
  {
    assert (x * 262144 + y * 4096 + z * 64 + w) / 64 == x * 4096 + y * 64 + z;
    assert (x * 262144 + y * 4096 + z * 64 + w) / 4096 == x * 64 + y;
    x * 262144 + y * 4096 + z * 64 + w
  }

  /** The scalar value that a well-formed sequence of bytes spells. */
  function ScalarValue(b: seq<byte>): (n: int)
    requires StartsWithChar(b)
    ensures 0 <= n < 0xD800 || 0xE000 <= n < 0x11_0000
    ensures EncodeScalar(n) == b[..SequenceLength(b[0])]
  {
    var len := SequenceLength(b[0]);
    if len == 1 then b[0]
    else if len == 2 then Scalar2(b[0] - 0xC0, b[1] - 0x80)
    else if len == 3 then Scalar3(b[0] - 0xE0, b[1] - 0x80, b[2] - 0x80)
    else Scalar4(b[0] - 0xF0, b[1] - 0x80, b[2] - 0x80, b[3] - 0x80)
  }

  function FirstChar(b: seq<byte>): char
    requires StartsWithChar(b)
  {
    ScalarValue(b) as char
  }

  /** Strict decoding: fails on the first ill-formed sequence. */
  function Decode(b: seq<byte>): Option<string>
    decreases |b|
  {
    if b == [] then Some("")
    else if !StartsWithChar(b) then None
    else
      match Decode(b[SequenceLength(b[0])..])
      case None => None
      case Some(rest) => Some([FirstChar(b)] + rest)
  }

  predicate Valid(b: seq<byte>) {
    Decode(b).Some?
  }

  /** How many bytes one replacement character stands for: the longest start of a character. */
  function IllFormedLength(b: seq<byte>): (n: nat)
    requires b != [] && !StartsWithChar(b)
    ensures 1 <= n <= |b|
  {
    var n := SequenceLength(b[0]);
    if n < 2 || |b| < 2 || !SecondByteOk(b[0], b[1]) then 1
    else if n == 2 || |b| < 3 || !Continuation(b[2]) then 2
    else 3
  }

  /** Lossy decoding: each ill-formed stretch becomes the replacement character. */
  function DecodeLossy(b: seq<byte>): string
    decreases |b|
  {
    if b == [] then ""
    else if StartsWithChar(b) then [FirstChar(b)] + DecodeLossy(b[SequenceLength(b[0])..])
    else [REPLACEMENT] + DecodeLossy(b[IllFormedLength(b)..])
  }

  lemma ThreeDigits(n: int)
    requires 0x800 <= n < 0xD800 || 0xE000 <= n < 0x1_0000
    ensures n / 4096 < 16 && n == n / 4096 * 4096 + n / 64 % 64 * 64 + n % 64
    ensures n / 4096 == 0 ==> 0x20 <= n / 64 % 64
    ensures n / 4096 == 13 ==> n / 64 % 64 < 0x20
  {
    assert n / 64 == n / 4096 * 64 + n / 64 % 64;
  }

  lemma FourDigits(n: int)
    requires 0x1_0000 <= n < 0x11_0000
    ensures n / 262144 < 5
    ensures n == n / 262144 * 262144 + n / 4096 % 64 * 4096 + n / 64 % 64 * 64 + n % 64
    ensures n / 262144 == 0 ==> 0x10 <= n / 4096 % 64
    ensures n / 262144 == 4 ==> n / 4096 % 64 < 0x10
  {
    assert n / 4096 == n / 262144 * 64 + n / 4096 % 64;
    assert n / 64 == n / 4096 * 64 + n / 64 % 64;
  }

  lemma EncodeScalarStarts(n: int, rest: seq<byte>)
    requires 0 <= n < 0xD800 || 0xE000 <= n < 0x11_0000
    ensures StartsWithChar(EncodeScalar(n) + rest)
    ensures SequenceLength(EncodeScalar(n)[0]) == |EncodeScalar(n)|
    ensures ScalarValue(EncodeScalar(n) + rest) == n
  {
    var e := EncodeScalar(n);
    var b := e + rest;
    assert b[0] == e[0];
    if 0x80 <= n {
      assert b[1] == e[1];
      if 0x800 <= n {
        assert b[2] == e[2];
        if n < 0x1_0000 {
          ThreeDigits(n);
        } else {
          assert b[3] == e[3];
          FourDigits(n);
        }
      }
    }
  }

  lemma FirstCharEncodes(b: seq<byte>)
    requires StartsWithChar(b)
    ensures EncodeChar(FirstChar(b)) == b[..SequenceLength(b[0])]
  {
    assert EncodeScalar(ScalarValue(b)) == b[..SequenceLength(b[0])];
  }

  /** One replacement character stands for the longest start of a character that is there, or for one byte. */
  lemma ReplacesMaximalStart(b: seq<byte>, c: char, m: nat)
    requires b != [] && !StartsWithChar(b)
    ensures IllFormedLength(b) > 1 ==> exists d :: b[..IllFormedLength(b)] < EncodeChar(d)
    ensures m <= |b| && b[..m] <= EncodeChar(c) ==> m <= IllFormedLength(b)
  {
    var n := IllFormedLength(b);
    if n > 1 {
      var whole := b[..n] + if SequenceLength(b[0]) == n + 1 then [0x80] else [0x80, 0x80];
      assert whole[0] == b[0] && whole[1] == b[1];
      assert StartsWithChar(whole);
      FirstCharEncodes(whole);
      assert b[..n] < EncodeChar(FirstChar(whole));
    }
    var e := EncodeChar(c);
    if m <= |b| && b[..m] <= e {
      EncodeScalarStarts(c as int, []);
      assert e + [] == e;
      assert forall i :: 0 <= i < m ==> b[i] == b[..m][i] == e[i];
    }
  }

  lemma {:induction false} DecodeEncode(s: string)
    ensures Decode(Encode(s)) == Some(s)
  {
    if s == [] {
      assert Encode(s) == [];
    } else {
      var e := EncodeChar(s[0]);
      EncodeScalarStarts(s[0] as int, Encode(s[1..]));
      assert (e + Encode(s[1..]))[|e|..] == Encode(s[1..]);
      DecodeEncode(s[1..]);
      assert [s[0]] + s[1..] == s;
    }
  }

  lemma EncodeCons(c: char, rest: string, b: seq<byte>, n: nat)
    requires n <= |b| && EncodeChar(c) == b[..n] && Encode(rest) == b[n..]
    ensures Encode([c] + rest) == b
  {
    assert ([c] + rest)[1..] == rest;
    assert b == b[..n] + b[n..];
  }

  lemma {:induction false} EncodeDecode(b: seq<byte>)
    requires Valid(b)
    ensures Encode(Decode(b).value) == b
    decreases |b|
  {
    if b == [] {
    } else {
      var n := SequenceLength(b[0]);
      EncodeDecode(b[n..]);
      FirstCharEncodes(b);
      EncodeCons(FirstChar(b), Decode(b[n..]).value, b, n);
    }
  }

  /** On well-formed input the lossy decoder agrees with the strict one. */
  lemma {:induction false} LossyIsStrict(b: seq<byte>)
    requires Valid(b)
    ensures Some(DecodeLossy(b)) == Decode(b)
    decreases |b|
  {
    if b == [] {
    } else {
      LossyIsStrict(b[SequenceLength(b[0])..]);
    }
  }

  /** Lossy decoding can be undone exactly on the well-formed inputs. */
  lemma LosesNothing(b: seq<byte>)
    ensures Encode(DecodeLossy(b)) == b <==> Valid(b)
  {
    if Valid(b) {
      LossyIsStrict(b);
      EncodeDecode(b);
    }
    DecodeEncode(DecodeLossy(b));
  }

  predicate Ascii(s: string) {
    forall c :: c in s ==> c as int < 0x80
  }

  /** ASCII characters are their own bytes. */
  lemma {:induction false} AsciiBytes(s: string)
    requires Ascii(s)
    ensures |Encode(s)| == |s| && forall i :: 0 <= i < |s| ==> Encode(s)[i] == s[i] as int
  {
    if s == [] {
    } else {
      assert s[0] in s && forall c :: c in s[1..] ==> c in s;
      AsciiBytes(s[1..]);
      assert EncodeChar(s[0]) == [s[0] as int];
    }
  }

  /** Any other character has a byte beyond them. */
  lemma {:induction false} NonAsciiByte(s: string)
    requires !Ascii(s)
    ensures exists b :: b in Encode(s) && b >= 0x80
  {
    var e := EncodeChar(s[0]);
    assert s == [s[0]] + s[1..];
    if s[0] as int < 0x80 {
      NonAsciiByte(s[1..]);
      var b :| b in Encode(s[1..]) && b >= 0x80;
      assert b in Encode(s);
    } else {
      assert e[0] >= 0x80 && e[0] in Encode(s);
    }
  }

  /** One character of each length, and what stands for a byte that starts none. */
  lemma KnownEncodings()
    ensures EncodeChar('\U{41}') == [0x41]
    ensures EncodeChar('\U{E9}') == [0xC3, 0xA9]
    ensures EncodeChar('\U{20AC}') == [0xE2, 0x82, 0xAC]
    ensures EncodeChar('\U{1F600}') == [0xF0, 0x9F, 0x98, 0x80]
    ensures DecodeLossy([0xFF]) == "\U{FFFD}"
  {
    assert [0xFF][1..] == [];
  }
}
