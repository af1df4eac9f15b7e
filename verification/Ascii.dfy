/** The text primitives of the standard library that header parsing relies on. */
module Ascii {
  import opened Wrappers

  predicate Whitespace(c: char): (r: bool)
    ensures r <==> c as int in {9, 10, 12, 13, 32}
  {
    c in {' ', '\t', '\n', '\r', '\U{0C}'}
  }

  function TrimStart(s: string, drop: char -> bool): string {
    if s != [] && drop(s[0]) then TrimStart(s[1..], drop) else s
  }

  function TrimEnd(s: string, drop: char -> bool): string {
    if s != [] && drop(s[|s| - 1]) then TrimEnd(s[..|s| - 1], drop) else s
  }

  function Trim(s: string): string {
    TrimEnd(TrimStart(s, Whitespace), Whitespace)
  }

  predicate Quote(c: char) {
    c == '"'
  }

  function TrimQuotes(s: string): string {
    TrimEnd(TrimStart(s, Quote), Quote)
  }

  function Lower(c: char): char {
    if 'A' <= c <= 'Z' then ((c as int) + 32) as char else c
  }

  predicate EqualIgnoreCase(a: string, b: string) {
    |a| == |b| && forall i :: 0 <= i < |a| ==> Lower(a[i]) == Lower(b[i])
  }

  predicate Digit(c: char) {
    '0' <= c <= '9'
  }

  predicate AllDigits(s: string) {
    forall c :: c in s ==> Digit(c)
  }

  /** The number that a string of decimal digits denotes. */
  function Numeral(s: string): nat
    requires AllDigits(s)
  {
    if s == [] then 0
    else
      var n := |s| - 1;
      assert s[n] in s && forall c :: c in s[..n] ==> c in s;
      10 * Numeral(s[..n]) + (s[n] as int - '0' as int)
  }

  /** The usual way to write a number. */
  function Decimal(n: nat): string {
    (if n < 10 then [] else Decimal(n / 10)) + [(('0' as int) + n % 10) as char]
  }

  /** Parsing of an unsigned integer: an optional plus sign, then digits, within the limit. */
  function ParseUnsigned(s: string, limit: nat): Option<nat> {
    var digits := if s != [] && s[0] == '+' then s[1..] else s;
    if digits == [] || !AllDigits(digits) || Numeral(digits) > limit then None else Some(Numeral(digits))
  }

  lemma {:induction false} DecimalDenotes(n: nat)
    ensures Decimal(n) != [] && AllDigits(Decimal(n)) && Numeral(Decimal(n)) == n
    ensures Decimal(n)[0] == '0' <==> n == 0
  {
    var last := [(('0' as int) + n % 10) as char];
    if n < 10 {
      assert Decimal(n) == last && last[..0] == [];
      assert Numeral(last[..0]) == 0;
    } else {
      DecimalDenotes(n / 10);
      assert Decimal(n)[..|Decimal(n)| - 1] == Decimal(n / 10);
    }
  }

  lemma ParseDigits(s: string, limit: nat)
    requires s != [] && AllDigits(s)
    ensures ParseUnsigned(s, limit) == if Numeral(s) <= limit then Some(Numeral(s)) else None
    ensures TrimQuotes(s) == s && Trim(s) == s
  {
    assert Digit(s[0]) && Digit(s[|s| - 1]);
  }

  lemma SignAndDigits(s: string, limit: nat) returns (sign: string, digits: string)
    requires ParseUnsigned(s, limit).Some?
    ensures s == sign + digits && (sign == "" || sign == "+")
    ensures digits != [] && AllDigits(digits) && ParseUnsigned(s, limit) == Some(Numeral(digits))
    ensures Numeral(digits) <= limit
  {
    if s[0] == '+' {
      sign, digits := "+", s[1..];
    } else {
      sign, digits := "", s;
    }
  }

  lemma {:induction false} TrimStartSplits(s: string, drop: char -> bool) returns (pad: string)
    ensures s == pad + TrimStart(s, drop) && forall c :: c in pad ==> drop(c)
  {
    if s != [] && drop(s[0]) {
      pad := TrimStartSplits(s[1..], drop);
      pad := [s[0]] + pad;
    } else {
      pad := [];
    }
  }

  lemma {:induction false} TrimEndSplits(s: string, drop: char -> bool) returns (pad: string)
    ensures s == TrimEnd(s, drop) + pad && forall c :: c in pad ==> drop(c)
  {
    if s != [] && drop(s[|s| - 1]) {
      pad := TrimEndSplits(s[..|s| - 1], drop);
      pad := pad + [s[|s| - 1]];
    } else {
      pad := [];
    }
  }

  /** Trimming removes padding and nothing else. */
  lemma {:induction false} TrimStartPadded(pad: string, s: string, drop: char -> bool)
    requires forall c :: c in pad ==> drop(c)
    requires s != [] && !drop(s[0])
    ensures TrimStart(pad + s, drop) == s
  {
    if pad == [] {
      assert pad + s == s;
    } else {
      assert (pad + s)[1..] == pad[1..] + s;
      TrimStartPadded(pad[1..], s, drop);
    }
  }

  lemma {:induction false} TrimEndPadded(s: string, pad: string, drop: char -> bool)
    requires forall c :: c in pad ==> drop(c)
    requires s != [] && !drop(s[|s| - 1])
    ensures TrimEnd(s + pad, drop) == s
  {
    if pad == [] {
      assert s + pad == s;
    } else {
      var n := |pad| - 1;
      assert (s + pad)[..|s + pad| - 1] == s + pad[..n];
      assert pad[n] in pad;
      TrimEndPadded(s, pad[..n], drop);
    }
  }

  lemma BothPadded(before: string, s: string, after: string, drop: char -> bool)
    requires forall c :: c in before + after ==> drop(c)
    requires s != [] && !drop(s[0]) && !drop(s[|s| - 1])
    ensures TrimEnd(TrimStart(before + s + after, drop), drop) == s
  {
    assert forall c :: c in before ==> c in before + after;
    assert forall c :: c in after ==> c in before + after;
    assert before + s + after == before + (s + after);
    TrimStartPadded(before, s + after, drop);
    TrimEndPadded(s, after, drop);
  }

  lemma TrimPadded(before: string, s: string, after: string)
    requires forall c :: c in before + after ==> Whitespace(c)
    requires s != [] && !Whitespace(s[0]) && !Whitespace(s[|s| - 1])
    ensures Trim(before + s + after) == s
  {
    BothPadded(before, s, after, Whitespace);
  }

  /** What trimming leaves starts and ends with a character that stays. */
  lemma TrimSplits(s: string) returns (before: string, after: string)
    ensures s == before + Trim(s) + after && forall c :: c in before + after ==> Whitespace(c)
  {
    before := TrimStartSplits(s, Whitespace);
    after := TrimEndSplits(TrimStart(s, Whitespace), Whitespace);
    assert s == before + (Trim(s) + after);
  }

  lemma {:induction false} TrimEndPast(front: string, s: string)
    requires front != [] && !Whitespace(front[|front| - 1])
    ensures TrimEnd(front + s, Whitespace) == front + TrimEnd(s, Whitespace)
  {
    if s == [] {
      assert front + s == front;
    } else {
      var n := |s| - 1;
      assert (front + s)[..|front + s| - 1] == front + s[..n];
      assert (front + s)[|front + s| - 1] == s[n];
      TrimEndPast(front, s[..n]);
    }
  }

  lemma {:induction false} AllTrimmed(s: string)
    requires forall c :: c in s ==> Whitespace(c)
    ensures TrimStart(s, Whitespace) == []
  {
    if s == [] {
    } else {
      AllTrimmed(s[1..]);
    }
  }

  lemma {:induction false} TrimStartAll(s: string, after: string)
    requires forall c :: c in after ==> Whitespace(c)
    ensures TrimStart(s + after, Whitespace)
         == if TrimStart(s, Whitespace) == [] then [] else TrimStart(s, Whitespace) + after
  {
    if s == [] {
      assert s + after == after;
      AllTrimmed(after);
    } else if Whitespace(s[0]) {
      assert (s + after)[1..] == s[1..] + after;
      TrimStartAll(s[1..], after);
    }
  }

  lemma {:induction false} TrimEndAll(s: string, after: string)
    requires forall c :: c in after ==> Whitespace(c)
    ensures TrimEnd(s + after, Whitespace) == TrimEnd(s, Whitespace)
  {
    if after == [] {
      assert s + after == s;
    } else {
      var n := |after| - 1;
      assert (s + after)[..|s + after| - 1] == s + after[..n];
      TrimEndAll(s, after[..n]);
    }
  }

  /** Whitespace at the end makes no difference. */
  lemma TrimIgnoresEnd(s: string, after: string)
    requires forall c :: c in after ==> Whitespace(c)
    ensures Trim(s + after) == Trim(s)
  {
    TrimStartAll(s, after);
    TrimEndAll(TrimStart(s, Whitespace), after);
  }

  const UPPER := "ABCDEFGHIJKLMNOPQRSTUVWXYZ"
  const LOWER := "abcdefghijklmnopqrstuvwxyz"

  lemma Alphabet(i: nat)
    requires i < 26
    ensures UPPER[i] as int == 'A' as int + i && LOWER[i] as int == 'a' as int + i
  {
  }

  /** Only the letters of the upper case are changed, each to its own in the lower. */
  lemma LetterCase(c: char)
    ensures forall i :: 0 <= i < 26 && UPPER[i] == c ==> Lower(c) == LOWER[i]
    ensures c !in UPPER ==> Lower(c) == c
  {
    forall i: nat | i < 26 ensures UPPER[i] as int == 'A' as int + i && LOWER[i] as int == 'a' as int + i {
      Alphabet(i);
    }
    if 'A' <= c <= 'Z' {
      assert UPPER[c as int - 'A' as int] == c;
    }
  }
}
