/** How Cache-Control directives are written (src/metadata/cache.rs): for every text, what it is read as. */
module DirectiveText {
  import opened Wrappers
  import opened Time
  import opened Ascii
  import opened CachePolicy
  import Text

  const NAMES: seq<string> := ["no-store", "no-cache", "must-revalidate", "max-age"]

  /** The name, in any letter case and with any whitespace around it, and then nothing or an equals sign and more. */
  ghost predicate Written(part: string, before: string, name: string, after: string, rest: string, canonical: string) {
    && part == before + name + after + rest
    && (forall c :: c in before + after ==> Whitespace(c))
    && EqualIgnoreCase(name, canonical)
    && (rest == "" || rest[0] == '=')
  }

  /** Without the equals sign, the argument of a written directive. */
  function Argument(rest: string): Option<string> {
    if rest == "" then None else Some(Trim(rest[1..]))
  }

  lemma NamesArePlain(name: string, k: nat)
    requires k < |NAMES| && EqualIgnoreCase(name, NAMES[k])
    ensures name != "" && forall i :: 0 <= i < |name| ==> name[i] != '=' && !Whitespace(name[i])
  {
    forall i | 0 <= i < |name| ensures name[i] != '=' && !Whitespace(name[i]) {
      assert Lower(name[i]) == Lower(NAMES[k][i]);
      assert 'a' <= NAMES[k][i] <= 'z' || NAMES[k][i] == '-';
    }
  }

  /** The four names are told apart. */
  lemma NamesDiffer(name: string, j: nat, k: nat)
    requires j < k < |NAMES| && EqualIgnoreCase(name, NAMES[k])
    ensures !EqualIgnoreCase(name, NAMES[j])
  {
    assert |NAMES[0]| == 8 && |NAMES[1]| == 8 && |NAMES[2]| == 15 && |NAMES[3]| == 7;
    if j == 0 && k == 1 {
      assert Lower(name[3]) == Lower("no-cache"[3]) && "no-cache"[3] == 'c' && "no-store"[3] == 's';
    }
  }

  lemma PlainName(before: string, name: string, after: string)
    requires forall c :: c in before + after ==> Whitespace(c)
    requires name != "" && forall i :: 0 <= i < |name| ==> name[i] != '=' && !Whitespace(name[i])
    ensures NameAndArgument(Trim(before + name + after)) == (name, None)
  {
    TrimPadded(before, name, after);
    assert '=' !in name;
  }

  lemma TrimWithArgument(before: string, left: string, value: string)
    requires forall c :: c in before ==> Whitespace(c)
    requires left != "" && !Whitespace(left[0])
    ensures Trim(before + (left + ['='] + value)) == left + ['='] + TrimEnd(value, Whitespace)
  {
    TrimStartPadded(before, left + ['='] + value, Whitespace);
    TrimEndPast(left + ['='], value);
  }

  lemma NameBeforeArgument(before: string, name: string, after: string, value: string)
    requires forall c :: c in before || c in after ==> Whitespace(c)
    requires name != "" && forall i :: 0 <= i < |name| ==> name[i] != '=' && !Whitespace(name[i])
    ensures NameAndArgument(Trim(before + (name + after + ['='] + value))) == (name, Some(Trim(value)))
  {
    var left, kept := name + after, TrimEnd(value, Whitespace);
    var pad := TrimEndSplits(value, Whitespace);
    TrimWithArgument(before, left, value);
    assert '=' !in name && '=' !in after;
    Text.SplitOnceAt(left, '=', kept);
    assert "" + name + after == left;
    TrimPadded("", name, after);
    TrimIgnoresEnd(kept, pad);
  }

  lemma WrittenIsSplit(part: string, before: string, name: string, after: string, rest: string, k: nat)
    requires k < |NAMES| && Written(part, before, name, after, rest, NAMES[k])
    ensures NameAndArgument(Trim(part)) == (name, Argument(rest))
  {
    NamesArePlain(name, k);
    if rest == "" {
      assert part == before + name + after;
      PlainName(before, name, after);
    } else {
      assert part == before + (name + after + ['='] + rest[1..]);
      assert forall c :: c in before || c in after ==> c in before + after;
      NameBeforeArgument(before, name, after, rest[1..]);
    }
  }

  /** What a text with one of the four names is read as. */
  function Meaning(k: nat, argument: Option<string>): Directive
    requires k < |NAMES|
  {
    if k == 0 then NoStore
    else if k == 1 then NoCache
    else if k == 2 then MustRevalidate
    else if argument.Some? then MaxAge(ParseDeltaSeconds(argument.value))
    else Ignored
  }

  lemma NamedMeans(raw: string, k: nat)
    requires k < |NAMES| && EqualIgnoreCase(NameAndArgument(Trim(raw)).0, NAMES[k])
    ensures ReadDirective(raw) == Meaning(k, NameAndArgument(Trim(raw)).1)
  {
    var name := NameAndArgument(Trim(raw)).0;
    forall j: nat | j < k ensures !EqualIgnoreCase(name, NAMES[j]) {
      NamesDiffer(name, j, k);
    }
    forall j: nat | k < j < |NAMES| ensures !EqualIgnoreCase(name, NAMES[j]) {
      if EqualIgnoreCase(name, NAMES[j]) {
        NamesDiffer(name, k, j);
      }
    }
    assert !EqualIgnoreCase(name, NAMES[if k == 0 then 1 else 0]);
    assert !EqualIgnoreCase(name, NAMES[if k <= 1 then 2 else 1]);
    assert !EqualIgnoreCase(name, NAMES[if k <= 2 then 3 else 2]);
  }

  /** However it is written, with or without an argument, a directive is read by its name. */
  lemma WrittenMeans(part: string, before: string, name: string, after: string, rest: string, k: nat)
    requires k < |NAMES| && Written(part, before, name, after, rest, NAMES[k])
    ensures ReadDirective(part) == Meaning(k, Argument(rest))
  {
    WrittenIsSplit(part, before, name, after, rest, k);
    NamedMeans(part, k);
  }

  lemma Regrouped(front: string, b: string, name: string, a: string, rest: string, back: string)
    ensures front + (b + name + a + rest) + back == (front + b) + name + a + (rest + back)
  {
  }

  /** Every text is a name, perhaps in whitespace, and perhaps an argument. */
  lemma Parted(part: string) returns (before: string, name: string, after: string, rest: string)
    ensures part == before + name + after + rest && forall c :: c in before + after ==> Whitespace(c)
    ensures (rest == "" || rest[0] == '=') && NameAndArgument(Trim(part)) == (name, Argument(rest))
  {
    var front, back := TrimSplits(part);
    assert forall c :: c in front || c in back ==> c in front + back;
    var t := Trim(part);
    if Text.SplitOnce(t, '=') == None {
      before, name, after, rest := front, t, back, "";
      assert part == before + name + after + rest;
    } else {
      var (left, right) := Text.SplitOnce(t, '=').value;
      var b, a := TrimSplits(left);
      assert forall c :: c in b || c in a ==> c in b + a;
      Regrouped(front, b, Trim(left), a, ['='] + right, back);
      assert t == b + Trim(left) + a + (['='] + right);
      before, name, after, rest := front + b, Trim(left), a, ['='] + right + back;
      assert rest[1..] == right + back;
      TrimIgnoresEnd(right, back);
    }
  }

  /** And nothing else is read as one. */
  lemma ReadIsWritten(part: string) returns (before: string, name: string, after: string, rest: string, k: nat)
    requires !ReadDirective(part).Ignored?
    ensures k < |NAMES| && Written(part, before, name, after, rest, NAMES[k])
    ensures ReadDirective(part) == Meaning(k, Argument(rest))
  {
    before, name, after, rest := Parted(part);
    k := if EqualIgnoreCase(name, NAMES[0]) then 0 else if EqualIgnoreCase(name, NAMES[1]) then 1
         else if EqualIgnoreCase(name, NAMES[2]) then 2 else 3;
    assert NAMES[0] == "no-store" && NAMES[1] == "no-cache" && NAMES[2] == "must-revalidate" && NAMES[3] == "max-age";
    NamedMeans(part, k);
  }

  /** For every text: it is read as a directive exactly if it is written as one. */
  lemma ReadIffWritten(part: string, directive: Directive)
    requires directive != Ignored
    ensures ReadDirective(part) == directive
       <==> exists before, name, after, rest, k: nat ::
              && k < |NAMES| && Written(part, before, name, after, rest, NAMES[k])
              && Meaning(k, Argument(rest)) == directive
  {
    if ReadDirective(part) == directive {
      var before, name, after, rest, k := ReadIsWritten(part);
      assert Written(part, before, name, after, rest, NAMES[k]);
    }
    if before, name, after, rest, k: nat :|
         k < |NAMES| && Written(part, before, name, after, rest, NAMES[k]) && Meaning(k, Argument(rest)) == directive
    {
      WrittenMeans(part, before, name, after, rest, k);
    }
  }
}
