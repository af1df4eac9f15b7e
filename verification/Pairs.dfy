/** Lists of name-value pairs: the parameters of a query or the fields of a form. */
module Pairs {
  import opened Wrappers
  import Text

  function Field(name: string, value: Option<string>): seq<(string, string)> {
    if value.Some? then [(name, value.value)] else []
  }

  /** The parameters that are set, of those listed. */
  function Gather(fields: seq<(string, Option<string>)>): seq<(string, string)> {
    if fields == [] then []
    else
      var n := |fields| - 1;
      Gather(fields[..n]) + Field(fields[n].0, fields[n].1)
  }

  /** Appending a parameter that is set adds it to those listed. */
  lemma AppendField(before: seq<(string, string)>, q: seq<(string, string)>, fields: seq<(string, Option<string>)>,
                    name: string, value: Option<string>)
    returns (r: seq<(string, Option<string>)>)
    requires q == before + Gather(fields)
    ensures r == fields + [(name, value)]
    ensures (if value.Some? then q + [(name, value.value)] else q) == before + Gather(r)
  {
    r := fields + [(name, value)];
    assert r[..|fields|] == fields;
    Text.Regroup(before, Gather(fields), Field(name, value));
  }

  function Listed(value: Option<string>): seq<string> {
    if value.Some? then [value.value] else []
  }

  /** The values that a query gives for a name, in order. */
  function ValuesOf(query: seq<(string, string)>, name: string): seq<string> {
    if query == [] then [] else (if query[0].0 == name then [query[0].1] else []) + ValuesOf(query[1..], name)
  }

  ghost predicate Uses(query: seq<(string, string)>, name: string) {
    exists i :: 0 <= i < |query| && query[i].0 == name
  }

  lemma {:induction false} ValuesConcat(a: seq<(string, string)>, b: seq<(string, string)>, name: string)
    ensures ValuesOf(a + b, name) == ValuesOf(a, name) + ValuesOf(b, name)
  {
    if a == [] {
      assert a + b == b;
    } else {
      assert (a + b)[0] == a[0] && (a + b)[1..] == a[1..] + b;
      ValuesConcat(a[1..], b, name);
      Text.Regroup(if a[0].0 == name then [a[0].1] else [], ValuesOf(a[1..], name), ValuesOf(b, name));
    }
  }

  lemma {:induction false} NoValuesIffUnused(query: seq<(string, string)>, name: string)
    ensures ValuesOf(query, name) == [] <==> !Uses(query, name)
  {
    if query == [] {
    } else {
      var rest := query[1..];
      NoValuesIffUnused(rest, name);
      if i :| 0 <= i < |query| && query[i].0 == name {
        assert i > 0 ==> rest[i - 1].0 == name;
      }
      if i :| 0 <= i < |rest| && rest[i].0 == name {
        assert query[i + 1].0 == name;
      }
    }
  }

  lemma ValuesOfField(field: string, value: Option<string>, name: string)
    ensures ValuesOf(Field(field, value), name) == if field == name && value.Some? then [value.value] else []
  {
    if value.Some? {
      assert Field(field, value)[1..] == [];
    }
  }

  lemma {:induction false} GatherNone(fields: seq<(string, Option<string>)>, name: string)
    requires forall j :: 0 <= j < |fields| ==> fields[j].0 != name
    ensures ValuesOf(Gather(fields), name) == []
  {
    if fields == [] {
    } else {
      var n := |fields| - 1;
      GatherNone(fields[..n], name);
      ValuesConcat(Gather(fields[..n]), Field(fields[n].0, fields[n].1), name);
      ValuesOfField(fields[n].0, fields[n].1, name);
    }
  }

  lemma {:induction false} GatherOne(fields: seq<(string, Option<string>)>, i: nat, name: string)
    requires i < |fields| && fields[i].0 == name
    requires forall j :: 0 <= j < |fields| && j != i ==> fields[j].0 != name
    ensures ValuesOf(Gather(fields), name) == Listed(fields[i].1)
  {
    var n := |fields| - 1;
    ValuesConcat(Gather(fields[..n]), Field(fields[n].0, fields[n].1), name);
    ValuesOfField(fields[n].0, fields[n].1, name);
    if i == n {
      GatherNone(fields[..n], name);
    } else {
      GatherOne(fields[..n], i, name);
    }
  }

  lemma {:induction false} SingleValue(query: seq<(string, string)>, i: nat, name: string)
    requires i < |query| && query[i].0 == name
    requires forall j :: 0 <= j < |query| && j != i ==> query[j].0 != name
    ensures ValuesOf(query, name) == [query[i].1]
  {
    if i == 0 {
      assert forall j :: 0 <= j < |query[1..]| ==> query[1..][j] == query[j + 1];
      NoValuesIffUnused(query[1..], name);
    } else {
      SingleValue(query[1..], i - 1, name);
    }
  }

  lemma {:induction false} GatherNames(fields: seq<(string, Option<string>)>, names: seq<string>)
    requires |names| == |fields| && forall i :: 0 <= i < |fields| ==> fields[i].0 == names[i]
    ensures forall x :: x in Gather(fields) ==> x.0 in names
  {
    if fields == [] {
    } else {
      var n := |fields| - 1;
      GatherNames(fields[..n], names[..n]);
      forall x | x in Gather(fields) ensures x.0 in names {
        assert names[n] in names;
        assert x.0 in names[..n] ==> x.0 in names;
      }
    }
  }

  lemma GatherTwo(a: (string, Option<string>), b: (string, Option<string>))
    ensures Gather([a, b]) == Field(a.0, a.1) + Field(b.0, b.1)
  {
    assert [a, b][..1] == [a] && [a][..0] == [];
    assert Gather([a]) == Gather([]) + Field(a.0, a.1);
  }

  lemma {:induction false} GatherConcat(a: seq<(string, Option<string>)>, b: seq<(string, Option<string>)>)
    ensures Gather(a + b) == Gather(a) + Gather(b)
  {
    if b == [] {
      assert a + b == a;
    } else {
      var n := |b| - 1;
      assert (a + b)[..|a + b| - 1] == a + b[..n];
      GatherConcat(a, b[..n]);
      Text.Regroup(Gather(a), Gather(b[..n]), Field(b[n].0, b[n].1));
    }
  }
}
