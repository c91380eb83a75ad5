/** The merge rules of template variables given one after another or all at once. */
module TemplateVars {
  import opened Text

  datatype Var = Str(text: string) | Arr(items: seq<string>) | Map(pairs: map<string, string>)

  datatype Named = Named(name: string, value: Var)

  // ---------- one name ----------

  function WithKeys(m: map<string, string>, keys: seq<string>): map<string, string>
    decreases keys
  {
    if keys == [] then m else WithKeys(m[keys[0] := ""], keys[1..])
  }

  /** A map cannot be put onto an array or a string. */
  predicate Clashes(current: Option<Var>, value: Var) {
    value.Map? && current.Some? && !current.value.Map?
  }

  /** The three set helpers: what a name holds after one more value. */
  function Merged(current: Option<Var>, value: Var): Option<Var> {
    if Clashes(current, value) then current
    else if current.None? then Some(value)
    else match (value, current.value) {
      case (Str(_), _) => Some(value)
      case (Arr(items), Arr(c)) => Some(Arr(c + items))
      case (Arr(items), Str(c)) => Some(Arr([c] + items))
      case (Arr(items), Map(c)) => Some(Map(WithKeys(c, items)))
      case (Map(pairs), Map(c)) => Some(Map(c + pairs))
      case (Map(_), _) => current
    }
  }

  /** All values given for one name, from left to right. */
  function MergedAll(current: Option<Var>, values: seq<Var>): Option<Var>
    decreases values
  {
    if values == [] then current else MergedAll(Merged(current, values[0]), values[1..])
  }

  function ValuesFor(additions: seq<Named>, name: string): seq<Var> {
    if additions == [] then []
    else (if additions[0].name == name then [additions[0].value] else []) + ValuesFor(additions[1..], name)
  }

  function Lookup(t: map<string, Var>, name: string): Option<Var> {
    if name in t then Some(t[name]) else None
  }

  // ---------- the code ----------

  class Vars {
    var t: map<string, Var>

    constructor ()
      ensures t == map[]
    {
      t := map[];
    }

    method SetString(name: string, value: string)
      modifies this
      ensures t == old(t)[name := Str(value)]
    {
      t := t[name := Str(value)];
    }

    method SetArray(name: string, values: seq<string>)
      modifies this
      ensures t == old(t)[name := Merged(Lookup(old(t), name), Arr(values)).value]
    {
      if name in t {
        match t[name] {
          case Arr(c) =>
            t := t[name := Arr(c + values)];
          case Str(c) =>
            t := t[name := Arr([c] + values)];
          case Map(c) =>
            var m := c;
            assert values[0..] == values;
            for i := 0 to |values|
              invariant WithKeys(c, values) == WithKeys(m, values[i..])
            {
              assert values[i..][1..] == values[i + 1..];
              m := m[values[i] := ""];
            }
            t := t[name := Map(m)];
        }
        return;
      }
      t := t[name := Arr(values)];
    }

    method SetMap(name: string, values: map<string, string>) returns (failed: bool)
      modifies this
      ensures failed == Clashes(Lookup(old(t), name), Map(values))
      ensures t == if failed then old(t) else old(t)[name := Merged(Lookup(old(t), name), Map(values)).value]
    {
      if name in t {
        match t[name] {
          case Arr(_) => return true;
          case Str(_) => return true;
          case Map(c) => t := t[name := Map(c + values)];
        }
        return false;
      }
      t := t[name := Map(values)];
      return false;
    }

    method Set(name: string, value: Var) returns (failed: bool)
      modifies this
      ensures failed == Clashes(Lookup(old(t), name), value)
      ensures forall n :: n != name ==> Lookup(t, n) == Lookup(old(t), n)
      ensures Lookup(t, name) == Merged(Lookup(old(t), name), value)
    {
      match value {
        case Map(pairs) => failed := SetMap(name, pairs);
        case Arr(items) => SetArray(name, items); failed := false;
        case Str(text) => SetString(name, text); failed := false;
      }
    }

    /** Errors of single additions are dropped. */
    method Add(v: seq<Named>)
      modifies this
      ensures forall n :: Lookup(t, n) == MergedAll(Lookup(old(t), n), ValuesFor(v, n))
    {
      assert v[0..] == v;
      for i := 0 to |v|
        invariant forall n :: MergedAll(Lookup(old(t), n), ValuesFor(v, n)) ==
                              MergedAll(Lookup(t, n), ValuesFor(v[i..], n))
      {
        ghost var before := t;
        assert v[i..][1..] == v[i + 1..];
        var _ := Set(v[i].name, v[i].value);
        forall n
          ensures MergedAll(Lookup(before, n), ValuesFor(v[i..], n)) ==
                  MergedAll(Lookup(t, n), ValuesFor(v[i + 1..], n))
        {
          if n == v[i].name {
            MergedStep(Lookup(before, n), v[i].value, ValuesFor(v[i + 1..], n));
          } else {
            assert [] + ValuesFor(v[i + 1..], n) == ValuesFor(v[i + 1..], n);
          }
        }
      }
    }

    /** Visits u in an order that is not fixed and stops at the first clash. It fails
        exactly when some entry clashes; without a clash every name is merged, whatever
        the order was, and with one every name is merged or as it was. */
    method Update(u: map<string, Var>) returns (failed: bool)
      modifies this
      ensures failed <==> exists k :: k in u && Clashes(Lookup(old(t), k), u[k])
      ensures forall n :: n !in u ==> Lookup(t, n) == Lookup(old(t), n)
      ensures !failed ==> forall n :: n in u ==> Lookup(t, n) == Merged(Lookup(old(t), n), u[n])
      ensures forall n :: n in u ==>
                Lookup(t, n) == Lookup(old(t), n) || Lookup(t, n) == Merged(Lookup(old(t), n), u[n])
    {
      failed := false;
      var remaining := u.Keys;
      while remaining != {}
        invariant remaining <= u.Keys
        invariant forall n :: n !in u || n in remaining ==> Lookup(t, n) == Lookup(old(t), n)
        invariant forall n :: n in u && n !in remaining ==>
                    !Clashes(Lookup(old(t), n), u[n]) && Lookup(t, n) == Merged(Lookup(old(t), n), u[n])
        decreases remaining
      {
        var k :| k in remaining;
        failed := Set(k, u[k]);
        if failed {
          return;
        }
        remaining := remaining - {k};
      }
    }
  }

  lemma MergedStep(current: Option<Var>, value: Var, rest: seq<Var>)
    ensures MergedAll(current, [value] + rest) == MergedAll(Merged(current, value), rest)
  {
    assert ([value] + rest)[1..] == rest;
  }

  // ---------- what a sequence of additions leaves ----------

  lemma {:induction false} MergedAppend(current: Option<Var>, a: seq<Var>, b: seq<Var>)
    ensures MergedAll(current, a + b) == MergedAll(MergedAll(current, a), b)
    decreases a
  {
    if a == [] {
      assert a + b == b;
    } else {
      MergedAppend(Merged(current, a[0]), a[1..], b);
      assert (a + b)[1..] == a[1..] + b;
    }
  }

  /** A string forgets everything given before it. */
  lemma StringForgets(current: Option<Var>, before: seq<Var>, text: string, after: seq<Var>)
    ensures MergedAll(current, before + [Str(text)] + after) == MergedAll(None, [Str(text)] + after)
  {
    assert before + [Str(text)] + after == before + ([Str(text)] + after);
    MergedAppend(current, before, [Str(text)] + after);
    MergedStep(MergedAll(current, before), Str(text), after);
    MergedStep(None, Str(text), after);
  }

  predicate NoString(values: seq<Var>) {
    forall i :: 0 <= i < |values| ==> !values[i].Str?
  }

  /** The elements of the arrays among the values, in order; maps contribute nothing. */
  function Elements(values: seq<Var>): seq<string> {
    if values == [] then []
    else (if values[0].Arr? then values[0].items else []) + Elements(values[1..])
  }

  predicate SomeArray(values: seq<Var>) {
    exists i :: 0 <= i < |values| && values[i].Arr?
  }

  /** Maps updated by the maps among the values, and by the elements of the arrays as keys. */
  function Entries(m: map<string, string>, values: seq<Var>): map<string, string>
    decreases values
  {
    if values == [] then m
    else match values[0] {
      case Map(pairs) => Entries(m + pairs, values[1..])
      case Arr(items) => Entries(WithKeys(m, items), values[1..])
      case Str(_) => Entries(m, values[1..])
    }
  }

  lemma {:induction false} OntoArray(items: seq<string>, values: seq<Var>)
    requires NoString(values)
    ensures MergedAll(Some(Arr(items)), values) == Some(Arr(items + Elements(values)))
    decreases values
  {
    if values == [] {
      assert items + [] == items;
    } else {
      assert forall i :: 0 <= i < |values| - 1 ==> values[1..][i] == values[i + 1];
      if values[0].Arr? {
        OntoArray(items + values[0].items, values[1..]);
        Associate(items, values[0].items, Elements(values[1..]));
      } else {
        OntoArray(items, values[1..]);
        assert [] + Elements(values[1..]) == Elements(values[1..]);
      }
    }
  }

  lemma {:induction false} OntoMap(m: map<string, string>, values: seq<Var>)
    requires NoString(values)
    ensures MergedAll(Some(Map(m)), values) == Some(Map(Entries(m, values)))
    decreases values
  {
    if values != [] {
      assert forall i :: 0 <= i < |values| - 1 ==> values[1..][i] == values[i + 1];
      match values[0] {
        case Map(pairs) => OntoMap(m + pairs, values[1..]);
        case Arr(items) => OntoMap(WithKeys(m, items), values[1..]);
      }
    }
  }

  /** After the last string, arrays collect behind it in order and maps are rejected. */
  lemma {:induction false} AfterString(text: string, values: seq<Var>)
    requires NoString(values)
    ensures MergedAll(Some(Str(text)), values) ==
            if SomeArray(values) then Some(Arr([text] + Elements(values))) else Some(Str(text))
  {
    if values != [] {
      assert forall i :: 0 <= i < |values| - 1 ==> values[1..][i] == values[i + 1];
      if values[0].Arr? {
        OntoArray([text] + values[0].items, values[1..]);
        Associate([text], values[0].items, Elements(values[1..]));
        assert SomeArray(values);
      } else {
        AfterString(text, values[1..]);
        assert [] + Elements(values[1..]) == Elements(values[1..]);
        if SomeArray(values) {
          var i :| 0 <= i < |values| && values[i].Arr?;
          assert values[1..][i - 1].Arr?;
        }
        if SomeArray(values[1..]) {
          var i :| 0 <= i < |values[1..]| && values[1..][i].Arr?;
          assert values[i + 1].Arr?;
        }
      }
    }
  }

  /** values[k] is the last string, and rest stands behind it. */
  predicate LastString(values: seq<Var>, k: nat, text: string, rest: seq<Var>) {
    k < |values| && values[k] == Str(text) && values[k + 1..] == rest
  }

  lemma LastStringStays(front: seq<Var>, k: nat, text: string, rest: seq<Var>, last: Var)
    requires LastString(front, k, text, rest)
    ensures LastString(front + [last], k, text, rest + [last])
  {
    assert (front + [last])[k + 1..] == front[k + 1..] + [last];
  }

  /** The values behind the last string, and that string. */
  function SinceString(values: seq<Var>): (r: (Option<string>, seq<Var>))
    ensures NoString(r.1)
    ensures r.0.None? ==> r.1 == values
    ensures r.0.Some? ==> exists k :: LastString(values, k, r.0.value, r.1)
    decreases |values|
  {
    if values == [] then (None, [])
    else
      var last := values[|values| - 1];
      var front := values[..|values| - 1];
      assert values == front + [last];
      if last.Str? then
        assert LastString(values, |values| - 1, last.text, []);
        (Some(last.text), [])
      else
        var (text, rest) := SinceString(front);
        assert text.Some? ==> exists k :: LastString(values, k, text.value, rest + [last]) by {
          if text.Some? {
            var k :| LastString(front, k, text.value, rest);
            LastStringStays(front, k, text.value, rest, last);
          }
        }
        (text, rest + [last])
  }

  /** What a fresh name holds after any additions, in closed form: it depends on its own
      values since the last string only, and on the kind of the first of them. */
  function Summary(values: seq<Var>): Option<Var> {
    var (text, rest) := SinceString(values);
    if text.Some? then
      Some(if SomeArray(rest) then Arr([text.value] + Elements(rest)) else Str(text.value))
    else if rest == [] then None
    else match rest[0] {
      case Map(pairs) => Some(Map(Entries(pairs, rest[1..])))
      case _ => Some(Arr(Elements(rest)))
    }
  }

  lemma MergedSinceString(values: seq<Var>, k: nat, text: string)
    requires k < |values| && values[k] == Str(text) && NoString(values[k + 1..])
    ensures var rest := values[k + 1..];
            MergedAll(None, values) == Some(if SomeArray(rest) then Arr([text] + Elements(rest)) else Str(text))
  {
    var rest := values[k + 1..];
    assert values == values[..k] + [Str(text)] + rest;
    hide MergedAll, NoString, SomeArray, Elements;
    StringForgets(None, values[..k], text, rest);
    MergedStep(None, Str(text), rest);
    AfterString(text, rest);
  }

  lemma MergedWithoutString(values: seq<Var>)
    requires values != [] && NoString(values)
    ensures MergedAll(None, values) ==
            if values[0].Map? then Some(Map(Entries(values[0].pairs, values[1..])))
            else Some(Arr(values[0].items + Elements(values[1..])))
  {
    assert forall i :: 0 <= i < |values| - 1 ==> values[1..][i] == values[i + 1];
    match values[0] {
      case Map(pairs) => OntoMap(pairs, values[1..]);
      case Arr(items) => OntoArray(items, values[1..]);
    }
  }

  lemma MergedIsSummary(values: seq<Var>)
    ensures MergedAll(None, values) == Summary(values)
  {
    var (text, rest) := SinceString(values);
    if text.Some? {
      var k :| LastString(values, k, text.value, rest);
      hide SinceString, MergedAll, NoString;
      MergedSinceString(values, k, text.value);
    } else if values != [] {
      hide SinceString, MergedAll;
      MergedWithoutString(values);
    }
  }

  /** Names are independent: a name sees only the values given for it, in their order. */
  lemma {:induction false} OthersDoNotMatter(a: seq<Named>, b: seq<Named>, other: Named, name: string)
    requires other.name != name
    ensures ValuesFor(a + [other] + b, name) == ValuesFor(a + b, name)
  {
    if a == [] {
      assert a + [other] + b == [other] + b && a + b == b;
      assert ([other] + b)[1..] == b;
      assert [] + ValuesFor(b, name) == ValuesFor(b, name);
    } else {
      OthersDoNotMatter(a[1..], b, other, name);
      assert (a + [other] + b)[1..] == a[1..] + [other] + b && (a + b)[1..] == a[1..] + b;
    }
  }

  // ---------- single merges ----------

  /** The values for a name come in the order of the additions. */
  lemma {:induction false} ValuesInOrder(a: seq<Named>, n: Named, b: seq<Named>, name: string)
    ensures ValuesFor(a + [n] + b, name) ==
            ValuesFor(a, name) + (if n.name == name then [n.value] else []) + ValuesFor(b, name)
  {
    if a == [] {
      assert a + [n] + b == [n] + b && ([n] + b)[1..] == b;
      assert [] + (if n.name == name then [n.value] else []) == if n.name == name then [n.value] else [];
    } else {
      ValuesInOrder(a[1..], n, b, name);
      assert (a + [n] + b)[1..] == a[1..] + [n] + b;
      var own := if a[0].name == name then [a[0].value] else [];
      AppendThree(own, ValuesFor(a[1..], name), if n.name == name then [n.value] else [], ValuesFor(b, name));
    }
  }

  /** An addition is rejected exactly when a map is given and what is left is no map. */
  lemma RejectedMaps(current: Option<Var>, value: Var)
    ensures Clashes(current, value) <==>
            value.Map? && Merged(current, value).Some? && !Merged(current, value).value.Map?
    ensures Clashes(current, value) <==> value.Map? && current.Some? && (current.value.Str? || current.value.Arr?)
    ensures Clashes(current, value) ==> Merged(current, value) == current
  {
  }

  lemma {:induction false} WithKeysAt(m: map<string, string>, keys: seq<string>, k: string)
    ensures k in WithKeys(m, keys) <==> k in m || k in keys
    ensures k in keys ==> WithKeys(m, keys)[k] == ""
    ensures k !in keys && k in m ==> WithKeys(m, keys)[k] == m[k]
    decreases keys
  {
    if keys != [] {
      WithKeysAt(m[keys[0] := ""], keys[1..], k);
    }
  }

  /** What a merge leaves, key by key and element by element. */
  lemma MergedOnto(c: map<string, string>, pairs: map<string, string>, keys: seq<string>, k: string, s: string)
    ensures var onto := Merged(Some(Map(c)), Map(pairs));
            && onto.Some? && onto.value.Map?
            && (k in onto.value.pairs <==> k in c || k in pairs)
            && (k in pairs ==> onto.value.pairs[k] == pairs[k])
            && (k in c && k !in pairs ==> onto.value.pairs[k] == c[k])
    ensures var onto := Merged(Some(Map(c)), Arr(keys));
            && onto.Some? && onto.value.Map?
            && (k in onto.value.pairs <==> k in c || k in keys)
            && (k in keys ==> onto.value.pairs[k] == "")
            && (k in c && k !in keys ==> onto.value.pairs[k] == c[k])
    ensures Merged(Some(Str(s)), Arr(keys)) == Some(Arr([s] + keys))
    ensures Merged(None, Map(pairs)) == Some(Map(pairs)) && Merged(None, Arr(keys)) == Some(Arr(keys))
  {
    WithKeysAt(c, keys, k);
  }

  lemma ArraysInOrder(a: seq<string>, b: seq<string>)
    ensures var onto := Merged(Some(Arr(a)), Arr(b));
            && onto.Some? && onto.value.Arr? && |onto.value.items| == |a| + |b|
            && (forall i :: 0 <= i < |a| ==> onto.value.items[i] == a[i])
            && (forall i :: 0 <= i < |b| ==> onto.value.items[|a| + i] == b[i])
  {
  }
}
