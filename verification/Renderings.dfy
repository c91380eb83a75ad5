/** Facts about every expansion: which variables it depends on, that it holds no
    braces, and that the iteration order of a map only permutes its pairs. */
module Renderings {
  import opened Text
  import opened Escaping
  import opened Templates
  import opened Parser
  import opened Expansion

  // ---------- the variables ----------

  function TermNames(terms: seq<Term>): seq<Text> {
    if terms == [] then [] else [terms[0].name] + TermNames(terms[1..])
  }

  function NamesOf(parts: seq<Part>): seq<Text> {
    if parts == [] then []
    else (if parts[0].raw != [] then [] else TermNames(parts[0].terms)) + NamesOf(parts[1..])
  }

  method Names(parts: seq<Part>) returns (names: seq<Text>)
    ensures names == NamesOf(parts)
  {
    names := [];
    assert parts[0..] == parts;
    for k := 0 to |parts|
      invariant NamesOf(parts) == names + NamesOf(parts[k..])
    {
      var p := parts[k];
      assert parts[k..][1..] == parts[k + 1..];
      if |p.raw| > 0 || |p.terms| == 0 {
        continue;
      }
      ghost var before := names;
      assert p.terms[0..] == p.terms;
      for i := 0 to |p.terms|
        invariant before + TermNames(p.terms) == names + TermNames(p.terms[i..])
      {
        assert p.terms[i..][1..] == p.terms[i + 1..];
        names := names + [p.terms[i].name];
      }
      Associate(before, TermNames(p.terms), NamesOf(parts[k + 1..]));
    }
  }

  lemma {:induction false} TermNamesAt(terms: seq<Term>)
    ensures |TermNames(terms)| == |terms|
    ensures forall i :: 0 <= i < |terms| ==> TermNames(terms)[i] == terms[i].name
  {
    if terms != [] {
      TermNamesAt(terms[1..]);
    }
  }

  lemma {:induction false} NamesAppend(a: seq<Part>, b: seq<Part>)
    ensures NamesOf(a + b) == NamesOf(a) + NamesOf(b)
  {
    if a == [] {
      assert a + b == b;
    } else {
      NamesAppend(a[1..], b);
      assert (a + b)[1..] == a[1..] + b;
      Associate(if a[0].raw != [] then [] else TermNames(a[0].terms), NamesOf(a[1..]), NamesOf(b));
    }
  }

  /** Names come in template order, and within an expression in the order of its terms. */
  lemma NamesInOrder(before: seq<Part>, p: Part, after: seq<Part>)
    ensures var own := NamesOf([p]);
            && NamesOf(before + [p] + after) == NamesOf(before) + own + NamesOf(after)
            && (p.raw != [] ==> own == [])
            && (p.raw == [] ==> |own| == |p.terms| && forall i :: 0 <= i < |own| ==> own[i] == p.terms[i].name)
  {
    NamesAppend(before + [p], after);
    NamesAppend(before, [p]);
    assert [p][1..] == [];
    assert NamesOf([p]) == (if p.raw != [] then [] else TermNames(p.terms)) + [];
    TermNamesAt(p.terms);
  }

  predicate AgreeOn(a: Values, b: Values, names: seq<Text>) {
    forall i :: 0 <= i < |names| ==>
      && (names[i] in a <==> names[i] in b)
      && (names[i] in a ==> a[names[i]] == b[names[i]])
  }

  lemma {:induction false} TermsDependOnNames(p: Part, terms: seq<Term>, a: Values, b: Values)
    requires AgreeOn(a, b, TermNames(terms))
    ensures PresentTexts(p, terms, a) == PresentTexts(p, terms, b)
    ensures Missing(terms, a) == Missing(terms, b)
    ensures forall i :: 0 <= i < |terms| ==> Truncates(terms[i], a) == Truncates(terms[i], b)
  {
    if terms != [] {
      var names := TermNames(terms);
      assert names[0] == terms[0].name && names[1..] == TermNames(terms[1..]);
      TermsDependOnNames(p, terms[1..], a, b);
      assert forall i :: 1 <= i < |terms| ==> terms[i] == terms[1..][i - 1];
    }
  }

  lemma {:induction false} PartsDependOnNames(parts: seq<Part>, a: Values, b: Values)
    requires AgreeOn(a, b, NamesOf(parts))
    ensures PartsText(parts, a) == PartsText(parts, b)
    ensures Fails(parts, a) == Fails(parts, b)
  {
    if parts != [] {
      var p, names := parts[0], NamesOf(parts);
      var own := if p.raw != [] then [] else TermNames(p.terms);
      assert names[..|own|] == own && names[|own|..] == NamesOf(parts[1..]);
      assert forall i :: 0 <= i < |own| ==> own[i] == names[i];
      if p.raw == [] { TermsDependOnNames(p, p.terms, a, b); }
      PartsDependOnNames(parts[1..], a, b);
      FailsStep(parts, a);
      FailsStep(parts, b);
    }
  }

  lemma FailsStep(parts: seq<Part>, values: Values)
    requires parts != []
    ensures Fails(parts, values) <==> PartFails(parts[0], values) || Fails(parts[1..], values)
  {
    assert forall i :: 1 <= i < |parts| ==> parts[i] == parts[1..][i - 1];
    if Fails(parts[1..], values) {
      var i :| 0 <= i < |parts[1..]| && PartFails(parts[1..][i], values);
      assert PartFails(parts[i + 1], values);
    }
  }

  lemma OnePart(p: Part, values: Values)
    ensures PartsText([p], values) == PartText(p, values)
    ensures Fails([p], values) <==> PartFails(p, values)
  {
    assert [p][1..] == [];
    assert PartText(p, values) + [] == PartText(p, values);
    FailsStep([p], values);
  }

  /** Two value maps that agree on the listed names give one result, or one error. */
  lemma ExpansionDependsOnNames(parts: seq<Part>, a: Values, b: Values)
    requires AgreeOn(a, b, NamesOf(parts))
    ensures Expanded(parts, a) == Expanded(parts, b)
  {
    PartsDependOnNames(parts, a, b);
  }

  const X: Text := [0x78]

  lemma {:induction false} TermsNoticeName(p: Part, terms: seq<Term>, n: Text)
    ensures PresentTexts(p, terms, map[]) == []
    ensures n in TermNames(terms) ==> exists t :: t in PresentTexts(p, terms, map[n := Str(X)]) && t != []
  {
    if terms != [] {
      TermsNoticeName(p, terms[1..], n);
      var names := TermNames(terms);
      assert names[0] == terms[0].name && names[1..] == TermNames(terms[1..]);
      if n == terms[0].name {
        EscapeLength(X, p.allowReserved);
        var text := ValueText(p, terms[0], Str(X));
        assert text != [];
        assert text in PresentTexts(p, terms, map[n := Str(X)]);
      } else if n in names {
        var t :| t in PresentTexts(p, terms[1..], map[n := Str(X)]) && t != [];
        assert t in PresentTexts(p, terms, map[n := Str(X)]);
      }
    }
  }

  lemma {:induction false} PartsNoticeName(parts: seq<Part>, n: Text)
    ensures |PartsText(parts, map[])| <= |PartsText(parts, map[n := Str(X)])|
    ensures n in NamesOf(parts) ==> |PartsText(parts, map[])| < |PartsText(parts, map[n := Str(X)])|
  {
    if parts != [] {
      var p, v := parts[0], map[n := Str(X)];
      PartsNoticeName(parts[1..], n);
      if p.raw == [] {
        TermsNoticeName(p, p.terms, n);
        DropEmptyShape(PresentTexts(p, p.terms, v), p.sep);
        assert PartText(p, map[]) == [];
      }
    }
  }

  /** Names lists exactly the variables that can change an expansion. */
  lemma NamesAreExact(parts: seq<Part>, n: Text)
    ensures n in NamesOf(parts) <==>
            exists a: Values, b: Values :: a - {n} == b - {n} && Expanded(parts, a) != Expanded(parts, b)
  {
    if n in NamesOf(parts) {
      PartsNoticeName(parts, n);
      var a: Values, b: Values := map[], map[n := Str(X)];
      assert a - {n} == b - {n};
      assert Expanded(parts, a) != Expanded(parts, b);
    } else {
      forall a: Values, b: Values | a - {n} == b - {n}
        ensures Expanded(parts, a) == Expanded(parts, b)
      {
        var names := NamesOf(parts);
        forall i | 0 <= i < |names|
          ensures (names[i] in a <==> names[i] in b) && (names[i] in a ==> a[names[i]] == b[names[i]])
        {
          assert names[i] in names && names[i] != n;
          assert names[i] in a <==> names[i] in a - {n};
          assert names[i] in b <==> names[i] in b - {n};
        }
        ExpansionDependsOnNames(parts, a, b);
      }
    }
  }

  // ---------- the one error ----------

  /** Expansion fails exactly when a prefix stands on a map, whatever the map holds. */
  lemma FailsOnPrefixedMaps(parts: seq<Part>, values: Values)
    ensures Expanded(parts, values) == Err(TruncatedMap) <==>
            exists i, j :: 0 <= i < |parts| && parts[i].raw == [] && 0 <= j < |parts[i].terms|
                           && parts[i].terms[j].name in values && values[parts[i].terms[j].name].Map?
                           && parts[i].terms[j].truncate > 0
    ensures Expanded(parts, values).Err? ==> Expanded(parts, values) == Err(TruncatedMap)
  {
    if Fails(parts, values) {
      var i :| 0 <= i < |parts| && PartFails(parts[i], values);
      var j :| 0 <= j < |parts[i].terms| && Truncates(parts[i].terms[j], values);
    }
    if i, j :| 0 <= i < |parts| && parts[i].raw == [] && 0 <= j < |parts[i].terms|
               && parts[i].terms[j].name in values && values[parts[i].terms[j].name].Map?
               && parts[i].terms[j].truncate > 0 {
      assert Truncates(parts[i].terms[j], values);
      assert PartFails(parts[i], values);
    }
  }

  /** So failing depends on the kinds of the values, not on what they hold. */
  lemma FailsByKind(parts: seq<Part>, a: Values, b: Values)
    requires a.Keys == b.Keys && forall k :: k in a ==> (a[k].Map? <==> b[k].Map?)
    ensures Expanded(parts, a).Err? <==> Expanded(parts, b).Err?
  {
    forall t: Term
      ensures Truncates(t, a) <==> Truncates(t, b)
    {
      assert t.name in a.Keys <==> t.name in b.Keys;
    }
    forall p: Part
      ensures PartFails(p, a) <==> PartFails(p, b)
    {
      hide Truncates;
    }
    hide PartFails;
  }

  /** Without prefixes nothing fails. */
  lemma UnprefixedNeverFails(parts: seq<Part>, values: Values)
    requires forall i, j :: 0 <= i < |parts| && 0 <= j < |parts[i].terms| ==> parts[i].terms[j].truncate <= 0
    ensures Expanded(parts, values).Ok?
  {
    FailsOnPrefixedMaps(parts, values);
  }

  // ---------- no braces ----------

  lemma JoinBraceFree(texts: seq<Text>, sep: Text)
    requires BraceFree(sep) && forall t :: t in texts ==> BraceFree(t)
    ensures BraceFree(Join(texts, sep))
  {
    forall c | c in Join(texts, sep)
      ensures c != LBRACE && c != RBRACE
    {
      JoinElements(texts, sep, c);
    }
  }

  predicate PlainPart(p: Part) {
    BraceFree(p.first) && BraceFree(p.sep) && BraceFree(p.ifemp)
  }

  lemma StringTextBraceFree(p: Part, term: Term, s: Text)
    requires PlainPart(p) && BraceFree(term.name)
    ensures BraceFree(StringText(p, term, s)) && BraceFree(ItemText(p, term, s))
    ensures BraceFree(Heading(p, term))
  {
    EscapeLength(Truncated(s, term.truncate), p.allowReserved);
  }

  lemma {:induction false} ItemTextsBraceFree(p: Part, term: Term, items: seq<Text>)
    requires PlainPart(p) && BraceFree(term.name)
    ensures forall t :: t in ItemTexts(p, term, items) ==> BraceFree(t)
  {
    if items != [] {
      StringTextBraceFree(p, term, items[0]);
      ItemTextsBraceFree(p, term, items[1..]);
    }
  }

  lemma {:induction false} PairTextsBraceFree(p: Part, term: Term, pairs: seq<(Text, Text)>)
    ensures forall t :: t in PairTexts(p, term, pairs) ==> BraceFree(t)
  {
    if pairs != [] {
      EscapeLength(pairs[0].0, p.allowReserved);
      EscapeLength(pairs[0].1, p.allowReserved);
      PairTextsBraceFree(p, term, pairs[1..]);
    }
  }

  lemma ValueTextBraceFree(p: Part, term: Term, v: Value)
    requires PlainPart(p) && BraceFree(term.name)
    ensures BraceFree(ValueText(p, term, v))
  {
    hide StringText, Heading, ItemText, Join, ItemTexts, PairTexts;
    StringTextBraceFree(p, term, []);
    match v {
      case Str(s) =>
        StringTextBraceFree(p, term, s);
      case List(items) =>
        ItemTextsBraceFree(p, term, items);
        JoinBraceFree(ItemTexts(p, term, items), Separator(p, term));
      case Map(pairs) =>
        PairTextsBraceFree(p, term, pairs);
        JoinBraceFree(PairTexts(p, term, pairs), Separator(p, term));
    }
  }

  lemma {:induction false} PresentTextsBraceFree(p: Part, terms: seq<Term>, values: Values)
    requires PlainPart(p) && forall t :: t in terms ==> BraceFree(t.name)
    ensures forall t :: t in PresentTexts(p, terms, values) ==> BraceFree(t)
    ensures forall t :: t in DropEmpty(PresentTexts(p, terms, values)) ==> BraceFree(t)
  {
    if terms != [] {
      PresentTextsBraceFree(p, terms[1..], values);
      if terms[0].name in values {
        ValueTextBraceFree(p, terms[0], values[terms[0].name]);
      }
    }
  }

  lemma PartTextBraceFree(p: Part, values: Values)
    requires WellFormedPart(p)
    ensures BraceFree(PartText(p, values))
  {
    if p.raw == [] {
      forall t | t in p.terms ensures BraceFree(t.name) { NameContents(t.name); }
      PresentTextsBraceFree(p, p.terms, values);
      JoinBraceFree(DropEmpty(PresentTexts(p, p.terms, values)), p.sep);
    }
  }

  /** No expansion of a parsed template holds a brace. */
  lemma {:induction false} ExpansionBraceFree(parts: seq<Part>, values: Values)
    requires WellFormed(parts)
    ensures BraceFree(PartsText(parts, values))
  {
    if parts != [] {
      PartTextBraceFree(parts[0], values);
      ExpansionBraceFree(parts[1..], values);
    }
  }

  /** An expansion is a template without variables: it parses as one literal, and
      expanding it again, with whatever values, gives it back. */
  lemma ExpansionIsFinal(parts: seq<Part>, values: Values, others: Values)
    requires WellFormed(parts) && Expanded(parts, values).Ok?
    ensures var text := Expanded(parts, values).value;
            && Parsed(text) == Ok([Literal(text)])
            && Expanded([Literal(text)], others) == Ok(text)
            && NamesOf([Literal(text)]) == []
  {
    var text := PartsText(parts, values);
    ExpansionBraceFree(parts, values);
    SplitWithout(text, LBRACE);
    assert [text][1..] == [];
    var literal := [Literal(text)];
    assert literal + [] == literal && literal[1..] == [];
    assert PartsText(literal, others) == PartText(Literal(text), others) + PartsText([], others);
    assert PartText(Literal(text), others) == text && text + [] == text;
    assert !Fails(literal, others);
  }

  // ---------- prefixes ----------

  /** A string cut to n bytes contributes at most 3n bytes behind its name. */
  lemma TruncatedLength(p: Part, term: Term, s: Text)
    requires term.truncate > 0
    ensures |StringText(p, term, s)| <=
            |NameText(p, term.name, Truncated(s, term.truncate) == [])| + 3 * term.truncate
  {
    EscapeLength(Truncated(s, term.truncate), p.allowReserved);
  }

  // ---------- the order of a map ----------

  function TotalLength(texts: seq<Text>): nat {
    if texts == [] then 0 else |texts[0]| + TotalLength(texts[1..])
  }

  lemma {:induction false} JoinLength(texts: seq<Text>, sep: Text)
    requires texts != []
    ensures |Join(texts, sep)| == TotalLength(texts) + |sep| * (|texts| - 1)
  {
    if |texts| > 1 {
      JoinLength(texts[1..], sep);
    } else {
      assert texts[1..] == [];
    }
  }

  lemma {:induction false} TotalLengthAppend(a: seq<Text>, b: seq<Text>)
    ensures TotalLength(a + b) == TotalLength(a) + TotalLength(b)
  {
    if a == [] {
      assert a + b == b;
    } else {
      TotalLengthAppend(a[1..], b);
      assert (a + b)[1..] == a[1..] + b;
    }
  }

  lemma {:induction false} PairTextsConcat(p: Part, term: Term, a: seq<(Text, Text)>, b: seq<(Text, Text)>)
    ensures PairTexts(p, term, a + b) == PairTexts(p, term, a) + PairTexts(p, term, b)
  {
    hide PairText;
    if a == [] {
      assert a + b == b;
    } else {
      PairTextsConcat(p, term, a[1..], b);
      assert (a + b)[1..] == a[1..] + b && (a + b)[0] == a[0];
    }
  }

  lemma PairTextsWithout(
    p: Part, term: Term, front: seq<(Text, Text)>, x: (Text, Text), back: seq<(Text, Text)>)
    ensures var all, rest, text := PairTexts(p, term, front + [x] + back),
                                   PairTexts(p, term, front + back), PairText(p, term, x);
            && multiset(all) == multiset{text} + multiset(rest)
            && TotalLength(all) == |text| + TotalLength(rest)
  {
    PairTextsConcat(p, term, front, back);
    PairTextsConcat(p, term, front + [x], back);
    PairTextsAppend(p, term, front, x);
    var f, k, text := PairTexts(p, term, front), PairTexts(p, term, back), PairText(p, term, x);
    hide PairTexts, PairText;
    TotalLengthAppend(f, k);
    TotalLengthAppend(f + [text], k);
    TotalLengthAppend(f, [text]);
    assert [text][1..] == [];
    assert TotalLength([text]) == |text|;
    assert multiset(f + [text] + k) == multiset(f) + multiset{text} + multiset(k);
  }

  lemma {:induction false} PairTextsPermute(
    p: Part, term: Term, a: seq<(Text, Text)>, b: seq<(Text, Text)>)
    requires multiset(a) == multiset(b)
    ensures multiset(PairTexts(p, term, a)) == multiset(PairTexts(p, term, b))
    ensures TotalLength(PairTexts(p, term, a)) == TotalLength(PairTexts(p, term, b))
    decreases |a|
  {
    hide *;
    if a == [] {
      assert |b| == |multiset(b)| == 0;
    } else {
      var front, back := RemoveFirst(a, b);
      assert a == [] + [a[0]] + a[1..] && [] + a[1..] == a[1..];
      PairTextsPermute(p, term, a[1..], front + back);
      PairTextsWithout(p, term, [], a[0], a[1..]);
      PairTextsWithout(p, term, front, a[0], back);
    }
  }

  lemma RemoveFirst<T>(a: seq<T>, b: seq<T>) returns (front: seq<T>, back: seq<T>)
    requires a != [] && multiset(a) == multiset(b)
    ensures b == front + [a[0]] + back
    ensures multiset(a[1..]) == multiset(front + back)
  {
    assert a[0] in multiset(b);
    var i :| 0 <= i < |b| && b[i] == a[0];
    front, back := b[..i], b[i + 1..];
    assert b == front + [a[0]] + back;
    assert a == [a[0]] + a[1..];
    assert multiset(b) == multiset(front + back) + multiset{a[0]};
    assert multiset(a) == multiset(a[1..]) + multiset{a[0]};
    assert multiset(a[1..]) == multiset(a) - multiset{a[0]};
  }

  /** Whatever order a map is visited in, n pairs are rendered with n - 1 separators
      between them: the same pair texts in another order, and the same length. */
  lemma MapOrder(p: Part, term: Term, a: seq<(Text, Text)>, b: seq<(Text, Text)>)
    requires multiset(a) == multiset(b)
    ensures multiset(PairTexts(p, term, a)) == multiset(PairTexts(p, term, b))
    ensures |ValueText(p, term, Map(a))| == |ValueText(p, term, Map(b))|
    ensures a != [] ==>
              |ValueText(p, term, Map(a))| ==
              |Heading(p, term)| + TotalLength(PairTexts(p, term, a)) + |Separator(p, term)| * (|a| - 1)
  {
    PairTextsPermute(p, term, a, b);
    assert |a| == |multiset(a)| == |b|;
    if a != [] {
      MapText(p, term, a);
      MapText(p, term, b);
      hide *;
      JoinLength(PairTexts(p, term, a), Separator(p, term));
      JoinLength(PairTexts(p, term, b), Separator(p, term));
    }
  }

  // ---------- what a prefix leaves ----------

  function FirstBytes(s: Text, n: int): Text {
    if 0 < n < |s| then s[..n] else s
  }

  function AllFirstBytes(items: seq<Text>, n: int): (r: seq<Text>)
    ensures |r| == |items| && forall i :: 0 <= i < |r| ==> r[i] == FirstBytes(items[i], n)
  {
    if items == [] then [] else [FirstBytes(items[0], n)] + AllFirstBytes(items[1..], n)
  }

  lemma {:induction false} ItemsCut(p: Part, t: Term, items: seq<Text>)
    ensures ItemTexts(p, t, items) == ItemTexts(p, t.(truncate := 0), AllFirstBytes(items, t.truncate))
  {
    if items != [] {
      ItemsCut(p, t, items[1..]);
      var cut := AllFirstBytes(items, t.truncate);
      assert cut[1..] == AllFirstBytes(items[1..], t.truncate);
      assert Truncated(FirstBytes(items[0], t.truncate), 0) == Truncated(items[0], t.truncate);
    }
  }

  /** A value under a prefix renders like its first bytes without one; a list is cut in
      every element. A length of zero or less cuts nothing. */
  lemma PrefixKeepsFirstBytes(p: Part, t: Term, s: Text, items: seq<Text>)
    ensures ValueText(p, t, Str(s)) == ValueText(p, t.(truncate := 0), Str(FirstBytes(s, t.truncate)))
    ensures ValueText(p, t, List(items)) ==
            ValueText(p, t.(truncate := 0), List(AllFirstBytes(items, t.truncate)))
  {
    assert Truncated(FirstBytes(s, t.truncate), 0) == Truncated(s, t.truncate);
    ItemsCut(p, t, items);
  }
}
