/** Concrete templates on which the engine departs from RFC 6570, or on which partial
    expansion does not complete: each condition of the general theorems is needed. */
module Deviations {
  import opened Text
  import opened Escaping
  import opened Templates
  import opened Parser
  import Grammar
  import opened Expansion
  import opened Renderings
  import opened PartialExpansion
  import opened Reparsing
  import opened Completion
  import opened Rfc6570

  const A: Text := [0x61]
  const B: Text := [0x62]
  const C: Text := [0x63]
  const TERM_A := Term(A, false, 0)
  const TERM_B := Term(B, false, 0)
  const TERM_C := Term(C, false, 0)

  lemma EscapedOne(c: byte, allowReserved: bool)
    ensures Escaped([c], allowReserved) == EscapedByte(c, allowReserved)
    ensures Encoded([c], allowReserved) == EscapedByte(c, allowReserved)
  {
    assert [c][1..] == [];
    assert EscapedByte(c, allowReserved) + [] == EscapedByte(c, allowReserved);
  }

  lemma Distinct()
    ensures A != B && B != C && A != C
  {
    assert A[0] != B[0] && B[0] != C[0] && A[0] != C[0];
  }

  /** One step of the functions that walk a term list. */
  lemma Step(p: Part, t: Term, rest: seq<Term>, values: Values)
    ensures PresentTexts(p, [t] + rest, values) ==
            (if t.name in values then [ValueText(p, t, values[t.name])] else []) + PresentTexts(p, rest, values)
    ensures DefinedTexts(p, [t] + rest, values) ==
            (if t.name in values && Defined(values[t.name]) then [ValueText(p, t, values[t.name])] else [])
            + DefinedTexts(p, rest, values)
    ensures Missing([t] + rest, values) == (if t.name in values then [] else [t]) + Missing(rest, values)
  {
    assert ([t] + rest)[1..] == rest;
  }

  lemma ReferenceStep(row: Row, t: Term, rest: seq<Term>, values: Values)
    ensures ReferenceTexts(row, [t] + rest, values) ==
            (if t.name in values && Defined(values[t.name]) then [ReferenceValue(row, t, values[t.name])] else [])
            + ReferenceTexts(row, rest, values)
  {
    assert ([t] + rest)[1..] == rest;
  }

  lemma TwoTexts(first: Text, sep: Text, a: Text, b: Text)
    ensures DropEmpty([a, b]) == if a != [] then [a, b] else if b != [] then [b] else []
    ensures Join([a, b], sep) == a + sep + b
  {
    assert [a, b][1..] == [b] && [b][1..] == [];
    assert DropEmpty([b]) == if b != [] then [b] else [];
  }

  lemma PlainString(p: Part, t: Term, s: Text)
    requires !p.named && t.truncate <= 0
    ensures ValueText(p, t, Str(s)) == Escaped(s, p.allowReserved)
  {
    assert [] + Escaped(s, p.allowReserved) == Escaped(s, p.allowReserved);
  }

  lemma OneTermExpression(op: Operator, n: int)
    requires Int64(n)
    ensures var t := Term(A, false, n);
            && WellFormedExpression(Expression(op, [t]))
            && Expression(op, [t]).terms == [t] && !StartsWithDot([t])
  {
    assert A[1..] == [];
    assert ValidName(A);
    assert PartOperator(Expression(op, [Term(A, false, n)])) == op;
  }

  lemma TwoPresent(p: Part, t: Term, u: Term, values: Values)
    requires p.raw == [] && p.terms == [t, u] && t.name in values && u.name in values
    ensures var x, y := ValueText(p, t, values[t.name]), ValueText(p, u, values[u.name]);
            PartText(p, values) ==
            if x != [] then p.first + (x + p.sep + y) else if y != [] then p.first + y else []
  {
    var x, y := ValueText(p, t, values[t.name]), ValueText(p, u, values[u.name]);
    hide ValueText;
    Step(p, t, [u], values);
    Step(p, u, [], values);
    assert [t] + [u] == [t, u] && [u] + [] == [u];
    assert PresentTexts(p, [t, u], values) == [x, y];
    TwoTexts([], p.sep, x, y);
    assert [y][1..] == [];
  }

  lemma TwoOfReference(row: Row, t: Term, u: Term, values: Values)
    requires t.name in values && u.name in values
    ensures ReferenceTexts(row, [t, u], values) ==
            (if Defined(values[t.name]) then [ReferenceValue(row, t, values[t.name])] else [])
            + (if Defined(values[u.name]) then [ReferenceValue(row, u, values[u.name])] else [])
  {
    hide ReferenceValue, Defined;
    ReferenceStep(row, t, [u], values);
    ReferenceStep(row, u, [], values);
    assert [t] + [u] == [t, u] && [u] + [] == [u];
    assert ReferenceTexts(row, [], values) == [];
  }

  lemma ReferenceString(t: Term, s: Text)
    requires t.truncate <= 0
    ensures ReferenceValue(AppendixA(Simple), t, Str(s)) == Encoded(s, false)
  {
    assert [] + Encoded(s, false) == Encoded(s, false);
  }

  /** {a,b} with a empty: the engine drops the empty string, the RFC writes ",x". */
  lemma LeadingEmptyString()
    ensures var p, values: Values := Expression(Simple, [TERM_A, TERM_B]), map[A := Str([]), B := Str(X)];
            && PartText(p, values) == X
            && ReferenceExpression(Simple, p.terms, values) == [COMMA] + X
  {
    var p, values: Values := Expression(Simple, [TERM_A, TERM_B]), map[A := Str([]), B := Str(X)];
    Distinct();
    EscapedOne(0x78, false);
    PlainString(p, TERM_A, []);
    PlainString(p, TERM_B, X);
    ReferenceString(TERM_A, []);
    ReferenceString(TERM_B, X);
    hide PartText, ValueText, ReferenceValue, ReferenceTexts, PresentTexts;
    TwoPresent(p, TERM_A, TERM_B, values);
    TwoOfReference(AppendixA(Simple), TERM_A, TERM_B, values);
    TwoTexts([], [COMMA], [], X);
    assert [[]] + [X] == [[], X];
  }

  /** {a,b} with b an empty list: the engine writes "x,", the RFC "x". */
  lemma TrailingEmptyList()
    ensures var p, values: Values := Expression(Simple, [TERM_A, TERM_B]), map[A := Str(X), B := List([])];
            && PartText(p, values) == X + [COMMA]
            && ReferenceExpression(Simple, p.terms, values) == X
  {
    var p, values: Values := Expression(Simple, [TERM_A, TERM_B]), map[A := Str(X), B := List([])];
    Distinct();
    EscapedOne(0x78, false);
    PlainString(p, TERM_A, X);
    ReferenceString(TERM_A, X);
    assert ValueText(p, TERM_B, List([])) == [];
    hide PartText, ValueText, ReferenceValue, ReferenceTexts, PresentTexts;
    TwoPresent(p, TERM_A, TERM_B, values);
    TwoOfReference(AppendixA(Simple), TERM_A, TERM_B, values);
    assert [X] + [] == [X] && [X][1..] == [];
  }

  /** {+a} with "%41": the engine encodes the percent sign, the RFC passes the triplet. */
  lemma EncodedTriplet()
    ensures var p, value := Expression(Plus, [TERM_A]), Str([PERCENT, 0x34, 0x31]);
            && ValueText(p, TERM_A, value) == [PERCENT, 0x32, 0x35, 0x34, 0x31]
            && ReferenceValue(AppendixA(Plus), TERM_A, value) == [PERCENT, 0x34, 0x31]
  {
    var s: Text := [PERCENT, 0x34, 0x31];
    EscapedTriplet(s, true);
    assert s[3..] == [] && s[..3] == s;
    assert TripletAt(s, 0);
    assert Encoded(s, true) == s + Encoded([], true);
  }

  /** {a:3} with an empty map: the code fails before it looks at the map, the RFC takes the
      variable as undefined. Nothing else about the template deviates. */
  lemma PrefixedEmptyMap()
    ensures var p, values: Values := Expression(Simple, [Term(A, false, 3)]), map[A := Map([])];
            && Expanded([p], values) == Err(TruncatedMap)
            && ReferenceText([p], values) == []
            && Applicable(p, values) && PartSeparatorsAgree(p, values)
            && PartConforms(p, values) && PartCutsFit(p, values)
  {
    var t, values: Values := Term(A, false, 3), map[A := Map([])];
    var p := Expression(Simple, [t]);
    assert p.terms == [t] && [t][1..] == [] && [p][1..] == [];
    assert Truncates(p.terms[0], values);
    OnePart(p, values);
    assert ReferenceTexts(AppendixA(Simple), [t], values) == ReferenceTexts(AppendixA(Simple), [], values) == [];
    assert ReferencePart(p, values) == [] && ReferenceText([], values) == [];
    assert SeparatorsAgree(p, [], values, 0) && SeparatorsAgree(p, [t], values, 0);
  }

  const TWO_BYTES: Text := [0xC3, 0xA9]

  /** {a:1} with a character of two bytes: the engine keeps half of it. */
  lemma PrefixCutsBytes()
    ensures var t, p := Term(A, false, 1), Expression(Simple, [Term(A, false, 1)]);
            && ValueText(p, t, Str(TWO_BYTES)) == Triplet(0xC3)
            && ReferenceValue(AppendixA(Simple), t, Str(TWO_BYTES)) == Triplet(0xC3) + Triplet(0xA9)
  {
    var t, p := Term(A, false, 1), Expression(Simple, [Term(A, false, 1)]);
    assert TWO_BYTES[..1] == [0xC3] && TWO_BYTES[1..] == [0xA9] && [0xA9 as byte][1..] == [];
    assert Truncated(TWO_BYTES, 1) == [0xC3] == Truncated([0xC3], 0);
    EscapedOne(0xC3, false);
    EscapedOne(0xA9, false);
    assert Prefix(TWO_BYTES, 1) == TWO_BYTES by {
      assert Characters([], 0) == [] && Characters([0xA9], 0) == [0xA9] + Characters([], 0);
      assert Characters(TWO_BYTES, 1) == [0xC3] + Characters([0xA9], 0);
    }
    assert Encoded(TWO_BYTES, false) == EscapedByte(0xC3, false) + Encoded([0xA9], false);
    hide Escaped, Encoded, Triplet, Truncated, Prefix;
    assert StringText(p, t, TWO_BYTES) == [] + Escaped([0xC3], false);
  }

  /** {+a:5} with two such characters and "%25": the two bytes that are cut too much are
      the two that the triplet gains, so the prefix may not be left out of the condition. */
  lemma CutRepaysTriplet()
    ensures var t, s := Term(A, false, 5), TWO_BYTES + TWO_BYTES + [PERCENT, 0x32, 0x35];
            && ValueText(Expression(Plus, [t]), t, Str(s)) == ReferenceValue(AppendixA(Plus), t, Str(s))
            && !CutsAgree(s, 5) && Prefix(s, 5) == s
  {
    var t, s := Term(A, false, 5), TWO_BYTES + TWO_BYTES + [PERCENT, 0x32, 0x35];
    assert s == [0xC3, 0xA9, 0xC3, 0xA9, PERCENT, 0x32, 0x35];
    assert s[1..] == [0xA9, 0xC3, 0xA9, PERCENT, 0x32, 0x35] && s[1..][1..] == [0xC3, 0xA9, PERCENT, 0x32, 0x35];
    assert s[2..][1..] == [0xA9, PERCENT, 0x32, 0x35] && s[3..][1..] == [PERCENT, 0x32, 0x35];
    assert s[1..][1..] == s[2..] && s[2..][1..] == s[3..] && s[3..][1..] == s[4..];
    assert EndsInEscapes(s[4..]) by {
      assert TripletAt(s[4..], 0);
    }
    assert EndsInEscapes(s[3..]) && EndsInEscapes(s[2..]) && EndsInEscapes(s[1..]) && EndsInEscapes(s);
    assert Continuation(s[1]);
    FewCharacters(s);
    ValueAgrees(Plus, Expression(Plus, [t]), t, Str(s));
  }

  lemma FewCharacters(s: Text)
    requires s == [0xC3, 0xA9, 0xC3, 0xA9, PERCENT, 0x32, 0x35]
    ensures Prefix(s, 5) == s
  {
    var r := s[4..];
    assert r == [PERCENT, 0x32, 0x35];
    CharactersAgree(r, 3);
    assert Characters(r, 3) == r;
    assert s[1..][1..] == s[2..] && s[2..][1..] == s[3..] && s[3..][1..] == r;
    hide CutsAgree;
    assert Characters(s[3..], 3) == [0xA9] + Characters(r, 3);
    assert Characters(s[2..], 4) == [0xC3] + Characters(s[3..], 3);
    assert Characters(s[1..], 4) == [0xA9] + Characters(s[2..], 4);
    assert Characters(s, 5) == [0xC3] + Characters(s[1..], 4);
  }

  /** {;a*} with the pair ("x", ""): the engine writes "x=", the RFC "x". */
  lemma EmptyPairUnderSemicolon()
    ensures var term, value := TERM_A.(explode := true), Map([(X, [])]);
            && ValueText(Expression(Semi, [term]), term, value) == X + [EQUALS]
            && ReferenceValue(AppendixA(Semi), term, value) == X
  {
    EscapedOne(0x78, false);
    EscapedOne(0x78, true);
    var term := TERM_A.(explode := true);
    var p, row := Expression(Semi, [term]), AppendixA(Semi);
    var pairs: seq<(Text, Text)> := [(X, [])];
    assert pairs[1..] == [];
    assert PairText(p, term, (X, [])) == X + [EQUALS] + [] == X + [EQUALS];
    assert PairTexts(p, term, pairs) == [PairText(p, term, pairs[0])] + PairTexts(p, term, []);
    assert PairTexts(p, term, pairs) == [X + [EQUALS]];
    assert MemberPair(row, term, (X, [])) == X + [];
    assert MemberPairs(row, term, pairs) == [MemberPair(row, term, pairs[0])] + MemberPairs(row, term, []);
    assert MemberPairs(row, term, pairs) == [X];
  }

  lemma ThreeTexts(p: Part, t: Term, u: Term, v: Term, values: Values)
    requires t.name in values && Defined(values[t.name])
    requires u.name in values && Defined(values[u.name])
    requires v.name in values && !Defined(values[v.name])
    ensures var x, y := ValueText(p, t, values[t.name]), ValueText(p, u, values[u.name]);
            && PresentTexts(p, [t, u, v], values) == [x, y, ValueText(p, v, values[v.name])]
            && DefinedTexts(p, [t, u, v], values) == [x, y]
  {
    hide ValueText, Defined;
    Step(p, t, [u, v], values);
    Step(p, u, [v], values);
    Step(p, v, [], values);
    assert [t] + [u, v] == [t, u, v] && [u] + [v] == [u, v] && [v] + [] == [v];
    assert PresentTexts(p, [], values) == [] && DefinedTexts(p, [], values) == [];
  }

  lemma DotRenderings(p: Part, values: Values)
    requires p == Expression(Dot, [TERM_A, TERM_B, TERM_C])
    requires values == map[A := Str([]), B := Str([DOT]), C := List([])]
    ensures PresentTexts(p, p.terms, values) == [[], [DOT], []]
    ensures DefinedTexts(p, p.terms, values) == [[], [DOT]]
    ensures ValueText(p, TERM_A, Str([])) == []
  {
    Distinct();
    EscapedOne(DOT, false);
    PlainString(p, TERM_A, []);
    PlainString(p, TERM_B, [DOT]);
    assert ValueText(p, TERM_C, List([])) == [];
    hide ValueText, PresentTexts, DefinedTexts;
    ThreeTexts(p, TERM_A, TERM_B, TERM_C, values);
  }

  /** {.a,b,c} with "", "." and an empty list: the separator that the empty string loses
      is the one that the empty list writes too many. */
  lemma CancellingDeviations()
    ensures var p := Expression(Dot, [TERM_A, TERM_B, TERM_C]);
            var values: Values := map[A := Str([]), B := Str([DOT]), C := List([])];
            && PartText(p, values) == RulePart(p, p.terms, values)
            && SeparatorsAgree(p, p.terms, values, 0)
            && PresentTexts(p, p.terms, values) == [[], [DOT], []]
            && DefinedTexts(p, p.terms, values) == [[], [DOT]]
  {
    var p := Expression(Dot, [TERM_A, TERM_B, TERM_C]);
    var values: Values := map[A := Str([]), B := Str([DOT]), C := List([])];
    DotRenderings(p, values);
    DotTexts();
    hide ValueText, PresentTexts, DefinedTexts, DropEmpty, Join, SeparatorsAgree;
    SeparatorRule(p, values);
  }

  lemma DotTexts()
    ensures var present, defined: seq<Text> := [[], [DOT], []], [[], [DOT]];
            DropEmpty(present) != [] && Join(DropEmpty(present), [DOT]) == Join(defined, [DOT])
  {
    var present: seq<Text> := [[], [DOT], []];
    assert present[1..] == [[DOT], []];
    TwoTexts([DOT], [DOT], [DOT], []);
    TwoTexts([DOT], [DOT], [], [DOT]);
  }

  lemma OneTerm(p: Part, t: Term, value: Value)
    requires p.raw == [] && p.terms == [t] && (t.truncate > 0 ==> !value.Map?)
    ensures var text := ValueText(p, t, value);
            PartText(p, map[t.name := value]) == if text == [] then [] else p.first + text
    ensures !PartFails(p, map[t.name := value])
  {
    var texts := [ValueText(p, t, value)];
    Step(p, t, [], map[t.name := value]);
    assert [t] == [t] + [] && texts[1..] == [];
    assert PresentTexts(p, [t], map[t.name := value]) == texts;
    assert DropEmpty(texts) == if texts[0] == [] then [] else texts by {
      assert DropEmpty([]) == [];
    }
  }

  /** A template of one expression that is not filled completely, read back from its text. */
  lemma OneParses(p: Part, values: Values)
    requires WellFormedExpression(p) && MissingTerms(p, values) != [] && !StartsWithDot(p.terms)
    requires |MissingTerms(p, values)| < |p.terms| ==> p.sep != [COMMA]
    ensures var missing := MissingTerms(p, values);
            Parsed(PartialTexts([p], values)) ==
            Ok([Literal(PartText(p, values)), Expression(ReprintOperator(p, missing), StrippedTerms(missing)),
                Literal([])])
  {
    var missing := MissingTerms(p, values);
    ReprintParses(p, values);
    PartialTextsWoven([p], values);
    var e, q := Reprint(p, missing), Expression(ReprintOperator(p, missing), StrippedTerms(missing));
    var text := PartText(p, values);
    PartTextBraceFree(p, values);
    hide WellFormedExpression, ParsedExpression, Reprint, ReprintOperator, PartText, MissingTerms;
    assert [p][1..] == [];
    var literals: seq<Text> := [text, []];
    assert Literals([p], values) == literals && Reprints([p], values) == [e];
    Grammar.ParsedWeave(literals, [e]);
    assert [e][1..] == [] && [q] + [] == [q];
    assert Grammar.ParsedAll([e]) == Ok([q]);
    assert literals[1..] == [[]];
    assert Grammar.Interleave(literals, [q]) == [Literal(text), q, Literal([])];
  }

  lemma UntouchedParses(p: Part, t: Term)
    requires WellFormedExpression(p) && p.terms == [t] && !StartsWithDot(p.terms)
    ensures Parsed(PartialTexts([p], map[])) ==
            Ok([Literal([]), Expression(ReprintOperator(p, [t]), [Stripped(t)]), Literal([])])
    ensures PartText(p, map[]) == []
  {
    Step(p, t, [], map[]);
    WithoutRaw(p, Simple, []);
    assert [t] == [t] + [] && Missing(p.terms, map[]) == [t] && PresentTexts(p, p.terms, map[]) == [];
    assert StrippedTerms([t]) == [Stripped(t)];
    assert PartText(p, map[]) == [] && MissingTerms(p, map[]) == [t];
    hide WellFormedExpression, Missing, PartText, PresentTexts, MissingTerms;
    OneParses(p, map[]);
  }

  lemma WithoutValues(p: Part)
    ensures !PartFails(p, map[])
  {
  }

  lemma WithoutRaw(p: Part, op: Operator, terms: seq<Term>)
    requires WellFormedExpression(p)
    ensures p.raw == [] && Expression(op, terms).raw == []
  {
  }

  lemma StrippedTerm(t: Term)
    ensures Stripped(t).name == t.name && Stripped(t).truncate == 0
  {
  }

  lemma Twice(parts: seq<Part>, a: Values, b: Values, reparsed: seq<Part>)
    requires !Fails(parts, a) && Parsed(PartialTexts(parts, a)) == Ok(reparsed)
    ensures TwiceThroughText(parts, a, b) == Expanded(reparsed, b)
  {
  }

  lemma ExpandedWithoutFault(parts: seq<Part>, values: Values)
    requires !Fails(parts, values)
    ensures Expanded(parts, values) == Ok(PartsText(parts, values))
  {
  }

  /** Nothing filled in: the text is the reprinted expression alone. */
  lemma UntouchedText(p: Part, t: Term, value: Value)
    requires WellFormedExpression(p) && p.terms == [t] && !StartsWithDot(p.terms)
    requires t.truncate > 0 ==> !value.Map?
    ensures var q := Expression(ReprintOperator(p, [t]), [Stripped(t)]);
            TwiceThroughText([p], map[], map[t.name := value]) == Ok(PartText(q, map[t.name := value]))
    ensures Expanded([p], map[t.name := value]) == Ok(PartText(p, map[t.name := value]))
  {
    hide *;
    var q, b: Values := Expression(ReprintOperator(p, [t]), [Stripped(t)]), map[t.name := value];
    UntouchedParses(p, t);
    WithoutValues(p);
    ExpressionTerms(ReprintOperator(p, [t]), [Stripped(t)]);
    WithoutRaw(p, ReprintOperator(p, [t]), [Stripped(t)]);
    OneTerm(p, t, value);
    StrippedTerm(t);
    OneTerm(q, Stripped(t), value);
    OnePart(p, map[]);
    OnePart(p, b);
    ThreeParts([], q, b);
    assert [] + PartText(q, b) == PartText(q, b);
    Twice([p], map[], b, [Literal([]), q, Literal([])]);
    ExpandedWithoutFault([p], b);
    ExpandedWithoutFault([Literal([]), q, Literal([])], b);
  }

  lemma ThreeParts(text: Text, q: Part, values: Values)
    ensures PartsText([Literal(text), q, Literal([])], values) == text + PartText(q, values)
    ensures Fails([Literal(text), q, Literal([])], values) <==> PartFails(q, values)
  {
    var all := [Literal(text), q, Literal([])];
    assert all[1..] == [q, Literal([])] && all[1..][1..] == [Literal([])] && [Literal([])][1..] == [];
    LiteralText(text, values);
    LiteralText([], values);
    OnePart(Literal([]), values);
    assert PartText(q, values) + [] == PartText(q, values);
    assert PartsText(all[1..], values) == PartText(q, values) + PartsText([Literal([])], values);
    FailsStep(all, values);
    FailsStep(all[1..], values);
  }

  lemma OneString(op: Operator, s: Text)
    requires op in {Simple, Plus}
    ensures PartText(Expression(op, [TERM_A]), map[A := Str(s)]) == Escaped(s, op.Plus?)
  {
    var p := Expression(op, [TERM_A]);
    PlainString(p, TERM_A, s);
    OneTerm(p, TERM_A, Str(s));
    hide PartText, ValueText, Escaped;
    assert [] + Escaped(s, op.Plus?) == Escaped(s, op.Plus?);
  }

  lemma NamesOfTerm()
    ensures TERM_A.name == A && TERM_A.truncate == 0
  {
  }

  lemma SlashTexts()
    ensures Escaped([SLASH], true) == [SLASH]
    ensures Escaped([SLASH], false) == [PERCENT, 0x32, 0x46]
  {
    EscapedOne(SLASH, true);
    EscapedOne(SLASH, false);
    assert Triplet(SLASH) == [PERCENT, 0x32, 0x46];
  }

  lemma PlusExpression()
    ensures var p := Expression(Plus, [TERM_A]);
            && WellFormedExpression(p) && p.terms == [TERM_A] && !StartsWithDot(p.terms)
            && Expression(ReprintOperator(p, [TERM_A]), [Stripped(TERM_A)]) == Expression(Simple, [TERM_A])
  {
    OneTermExpression(Plus, 0);
    assert PartOperator(Expression(Plus, [TERM_A])) == Plus;
  }

  /** {+a} left alone comes back as {a}, and then encodes a slash. */
  lemma PlusIsNotReprinted()
    ensures var p := Expression(Plus, [TERM_A]);
            var b: Values := map[A := Str([SLASH])];
            && Expanded([p], b) == Ok([SLASH])
            && TwiceThroughText([p], map[], b) == Ok([PERCENT, 0x32, 0x46])
  {
    hide *;
    PlusExpression();
    UntouchedText(Expression(Plus, [TERM_A]), TERM_A, Str([SLASH]));
    NamesOfTerm();
    OneString(Plus, [SLASH]);
    OneString(Simple, [SLASH]);
    SlashTexts();
  }

  const TWO_LETTERS: Text := [0x78, 0x79]

  lemma TwoLetterTexts(p: Part, t: Term)
    requires t == TERM_A.(truncate := 1) && p == Expression(Simple, [t])
    ensures ValueText(p, t, Str(TWO_LETTERS)) == [0x78]
    ensures ValueText(Expression(Simple, [TERM_A]), TERM_A, Str(TWO_LETTERS)) == TWO_LETTERS
  {
    var s := TWO_LETTERS;
    PlainString(Expression(Simple, [TERM_A]), TERM_A, s);
    assert s[1..] == [0x79] && s[..1] == [0x78] && Truncated(s, 1) == [0x78];
    EscapedOne(0x78, false);
    EscapedOne(0x79, false);
    assert Escaped(s, false) == [0x78] + Escaped([0x79], false) == s;
    hide Escaped, Truncated;
    assert ValueText(p, t, Str(s)) == [] + [0x78];
  }

  /** {a:1} left alone comes back as {a}, and then renders the whole value. */
  lemma PrefixIsNotReprinted()
    ensures var p := Expression(Simple, [TERM_A.(truncate := 1)]);
            var b: Values := map[A := Str(TWO_LETTERS)];
            && Expanded([p], b) == Ok([0x78])
            && TwiceThroughText([p], map[], b) == Ok(TWO_LETTERS)
  {
    var t := TERM_A.(truncate := 1);
    var p := Expression(Simple, [t]);
    OneTermExpression(Simple, 1);
    UntouchedText(p, t, Str(TWO_LETTERS));
    TwoLetterTexts(p, t);
    assert Stripped(t) == TERM_A && PartOperator(p) == Simple;
    hide PartText, ValueText, Expanded, TwiceThroughText, WellFormedExpression;
    OneTerm(p, t, Str(TWO_LETTERS));
    OneTerm(Expression(Simple, [TERM_A]), TERM_A, Str(TWO_LETTERS));
    assert [] + TWO_LETTERS == TWO_LETTERS && [] + [0x78 as byte] == [0x78];
  }

  lemma SlashList()
    ensures var p := Expression(Slash, [TERM_A, TERM_B]);
            && WellFormedExpression(p) && p.terms == [TERM_A, TERM_B] && p.raw == [] && p.sep == [SLASH]
            && !StartsWithDot(p.terms)
            && ReprintOperator(p, [TERM_A]) == Slash
  {
    assert A[1..] == [] && B[1..] == [];
    assert ValidName(A) && ValidName(B);
    assert PartOperator(Expression(Slash, [TERM_A, TERM_B])) == Slash;
  }

  /** What {/a,b} gives: with b alone, and with both. */
  lemma SlashRenderings(p: Part, b: Values, both: Values)
    requires p == Expression(Slash, [TERM_A, TERM_B])
    requires b == map[B := Str(B)] && both == map[A := Str(A), B := Str(B)]
    ensures PartText(p, b) == [SLASH] + B && !PartFails(p, b) && MissingTerms(p, b) == [TERM_A]
    ensures PartText(p, both) == [SLASH] + A + [SLASH] + B && !PartFails(p, both)
  {
    Distinct();
    EscapedOne(0x61, false);
    EscapedOne(0x62, false);
    PlainString(p, TERM_A, A);
    PlainString(p, TERM_B, B);
    hide ValueText, Escaped;
    TwoPresent(p, TERM_A, TERM_B, both);
    Step(p, TERM_A, [TERM_B], b);
    Step(p, TERM_B, [], b);
    assert [TERM_A] + [TERM_B] == [TERM_A, TERM_B] && [TERM_B] + [] == [TERM_B] && [TERM_A] + [] == [TERM_A];
    assert PresentTexts(p, p.terms, b) == [B];
    assert [B][1..] == [] && DropEmpty([B]) == [B];
  }

  lemma SlashReparsed(p: Part, a: Values)
    requires p == Expression(Slash, [TERM_A, TERM_B]) && a == map[B := Str(B)]
    ensures Parsed(PartialTexts([p], a)) ==
            Ok([Literal([SLASH] + B), Expression(Slash, [TERM_A]), Literal([])])
  {
    SlashList();
    SlashRenderings(p, a, map[A := Str(A), B := Str(B)]);
    assert StrippedTerms([TERM_A]) == [TERM_A];
    hide PartText, Parsed, PartialTexts, MissingTerms, ReprintOperator, WellFormedExpression;
    OneParses(p, a);
  }

  lemma SlashAgain(q: Part, b: Values)
    requires q == Expression(Slash, [TERM_A]) && b == map[A := Str(A)]
    ensures PartText(q, b) == [SLASH] + A && !PartFails(q, b)
  {
    EscapedOne(0x61, false);
    PlainString(q, TERM_A, A);
    hide PartText, PartFails, ValueText, Escaped;
    OneTerm(q, TERM_A, Str(A));
  }

  /** {/a,b} with b filled first: the text continues behind b, so the order is lost. */
  lemma OrderIsNotRestored()
    ensures var p := Expression(Slash, [TERM_A, TERM_B]);
            var a, b: Values := map[B := Str(B)], map[A := Str(A)];
            && TwiceThroughText([p], a, b) == Ok([SLASH] + B + ([SLASH] + A))
            && Expanded([p], a + b) == Ok([SLASH] + A + [SLASH] + B)
  {
    var p, q := Expression(Slash, [TERM_A, TERM_B]), Expression(Slash, [TERM_A]);
    var a, b: Values := map[B := Str(B)], map[A := Str(A)];
    Distinct();
    assert a + b == map[A := Str(A), B := Str(B)];
    hide PartText, PartFails, Parsed, PartialTexts, Expanded, MissingTerms, TwiceThroughText, Fails, Expression;
    SlashRenderings(p, a, a + b);
    SlashReparsed(p, a);
    SlashAgain(q, b);
    OnePart(p, a);
    OnePart(p, a + b);
    ThreeParts([SLASH] + B, q, b);
    Twice([p], a, b, [Literal([SLASH] + B), q, Literal([])]);
    ExpandedWithoutFault([p], a + b);
    ExpandedWithoutFault([Literal([SLASH] + B), q, Literal([])], b);
  }

  lemma OneIn(p: Part, t: Term, values: Values)
    requires p.raw == [] && p.terms == [t]
    ensures PartText(p, values) ==
            if t.name !in values || ValueText(p, t, values[t.name]) == [] then []
            else p.first + ValueText(p, t, values[t.name])
    ensures MissingTerms(p, values) == if t.name in values then [] else [t]
    ensures PartFails(p, values) <==> Truncates(t, values)
  {
    Step(p, t, [], values);
    assert [t] == [t] + [];
    hide ValueText, Truncates;
    assert DropEmpty([]) == [];
    if t.name in values {
      var texts := [ValueText(p, t, values[t.name])];
      assert texts[1..] == [] && PresentTexts(p, [t], values) == texts;
    }
  }

  const CUT_C := Term(C, false, 1)

  /** {.a,b} with a filled: one separator is lost to b, which is empty. */
  lemma LosesDot(p: Part, a: Values, b: Values)
    requires p == Expression(Dot, [TERM_A, TERM_B])
    requires a == map[A := Str(A)] && b == map[B := Str([]), C := Str([DOT, DOT])]
    ensures PartText(p, a) == [DOT] + A && MissingTerms(p, a) == [TERM_B]
    ensures PartText(p, a + b) == [DOT] + (A + [DOT] + [])
    ensures PartText(Expression(Dot, [TERM_B]), b) == []
    ensures ResumedFrom(p, [TERM_B], b, 0) == false
    ensures !PartFails(p, a + b)
  {
    Distinct();
    EscapedOne(0x61, false);
    PlainString(p, TERM_A, A);
    PlainString(p, TERM_B, []);
    PlainString(Expression(Dot, [TERM_B]), TERM_B, []);
    assert [TERM_B][1..] == [];
    hide ValueText, Escaped;
    TwoPresent(p, TERM_A, TERM_B, a + b);
    Step(p, TERM_A, [TERM_B], a);
    Step(p, TERM_B, [], a);
    assert [TERM_A] + [TERM_B] == [TERM_A, TERM_B] && [TERM_B] + [] == [TERM_B] && [A] + [] == [A];
    assert PresentTexts(p, p.terms, a) == [A];
    assert [A][1..] == [] && DropEmpty([A]) == [A];
    OneIn(Expression(Dot, [TERM_B]), TERM_B, b);
  }

  lemma DotTextsCut(p: Part)
    requires p == Expression(Simple, [CUT_C])
    ensures ValueText(p, CUT_C, Str([DOT, DOT])) == [DOT]
    ensures ValueText(Expression(Simple, [TERM_C]), TERM_C, Str([DOT, DOT])) == [DOT, DOT]
  {
    var dots: Text := [DOT, DOT];
    assert dots[..1] == [DOT] && dots[1..] == [DOT];
    EscapedOne(DOT, false);
    PlainString(Expression(Simple, [TERM_C]), TERM_C, dots);
    assert Escaped(dots, false) == [DOT] + Escaped([DOT], false);
    assert Truncated(dots, 1) == [DOT];
    hide Escaped, Truncated;
    assert ValueText(p, CUT_C, Str(dots)) == [] + [DOT];
  }

  /** {c:1} untouched: one dot is cut. */
  lemma GainsDot(p: Part, a: Values, b: Values)
    requires p == Expression(Simple, [CUT_C])
    requires a == map[A := Str(A)] && b == map[B := Str([]), C := Str([DOT, DOT])]
    ensures PartText(p, a) == [] && MissingTerms(p, a) == [CUT_C]
    ensures PartText(p, a + b) == [DOT]
    ensures PartText(Expression(Simple, [TERM_C]), b) == [DOT, DOT]
    ensures !PartFails(p, a + b)
  {
    Distinct();
    DotTextsCut(p);
    hide ValueText, PartText, MissingTerms, PartFails;
    OneIn(p, CUT_C, a);
    OneIn(p, CUT_C, a + b);
    OneIn(Expression(Simple, [TERM_C]), TERM_C, b);
  }

  lemma TwoExpressions()
    ensures WellFormed([Expression(Dot, [TERM_A, TERM_B]), Expression(Simple, [CUT_C])])
    ensures PartOperator(Expression(Simple, [CUT_C])) == Simple && StrippedTerms([CUT_C]) == [TERM_C]
    ensures ReprintOperator(Expression(Dot, [TERM_A, TERM_B]), [TERM_B]) == Dot
    ensures StrippedTerms([TERM_B]) == [TERM_B]
    ensures [TERM_A, TERM_B][1..] == [TERM_B]
  {
    assert A[1..] == [] && B[1..] == [] && C[1..] == [];
    assert ValidName(A) && ValidName(B) && ValidName(C);
    assert PartOperator(Expression(Dot, [TERM_A, TERM_B])) == Dot;
    assert StrippedTerms([CUT_C])[0] == TERM_C;
  }

  /** {.a,b}{c:1} with a filled first: the separator lost in one expression is the byte not
      cut in the other, so which parts resume is not seen from the whole text. */
  lemma SeamAndPrefixCancel()
    ensures var parts := [Expression(Dot, [TERM_A, TERM_B]), Expression(Simple, [CUT_C])];
            var a: Values, b: Values := map[A := Str(A)], map[B := Str([]), C := Str([DOT, DOT])];
            && TwiceThroughText(parts, a, b) == Expanded(parts, a + b) == Ok([DOT] + A + [DOT, DOT])
            && Continues(parts[0], a, b) && !Resumes(parts[0], a, b)
  {
    var p, r := Expression(Dot, [TERM_A, TERM_B]), Expression(Simple, [CUT_C]);
    var a: Values, b: Values := map[A := Str(A)], map[B := Str([]), C := Str([DOT, DOT])];
    Distinct();
    LosesDot(p, a, b);
    GainsDot(r, a, b);
    TwoExpressions();
    TwoReparsed(p, r, a, b);
    hide *;
    TwoParts(p, r, a, b);
    DotsAndBytes();
  }

  lemma DotsAndBytes()
    ensures [DOT] + (A + [DOT] + []) + [DOT] == [DOT] + A + [DOT, DOT]
    ensures [DOT] + A + [] + ([] + [DOT, DOT]) == [DOT] + A + [DOT, DOT]
  {
  }

  lemma TwoReparsed(p: Part, r: Part, a: Values, b: Values)
    requires p == Expression(Dot, [TERM_A, TERM_B]) && r == Expression(Simple, [CUT_C])
    requires MissingTerms(p, a) == [TERM_B] && MissingTerms(r, a) == [CUT_C] && PartText(p, a) != []
    requires !ResumedFrom(p, [TERM_B], b, 0)
    ensures ReparsedPart(p, a) == Expression(Dot, [TERM_B]) && ReparsedPart(r, a) == Expression(Simple, [TERM_C])
    ensures Resumable(p, a) && Resumable(r, a) && !Resumes(p, a, b)
  {
    TwoExpressions();
    assert p.terms == [TERM_A, TERM_B] && r.terms == [CUT_C] && p.sep == [DOT];
    hide MissingTerms, PartText, ResumedFrom;
  }

  lemma TwoParts(p: Part, r: Part, a: Values, b: Values)
    requires WellFormed([p, r]) && Resumable(p, a) && Resumable(r, a) && a.Keys !! b.Keys
    requires !PartFails(p, a + b) && !PartFails(r, a + b)
    requires MissingTerms(p, a) != [] && MissingTerms(r, a) != []
    ensures Expanded([p, r], a + b) == Ok(PartText(p, a + b) + PartText(r, a + b))
    ensures TwiceThroughText([p, r], a, b) ==
            Ok(PartText(p, a) + PartText(ReparsedPart(p, a), b) + (PartText(r, a) + PartText(ReparsedPart(r, a), b)))
  {
    hide PartText, PartFails, MissingTerms, Resumable, ReparsedPart, WellFormed, Parsed, PartialTexts;
    var parts := [p, r];
    assert parts[1..] == [r] && [r][1..] == [];
    FailsStep(parts, a + b);
    OnePart(r, a + b);
    FailsOfUnion(parts, a, b);
    ReexpandedText(parts, a, b);
    var x, y := ReexpandedPart(p, a, b), ReexpandedPart(r, a, b);
    assert ReexpandedParts([r], a, b) == y + ReexpandedParts([], a, b) == y;
    assert ReexpandedParts(parts, a, b) == x + ReexpandedParts([r], a, b);
  }

  /** {a,b} with a filled first: the returned part list has forgotten a. */
  lemma PartlyFilledIsForgotten()
    ensures var p := Expression(Simple, [TERM_A, TERM_B]);
            var a: Values := map[A := Str(X)];
            && TwiceInMemory([p], a, map[]) == Ok([])
            && Expanded([p], a + map[]) == Ok(X)
  {
    var p := Expression(Simple, [TERM_A, TERM_B]);
    var a: Values := map[A := Str(X)];
    EscapedOne(0x78, false);
    Distinct();
    assert a + map[] == a && [p][1..] == [];
    Step(p, TERM_A, [TERM_B], a);
    Step(p, TERM_B, [], a);
    Step(p, TERM_A, [TERM_B], map[]);
    Step(p, TERM_B, [], map[]);
    assert p.terms == [TERM_A] + [TERM_B] && [TERM_B] == [TERM_B] + [];
    PlainString(p, TERM_A, X);
    assert Missing(p.terms, a) == [TERM_B];
    assert PartialParts([p], a) == [p];
    assert PresentTexts(p, p.terms, a) == [X];
    assert PresentTexts(p, p.terms, map[]) == [];
    OnePart(p, a);
    OnePart(p, map[]);
  }
}
