/** Partial expansion seen through its text: when the text parses again, and when
    expanding the reparsed template completes to the full expansion. */
module Reparsing {
  import opened Text
  import opened Templates
  import opened Parser
  import opened Grammar
  import opened Expansion
  import opened Renderings
  import opened PartialExpansion

  // ---------- the text as a weave of literals and expressions ----------

  /** The literals of the partial text: neighbouring filled parts run together. */
  function Literals(parts: seq<Part>, values: Values): (r: seq<Text>)
    ensures r != []
  {
    if parts == [] then [[]]
    else
      var text, rest := PartText(parts[0], values), Literals(parts[1..], values);
      if MissingTerms(parts[0], values) == [] then [text + rest[0]] + rest[1..] else [text] + rest
  }

  function Reprints(parts: seq<Part>, values: Values): (r: seq<Text>)
    ensures |Literals(parts, values)| == |r| + 1
  {
    if parts == [] then []
    else
      var missing, rest := MissingTerms(parts[0], values), Reprints(parts[1..], values);
      if missing == [] then rest else [Reprint(parts[0], missing)] + rest
  }

  lemma WeaveFront(text: Text, literals: seq<Text>, expressions: seq<Text>)
    requires |literals| == |expressions| + 1
    ensures Weave([text + literals[0]] + literals[1..], expressions) == text + Weave(literals, expressions)
  {
    var longer := [text + literals[0]] + literals[1..];
    if expressions != [] {
      assert longer[1..] == literals[1..];
      var tail := expressions[0] + [RBRACE] + Weave(literals[1..], expressions[1..]);
      AppendThree(text, literals[0], [LBRACE], tail);
      assert text + literals[0] + [LBRACE] + tail == text + (literals[0] + [LBRACE] + tail);
    }
  }

  lemma WeaveExpression(text: Text, expression: Text, literals: seq<Text>, expressions: seq<Text>)
    requires |literals| == |expressions| + 1
    ensures Weave([text] + literals, [expression] + expressions) ==
            text + ([LBRACE] + expression + [RBRACE]) + Weave(literals, expressions)
  {
    var rest := Weave(literals, expressions);
    assert ([text] + literals)[1..] == literals && ([expression] + expressions)[1..] == expressions;
    hide Weave;
    Regroup(text, expression, rest);
    Associate(text, [LBRACE] + expression + [RBRACE], rest);
  }

  lemma {:induction false} PartialTextsWoven(parts: seq<Part>, values: Values)
    ensures PartialTexts(parts, values) == Weave(Literals(parts, values), Reprints(parts, values))
  {
    if parts != [] {
      var p := parts[0];
      var literals, reprints := Literals(parts[1..], values), Reprints(parts[1..], values);
      var text, missing := PartText(p, values), MissingTerms(p, values);
      PartialTextsWoven(parts[1..], values);
      if missing == [] {
        assert text + [] == text;
        WeaveFront(text, literals, reprints);
      } else {
        WeaveExpression(text, Reprint(p, missing), literals, reprints);
      }
    }
  }

  // ---------- the reprinted expressions ----------

  function Stripped(t: Term): Term {
    t.(truncate := 0)
  }

  function StrippedTerms(terms: seq<Term>): (r: seq<Term>)
    ensures |r| == |terms| && forall i :: 0 <= i < |r| ==> r[i] == Stripped(terms[i])
  {
    if terms == [] then [] else [Stripped(terms[0])] + StrippedTerms(terms[1..])
  }

  lemma {:induction false} ReprintedIsPrinted(terms: seq<Term>)
    ensures ReprintedTerms(terms) == PrintedTerms(StrippedTerms(terms))
  {
    if terms != [] {
      ReprintedIsPrinted(terms[1..]);
      assert StrippedTerms(terms)[1..] == StrippedTerms(terms[1..]);
      var t := terms[0];
      assert t.name + [] == t.name;
      assert PrintedTerm(Stripped(t)) == ReprintedTerm(t);
    }
  }

  lemma {:induction false} MissingTermsExist(terms: seq<Term>, values: Values)
    ensures forall t :: t in Missing(terms, values) ==> t in terms && t.name !in values
    ensures |Missing(terms, values)| <= |terms|
    ensures |Missing(terms, values)| == |terms| ==> Missing(terms, values) == terms
  {
    if terms != [] {
      MissingTermsExist(terms[1..], values);
    }
  }

  /** The operator that the reprinted expression begins with. */
  function ReprintOperator(p: Part, missing: seq<Term>): Operator {
    if |missing| == |p.terms| then (if PartOperator(p).Plus? then Simple else PartOperator(p))
    else if p.sep == [] then Simple
    else OperatorOf(p.sep[0])
  }

  /** The text of one part parses again: a partly filled expression must not go on with
      a comma, and "+." must not lose the plus that kept it from reading as a dot operator. */
  predicate Reparses(p: Part, values: Values) {
    var missing := MissingTerms(p, values);
    missing == []
    || (if |missing| == |p.terms| then !(PartOperator(p).Plus? && missing[0].name == [DOT])
        else p.sep != [COMMA])
  }

  predicate StartsWithDot(terms: seq<Term>) {
    terms != [] && [DOT] <= terms[0].name
  }

  lemma StrippedWellFormed(terms: seq<Term>)
    requires forall t :: t in terms ==> WellFormedTerm(t)
    ensures forall t :: t in StrippedTerms(terms) ==> WellFormedTerm(t)
  {
    forall t | t in StrippedTerms(terms)
      ensures WellFormedTerm(t)
    {
      var i :| 0 <= i < |terms| && StrippedTerms(terms)[i] == t;
      assert terms[i] in terms && t == Stripped(terms[i]);
    }
  }

  lemma MissingOf(p: Part, values: Values) returns (missing: seq<Term>)
    requires WellFormedPart(p) && MissingTerms(p, values) != []
    ensures missing == MissingTerms(p, values) && missing != []
    ensures WellFormedExpression(p) && p.raw == []
    ensures forall t :: t in missing ==> WellFormedTerm(t) && t.name !in values
    ensures |missing| <= |p.terms| && (|missing| == |p.terms| ==> missing == p.terms)
  {
    missing := MissingTerms(p, values);
    MissingTermsExist(p.terms, values);
  }

  /** Except after a comma or a lost plus, the reprint is read as the missing terms,
      without their prefixes, under the operator the text shows. */
  lemma ReprintParses(p: Part, values: Values)
    requires WellFormedPart(p) && MissingTerms(p, values) != []
    requires |MissingTerms(p, values)| < |p.terms| ==> p.sep != [COMMA]
    requires |MissingTerms(p, values)| == |p.terms| && PartOperator(p).Plus? ==> !StartsWithDot(p.terms)
    ensures var missing := MissingTerms(p, values);
            && ParsedExpression(Reprint(p, missing)) ==
               Ok(Expression(ReprintOperator(p, missing), StrippedTerms(missing)))
            && BraceFree(Reprint(p, missing))
  {
    var missing := MissingOf(p, values);
    hide WellFormedTerm, NameBytes, Missing, Join, ReprintedTerms, PrintedTerms;
    var op := ReprintOperator(p, missing);
    assert (if |missing| == |p.terms| then p.first else p.sep) == OperatorText(op);
    ReprintedIsPrinted(missing);
    StrippedWellFormed(missing);
    ParsedPrintedList(op, StrippedTerms(missing));
  }

  lemma NoEmptyTerm(rest: seq<Text>)
    ensures ParseTerms([[]] + rest).Err?
  {
    TermAccepted([]);
    assert !IsTerm([]);
  }

  lemma CommaFails(raws: seq<Text>)
    requires raws != [] && forall t :: t in raws ==> COMMA !in t
    ensures ParsedExpression([COMMA] + Join(raws, [COMMA])).Err?
  {
    var list := [[]] + raws;
    assert list[1..] == raws;
    var body := [COMMA] + Join(raws, [COMMA]);
    assert Join(list, [COMMA]) == [] + [COMMA] + Join(raws, [COMMA]) == body;
    assert ParsedExpression(body) == WithTerms(Simple, ParseTerms(Split(body, COMMA)));
    hide Join, ParseTerms, Split, ParsedExpression;
    NoEmptyTerm(raws);
    SplitOfJoin(list, COMMA);
  }

  lemma ReprintedTermsParse(terms: seq<Term>)
    requires forall t :: t in terms ==> WellFormedTerm(t)
    ensures ParseTerms(ReprintedTerms(terms)) == Ok(StrippedTerms(terms))
    ensures forall s :: s in ReprintedTerms(terms) ==> COMMA !in s && BraceFree(s)
    ensures |ReprintedTerms(terms)| == |terms|
  {
    ReprintedIsPrinted(terms);
    StrippedWellFormed(terms);
    ParsedPrintedTerms(StrippedTerms(terms));
  }

  lemma PlainExpression(p: Part)
    requires WellFormedExpression(p)
    ensures PlainPart(p) && p.sep != []
  {
    hide WellFormedTerm;
  }

  lemma ReprintBraceFree(p: Part, values: Values)
    requires WellFormedPart(p) && MissingTerms(p, values) != []
    ensures BraceFree(Reprint(p, MissingTerms(p, values)))
  {
    var missing := MissingOf(p, values);
    ReprintedTermsParse(missing);
    hide ReprintedTerms, WellFormedTerm, Join, Missing;
    PlainExpression(p);
    JoinBraceFree(ReprintedTerms(missing), [COMMA]);
  }

  lemma DottedList(first: Text, rest: seq<Text>)
    requires COMMA !in first && forall s :: s in rest ==> COMMA !in s
    ensures ParsedExpression(Join([[DOT] + first] + rest, [COMMA])) == WithTerms(Dot, ParseTerms([first] + rest))
  {
    JoinFront([DOT], first, rest, [COMMA]);
    SplitOfJoin([first] + rest, COMMA);
    var list := Join([first] + rest, [COMMA]);
    var e := [DOT] + list;
    assert e[1..] == list;
  }

  lemma DottedTerm(t: Term) returns (name: Text, first: Text)
    requires WellFormedTerm(t) && [DOT] <= t.name
    ensures NameBytes(name) && t.name == [DOT] + name
    ensures ReprintedTerm(t) == [DOT] + first && COMMA !in first
    ensures if name == [] then ParseTerm(first).Err? else ParseTerm(first) == Ok(Term(name, t.explode, 0))
  {
    name := t.name[1..];
    first := name + if t.explode then [STAR] else [];
    assert t.name == [DOT] + name;
    NameContents(name);
    StarOnly(name, t.explode);
  }

  /** A plus expression whose first name starts with a dot comes back as a dot operator
      with a shorter name, if anything is left of that name. */
  lemma LostPlus(p: Part, terms: seq<Term>)
    requires p == Expression(Plus, terms) && StartsWithDot(terms)
    requires forall t :: t in terms ==> WellFormedTerm(t)
    ensures var r, name := ParsedExpression(Reprint(p, terms)), terms[0].name[1..];
            if name == [] then r.Err?
            else r == Ok(Expression(Dot, [Term(name, terms[0].explode, 0)] + StrippedTerms(terms[1..])))
  {
    var name, first := DottedTerm(terms[0]);
    var rest := ReprintedTerms(terms[1..]);
    ReprintedTermsParse(terms);
    ReprintedTermsParse(terms[1..]);
    var list := [[DOT] + first] + rest;
    assert ReprintedTerms(terms) == list;
    DottedList(first, rest);
    assert ([first] + rest)[1..] == rest;
    assert terms[0].name[1..] == name;
    hide WellFormedTerm, NameBytes, ParseTerm, ReprintedTerms, Join, ParsedExpression;
    assert Reprint(p, terms) == Join(list, [COMMA]) by {
      assert [] + Join(list, [COMMA]) == Join(list, [COMMA]);
    }
  }

  lemma StarOnly(name: Text, explode: bool)
    requires NameBytes(name)
    ensures var r := ParseTerm(name + if explode then [STAR] else []);
            if name == [] then r.Err? else r == Ok(Term(name, explode, 0))
  {
    var t := name + if explode then [STAR] else [];
    if name != [] {
      assert name + [] == name;
      assert TermShape(t, name, [], explode);
      ParseTermOfShape(t, name, [], explode);
    } else {
      SplitWithout<byte>([], COLON);
      assert t[..|t| - |t|] == [];
    }
  }

  lemma PartReparses(p: Part, values: Values)
    requires WellFormedPart(p) && MissingTerms(p, values) != []
    ensures ParsedExpression(Reprint(p, MissingTerms(p, values))).Ok? <==> Reparses(p, values)
  {
    var missing := MissingOf(p, values);
    if |missing| < |p.terms| {
      if p.sep == [COMMA] {
        ReprintedTermsParse(missing);
        CommaFails(ReprintedTerms(missing));
      } else {
        ReprintParses(p, values);
      }
    } else if PartOperator(p).Plus? && StartsWithDot(missing) {
      LostPlus(p, missing);
    } else {
      ReprintParses(p, values);
    }
  }

  lemma {:induction false} WovenBraceFree(parts: seq<Part>, values: Values)
    requires WellFormed(parts)
    ensures AllBraceFree(Literals(parts, values)) && AllBraceFree(Reprints(parts, values))
  {
    hide WellFormedPart, PartText, Reprint, MissingTerms;
    if parts != [] {
      PartTextBraceFree(parts[0], values);
      WovenBraceFree(parts[1..], values);
      if MissingTerms(parts[0], values) != [] {
        ReprintBraceFree(parts[0], values);
      }
    }
  }

  lemma {:induction false} ReprintsParse(parts: seq<Part>, values: Values)
    requires WellFormed(parts)
    ensures ParsedAll(Reprints(parts, values)).Ok? <==>
            forall i :: 0 <= i < |parts| ==> Reparses(parts[i], values)
  {
    hide WellFormedPart, ParsedExpression, Reprint;
    if parts != [] {
      ReprintsParse(parts[1..], values);
      assert forall i :: 1 <= i < |parts| ==> parts[i] == parts[1..][i - 1];
      var missing, reprints := MissingTerms(parts[0], values), Reprints(parts, values);
      if missing != [] {
        PartReparses(parts[0], values);
        assert reprints[0] == Reprint(parts[0], missing) && reprints[1..] == Reprints(parts[1..], values);
      }
    }
  }

  /** The text of a partial expansion parses exactly when the text of each part does. */
  lemma PartialTextParses(parts: seq<Part>, values: Values)
    requires WellFormed(parts)
    ensures Parsed(PartialTexts(parts, values)).Ok? <==>
            forall i :: 0 <= i < |parts| ==> Reparses(parts[i], values)
  {
    PartialTextsWoven(parts, values);
    WovenBraceFree(parts, values);
    ParsedWeave(Literals(parts, values), Reprints(parts, values));
    ReprintsParse(parts, values);
  }

  // ---------- expanding what was reparsed ----------

  /** The reprint is read as the missing terms under an operator that fits: an untouched
      expression does not turn into a dot operator, and a partly filled one goes on with
      its own separator, which is not a comma. */
  predicate Resumable(p: Part, values: Values) {
    var missing := MissingTerms(p, values);
    missing == []
    || (if |missing| == |p.terms| then !(PartOperator(p).Plus? && StartsWithDot(missing)) else p.sep != [COMMA])
  }

  function ReparsedPart(p: Part, values: Values): Part {
    var missing := MissingTerms(p, values);
    Expression(ReprintOperator(p, missing), StrippedTerms(missing))
  }

  lemma ResumableParses(p: Part, values: Values)
    requires WellFormedPart(p) && MissingTerms(p, values) != [] && Resumable(p, values)
    ensures ParsedExpression(Reprint(p, MissingTerms(p, values))) == Ok(ReparsedPart(p, values))
  {
    var _ := MissingOf(p, values);
    ReprintParses(p, values);
  }

  function ReparsedParts(parts: seq<Part>, values: Values): (r: seq<Part>)
    ensures |r| == |Reprints(parts, values)|
  {
    if parts == [] then []
    else
      var rest := ReparsedParts(parts[1..], values);
      if MissingTerms(parts[0], values) == [] then rest else [ReparsedPart(parts[0], values)] + rest
  }

  lemma {:induction false} ReparsedAll(parts: seq<Part>, values: Values)
    requires WellFormed(parts) && forall i :: 0 <= i < |parts| ==> Resumable(parts[i], values)
    ensures ParsedAll(Reprints(parts, values)) == Ok(ReparsedParts(parts, values))
  {
    hide WellFormedPart, Reprint, ParsedExpression, ReparsedPart, Resumable;
    if parts != [] {
      ReparsedAll(parts[1..], values);
      var missing, reprints := MissingTerms(parts[0], values), Reprints(parts, values);
      if missing != [] {
        ResumableParses(parts[0], values);
        assert reprints[0] == Reprint(parts[0], missing) && reprints[1..] == Reprints(parts[1..], values);
      }
    }
  }

  /** What one part contributes when its reparsed rest is expanded with b. */
  function ReexpandedPart(p: Part, a: Values, b: Values): Text {
    PartText(p, a) + if MissingTerms(p, a) == [] then [] else PartText(ReparsedPart(p, a), b)
  }

  predicate ReparsedFails(p: Part, a: Values, b: Values) {
    MissingTerms(p, a) != [] && PartFails(ReparsedPart(p, a), b)
  }

  function ReexpandedParts(parts: seq<Part>, a: Values, b: Values): Text {
    if parts == [] then [] else ReexpandedPart(parts[0], a, b) + ReexpandedParts(parts[1..], a, b)
  }

  lemma InterleaveFront(text: Text, literals: seq<Text>, expressions: seq<Part>, values: Values)
    requires |literals| == |expressions| + 1
    ensures var longer := Interleave([text + literals[0]] + literals[1..], expressions);
            && PartsText(longer, values) == text + PartsText(Interleave(literals, expressions), values)
            && (Fails(longer, values) <==> Fails(Interleave(literals, expressions), values))
  {
    var longer := [text + literals[0]] + literals[1..];
    assert longer[1..] == literals[1..];
    var parts, others := Interleave(literals, expressions), Interleave(longer, expressions);
    assert parts[1..] == others[1..];
    LiteralText(literals[0], values);
    LiteralText(longer[0], values);
    assert PartsText(parts, values) == literals[0] + PartsText(parts[1..], values);
    Associate(text, literals[0], PartsText(parts[1..], values));
    FailsStep(parts, values);
    FailsStep(others, values);
  }

  lemma InterleaveExpression(text: Text, p: Part, literals: seq<Text>, expressions: seq<Part>, values: Values)
    requires |literals| == |expressions| + 1
    ensures var all, rest := Interleave([text] + literals, [p] + expressions), Interleave(literals, expressions);
            && PartsText(all, values) == text + PartText(p, values) + PartsText(rest, values)
            && (Fails(all, values) <==> PartFails(p, values) || Fails(rest, values))
  {
    assert ([text] + literals)[1..] == literals && ([p] + expressions)[1..] == expressions;
    var rest := Interleave(literals, expressions);
    var all, tail := [Literal(text), p] + rest, [p] + rest;
    assert all[1..] == tail && tail[1..] == rest;
    LiteralText(text, values);
    FailsStep(all, values);
    FailsStep(tail, values);
    hide PartText, PartFails, Fails, Interleave;
    assert PartsText(tail, values) == PartText(p, values) + PartsText(rest, values);
    assert PartsText(all, values) == text + PartsText(tail, values);
    Associate(text, PartText(p, values), PartsText(rest, values));
  }

  lemma ReparsedFailsStep(parts: seq<Part>, a: Values, b: Values)
    requires parts != []
    ensures (exists i :: 0 <= i < |parts| && ReparsedFails(parts[i], a, b)) <==>
            || ReparsedFails(parts[0], a, b)
            || exists i :: 0 <= i < |parts[1..]| && ReparsedFails(parts[1..][i], a, b)
  {
    hide ReparsedFails;
    var rest := parts[1..];
    assert forall i :: 1 <= i < |parts| ==> parts[i] == rest[i - 1];
    if i :| 0 <= i < |rest| && ReparsedFails(rest[i], a, b) {
      assert ReparsedFails(parts[i + 1], a, b);
    }
  }

  /** One part in front of parts that are woven and reexpanded already. */
  lemma ReexpandedStep(parts: seq<Part>, a: Values, b: Values)
    requires parts != []
    requires var rest := Interleave(Literals(parts[1..], a), ReparsedParts(parts[1..], a));
             PartsText(rest, b) == ReexpandedParts(parts[1..], a, b)
    ensures var rest := Interleave(Literals(parts[1..], a), ReparsedParts(parts[1..], a));
            var woven := Interleave(Literals(parts, a), ReparsedParts(parts, a));
            && PartsText(woven, b) == ReexpandedParts(parts, a, b)
            && (Fails(woven, b) <==> ReparsedFails(parts[0], a, b) || Fails(rest, b))
  {
    var p, literals, reparsed := parts[0], Literals(parts[1..], a), ReparsedParts(parts[1..], a);
    var text := PartText(p, a);
    hide PartText, PartFails, ReparsedPart, MissingTerms, Interleave, PartsText, Fails;
    if MissingTerms(p, a) == [] {
      assert text + [] == text;
      InterleaveFront(text, literals, reparsed, b);
    } else {
      InterleaveExpression(text, ReparsedPart(p, a), literals, reparsed, b);
    }
  }

  lemma {:induction false} ReexpandedInterleave(parts: seq<Part>, a: Values, b: Values)
    ensures var woven := Interleave(Literals(parts, a), ReparsedParts(parts, a));
            && PartsText(woven, b) == ReexpandedParts(parts, a, b)
            && (Fails(woven, b) <==> exists i :: 0 <= i < |parts| && ReparsedFails(parts[i], a, b))
  {
    if parts == [] {
      LiteralText([], b);
      var woven := Interleave(Literals(parts, a), ReparsedParts(parts, a));
      assert woven == [Literal([])] && woven[1..] == [];
      FailsStep(woven, b);
    } else {
      hide *;
      ReexpandedInterleave(parts[1..], a, b);
      ReexpandedStep(parts, a, b);
      ReparsedFailsStep(parts, a, b);
    }
  }

  // ---------- the errors ----------

  lemma ExpressionTerms(op: Operator, terms: seq<Term>)
    ensures Expression(op, terms).terms == terms
  {
  }

  lemma ReparsedNeverFails(p: Part, a: Values, b: Values)
    requires WellFormedPart(p) && Resumable(p, a)
    ensures !ReparsedFails(p, a, b)
  {
    if MissingTerms(p, a) != [] {
      var missing := MissingTerms(p, a);
      var q := ReparsedPart(p, a);
      ExpressionTerms(ReprintOperator(p, missing), StrippedTerms(missing));
      hide Missing, ReparsedPart, StrippedTerms, WellFormedPart;
      assert forall i :: 0 <= i < |q.terms| ==> q.terms[i].truncate == 0;
    }
  }

  /** Expanding with a, parsing the returned text, and expanding with b. */
  function TwiceThroughText(parts: seq<Part>, a: Values, b: Values): Result<Text> {
    match PartiallyExpanded(parts, a)
    case Err(fault) => Err(fault)
    case Ok(partial) =>
      match Parsed(partial.raw) {
        case Err(fault) => Err(fault)
        case Ok(reparsed) => Expanded(reparsed, b)
      }
  }

  lemma ReexpandedText(parts: seq<Part>, a: Values, b: Values)
    requires WellFormed(parts) && forall i :: 0 <= i < |parts| ==> Resumable(parts[i], a)
    ensures var reparsed := Parsed(PartialTexts(parts, a));
            reparsed.Ok? && Expanded(reparsed.value, b) == Ok(ReexpandedParts(parts, a, b))
  {
    PartialTextsWoven(parts, a);
    WovenBraceFree(parts, a);
    ParsedWeave(Literals(parts, a), Reprints(parts, a));
    ReparsedAll(parts, a);
    ReexpandedInterleave(parts, a, b);
    hide WellFormedPart, Resumable, ReparsedFails;
    forall i | 0 <= i < |parts| ensures !ReparsedFails(parts[i], a, b) {
      ReparsedNeverFails(parts[i], a, b);
    }
  }

  // ---------- texts that do not parse ----------

  lemma ParsedExpressionFaults(e: Text)
    ensures ParsedExpression(e).Err? ==> !ParsedExpression(e).fault.TruncatedMap?
  {
    if e != [] {
      TermFaults(Split(ExpressionBody(e), COMMA));
    }
  }

  lemma {:induction false} TermFaults(raws: seq<Text>)
    ensures ParseTerms(raws).Err? ==> !ParseTerms(raws).fault.TruncatedMap?
  {
    if raws != [] {
      TermFaults(raws[1..]);
    }
  }

  lemma {:induction false} PieceFaults(pieces: seq<Text>)
    ensures ParsedPieces(pieces).Err? ==> !ParsedPieces(pieces).fault.TruncatedMap?
  {
    hide ParsedExpression;
    if pieces != [] {
      PieceFaults(pieces[1..]);
      if |Split(pieces[0], RBRACE)| == 2 {
        ParsedExpressionFaults(Split(pieces[0], RBRACE)[0]);
      }
    }
  }

  /** If the text does not parse, only a failure of the first expansion, which is also
      one of the full expansion, makes the two agree. */
  lemma UnparsedFails(parts: seq<Part>, a: Values, b: Values)
    requires WellFormed(parts) && a.Keys !! b.Keys
    requires exists i :: 0 <= i < |parts| && !Reparses(parts[i], a)
    ensures TwiceThroughText(parts, a, b) == Expanded(parts, a + b) <==> Fails(parts, a)
  {
    PartialTextParses(parts, a);
    FailsOfUnion(parts, a, b);
    var raw := PartialTexts(parts, a);
    PieceFaults(Split(raw, LBRACE)[1..]);
    hide Reparses, ParsedPieces, Fails, WellFormed, Split, PartialTexts;
    assert Parsed(raw).Err? && !Parsed(raw).fault.TruncatedMap?;
  }
}
