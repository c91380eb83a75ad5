/** What Parse accepts, and a printer that Parse undoes. */
module Grammar {
  import opened Text
  import opened Templates
  import opened Parser

  // ---------- the grammar ----------

  /** name [":" number] ["*"], where a positive number and the star exclude each other. */
  ghost predicate TermShape(t: Text, name: Text, prefix: Text, star: bool) {
    && ValidName(name)
    && (prefix == [] || (prefix[0] == COLON && ParseInt(prefix[1..]).Some?))
    && !(star && prefix != [] && ParseInt(prefix[1..]).value > 0)
    && t == name + prefix + if star then [STAR] else []
  }

  ghost predicate IsTerm(t: Text) {
    exists name, prefix, star :: TermShape(t, name, prefix, star)
  }

  /** An operator character, or none, and a comma-separated list of terms. */
  ghost predicate ExpressionShape(e: Text, op: Operator, terms: seq<Text>) {
    && terms != []
    && (forall t :: t in terms ==> IsTerm(t))
    && e == OperatorText(op) + Join(terms, [COMMA])
    && (op.Simple? ==> e != [] && OperatorOf(e[0]).Simple?)
  }

  ghost predicate IsExpression(e: Text) {
    exists op, terms :: ExpressionShape(e, op, terms)
  }

  function Weave(literals: seq<Text>, expressions: seq<Text>): Text
    requires |literals| == |expressions| + 1
  {
    if expressions == [] then literals[0]
    else literals[0] + [LBRACE] + (expressions[0] + [RBRACE] + Weave(literals[1..], expressions[1..]))
  }

  predicate AllBraceFree(texts: seq<Text>) {
    forall i :: 0 <= i < |texts| ==> BraceFree(texts[i])
  }

  /** Brace-free literals alternating with braced expressions. */
  ghost predicate TemplateShape(raw: Text, literals: seq<Text>, expressions: seq<Text>) {
    && |literals| == |expressions| + 1
    && AllBraceFree(literals)
    && (forall s :: s in expressions ==> IsExpression(s))
    && raw == Weave(literals, expressions)
  }

  ghost predicate IsTemplate(raw: Text) {
    exists literals, expressions :: TemplateShape(raw, literals, expressions)
  }

  /** Literals at even places, expressions at odd places, a literal at both ends. */
  ghost predicate Alternating(parts: seq<Part>) {
    && |parts| % 2 == 1
    && forall i :: 0 <= i < |parts| ==>
         if i % 2 == 0 then WellFormedLiteral(parts[i]) else WellFormedExpression(parts[i])
  }

  // ---------- terms ----------

  lemma IntContents(s: Text)
    requires ParseInt(s).Some?
    ensures s != [] && forall c :: c in s ==> IsDigit(c) || c == PLUS || c == MINUS
  {
    assert forall c :: c in s ==> c == s[0] || c in s[1..];
  }

  lemma TermContents(t: Text, name: Text, prefix: Text, star: bool)
    requires TermShape(t, name, prefix, star)
    ensures COLON !in name && STAR !in name && BraceFree(name) && COMMA !in name
    ensures STAR !in prefix && (prefix != [] ==> COLON !in prefix[1..])
    ensures COMMA !in t && BraceFree(t) && t != []
  {
    NameContents(name);
    if prefix != [] {
      IntContents(prefix[1..]);
      assert forall c :: c in prefix ==> c == prefix[0] || c in prefix[1..];
    }
    assert forall c :: c in t ==> c in name || c in prefix || c == STAR;
  }

  lemma ParseTermOfShape(t: Text, name: Text, prefix: Text, star: bool)
    requires TermShape(t, name, prefix, star)
    ensures ParseTerm(t) ==
            Ok(Term(name, star, if prefix == [] then 0 else ParseInt(prefix[1..]).value))
  {
    TermContents(t, name, prefix, star);
    var term := name + prefix;
    if star {
      assert t[..|t| - 1] == term;
    } else {
      assert t == term;
      assert t[|t| - 1] in term;
    }
    if prefix == [] {
      assert term == name;
      SplitWithout(term, COLON);
    } else {
      assert term == name + [COLON] + prefix[1..];
      SplitAtFirst(name, COLON, prefix[1..]);
      SplitWithout(prefix[1..], COLON);
    }
  }

  lemma PrefixOfTerm(term: Text) returns (prefix: Text)
    requires NameAndPrefix(term).0 != [] && NameAndPrefix(term).1.Some?
    ensures term == NameAndPrefix(term).0 + prefix
    ensures if prefix == [] then NameAndPrefix(term).1 == Some(0)
            else prefix[0] == COLON && ParseInt(prefix[1..]) == NameAndPrefix(term).1
  {
    var split := Split(term, COLON);
    JoinOfSplit(term, COLON);
    if |split| == 1 {
      prefix := [];
    } else {
      assert split[1..] == [split[1]];
      prefix := [COLON] + split[1];
      assert prefix[1..] == split[1];
    }
  }

  lemma ShapeOfParsedTerm(t: Text) returns (name: Text, prefix: Text, star: bool)
    requires ParseTerm(t).Ok?
    ensures TermShape(t, name, prefix, star)
  {
    star := t != [] && t[|t| - 1] == STAR;
    var term := if star then t[..|t| - 1] else t;
    prefix := PrefixOfTerm(term);
    name := NameAndPrefix(term).0;
    assert t == term + if star then [STAR] else [];
  }

  /** parseTerm accepts exactly the terms of the grammar. */
  lemma TermAccepted(t: Text)
    ensures ParseTerm(t).Ok? <==> IsTerm(t)
    ensures ParseTerm(t).Ok? ==>
              && WellFormedTerm(ParseTerm(t).value)
              && t != [] && t[0] == ParseTerm(t).value.name[0]
  {
    if ParseTerm(t).Ok? {
      var name, prefix, star := ShapeOfParsedTerm(t);
      ParseTermOfShape(t, name, prefix, star);
      assert t[0] == name[0];
    } else if IsTerm(t) {
      var name, prefix, star :| TermShape(t, name, prefix, star);
      ParseTermOfShape(t, name, prefix, star);
    }
  }

  lemma {:induction false} TermsAccepted(raws: seq<Text>)
    ensures ParseTerms(raws).Ok? <==> forall t :: t in raws ==> IsTerm(t)
    ensures var r := ParseTerms(raws);
            r.Ok? ==> |r.value| == |raws| && forall t :: t in r.value ==> WellFormedTerm(t)
  {
    if raws != [] {
      TermAccepted(raws[0]);
      TermsAccepted(raws[1..]);
      assert forall t :: t in raws <==> t == raws[0] || t in raws[1..];
    }
  }

  // ---------- expressions ----------

  lemma ExpressionStart(op: Operator, list: Text)
    requires list != [] && (op.Simple? ==> OperatorOf(list[0]).Simple?)
    ensures var e := OperatorText(op) + list;
            e != [] && OperatorOf(e[0]) == op && ExpressionBody(e) == list
  {
    var e := OperatorText(op) + list;
    if op.Simple? {
      assert e == list;
    } else {
      assert e[1..] == list;
    }
  }

  lemma ParsedExpressionOfList(op: Operator, raws: seq<Text>)
    requires raws != [] && forall t :: t in raws ==> COMMA !in t
    requires raws[0] != [] && (op.Simple? ==> OperatorOf(raws[0][0]).Simple?)
    ensures var e := OperatorText(op) + Join(raws, [COMMA]);
            && e != []
            && ParsedExpression(e) == WithTerms(op, ParseTerms(raws))
  {
    var list := Join(raws, [COMMA]);
    var e := OperatorText(op) + list;
    JoinFirst(raws, [COMMA]);
    SplitOfJoin(raws, COMMA);
    ExpressionStart(op, list);
  }

  lemma ExpressionOfShape(e: Text, op: Operator, terms: seq<Text>)
    requires ExpressionShape(e, op, terms)
    ensures e != [] && ParsedExpression(e).Ok? && BraceFree(e)
  {
    forall t | t in terms
      ensures t != [] && COMMA !in t && BraceFree(t)
    {
      var name, prefix, star :| TermShape(t, name, prefix, star);
      TermContents(t, name, prefix, star);
    }
    var list := Join(terms, [COMMA]);
    assert terms[0] in terms;
    assert list[0] == terms[0][0];
    assert op.Simple? ==> e == list;
    ParsedExpressionOfList(op, terms);
    TermsAccepted(terms);
    forall c | c in e
      ensures c != LBRACE && c != RBRACE
    {
      if c in list { JoinElements(terms, [COMMA], c); }
    }
  }

  lemma FirstTerm(raws: seq<Text>)
    requires raws != [] && ParseTerms(raws).Ok?
    ensures var terms := ParseTerms(raws).value;
            && terms != [] && terms[0].name != [] && raws[0] != []
            && terms[0].name[0] == raws[0][0]
  {
    TermAccepted(raws[0]);
  }

  lemma ParsedExpressionShape(e: Text)
    requires ParsedExpression(e).Ok?
    ensures ExpressionShape(e, OperatorOf(e[0]), Split(ExpressionBody(e), COMMA))
  {
    hide IsTerm, Split, Join, ParseTerms;
    var body := ExpressionBody(e);
    JoinOfSplit(body, COMMA);
    TermsAccepted(Split(body, COMMA));
    assert e == OperatorText(OperatorOf(e[0])) + body;
  }

  lemma ParsedExpressionIsWellFormed(e: Text)
    requires ParsedExpression(e).Ok?
    ensures WellFormedExpression(ParsedExpression(e).value)
  {
    hide NameBytes, ParseTerms, Split, Join;
    var op, body := OperatorOf(e[0]), ExpressionBody(e);
    var raws := Split(body, COMMA);
    var terms := ParseTerms(raws).value;
    TermsAccepted(raws);
    FirstTerm(raws);
    JoinOfSplit(body, COMMA);
    JoinFirst(raws, [COMMA]);
    assert ParsedExpression(e).value == Expression(op, terms);
    assert PartOperator(Expression(op, terms)) == op;
  }

  /** parseExpression accepts exactly the expressions of the grammar. */
  lemma ExpressionAccepted(e: Text)
    ensures ParsedExpression(e).Ok? <==> IsExpression(e)
    ensures ParsedExpression(e).Ok? ==> WellFormedExpression(ParsedExpression(e).value) && BraceFree(e)
  {
    if ParsedExpression(e).Ok? {
      ParsedExpressionShape(e);
      ExpressionOfShape(e, OperatorOf(e[0]), Split(ExpressionBody(e), COMMA));
      ParsedExpressionIsWellFormed(e);
    } else if IsExpression(e) {
      var op, terms :| ExpressionShape(e, op, terms);
      ExpressionOfShape(e, op, terms);
    }
  }

  // ---------- templates ----------

  function ParsedAll(expressions: seq<Text>): (r: Result<seq<Part>>)
    ensures r.Ok? ==> |r.value| == |expressions|
  {
    if expressions == [] then Ok([])
    else match ParsedExpression(expressions[0]) {
      case Err(fault) => Err(fault)
      case Ok(p) => Prefixed([p], ParsedAll(expressions[1..]))
    }
  }

  function Interleave(literals: seq<Text>, expressions: seq<Part>): seq<Part>
    requires |literals| == |expressions| + 1
  {
    if expressions == [] then [Literal(literals[0])]
    else [Literal(literals[0]), expressions[0]] + Interleave(literals[1..], expressions[1..])
  }

  function Interleaved(literals: seq<Text>, r: Result<seq<Part>>): Result<seq<Part>>
    requires r.Ok? ==> |literals| == |r.value| + 1
  {
    match r
    case Err(fault) => Err(fault)
    case Ok(expressions) => Ok(Interleave(literals, expressions))
  }

  function Pieces(literals: seq<Text>, expressions: seq<Text>): seq<Text>
    requires |literals| == |expressions| + 1
  {
    if expressions == [] then []
    else [expressions[0] + [RBRACE] + literals[1]] + Pieces(literals[1..], expressions[1..])
  }

  lemma {:induction false} WeaveSplits(literals: seq<Text>, expressions: seq<Text>)
    requires |literals| == |expressions| + 1 && AllBraceFree(literals) && AllBraceFree(expressions)
    ensures Split(Weave(literals, expressions), LBRACE) == [literals[0]] + Pieces(literals, expressions)
  {
    if expressions == [] {
      SplitWithout(literals[0], LBRACE);
    } else {
      WeaveSplits(literals[1..], expressions[1..]);
      var tail := Weave(literals[1..], expressions[1..]);
      var front := expressions[0] + [RBRACE];
      SplitAtFirst(literals[0], LBRACE, front + tail);
      SplitPrefixed(front, tail, LBRACE);
      assert front + literals[1] == expressions[0] + [RBRACE] + literals[1];
    }
  }

  lemma {:induction false} SplitPrefixed(a: Text, b: Text, d: byte)
    requires d !in a
    ensures Split(a + b, d) == [a + Split(b, d)[0]] + Split(b, d)[1..]
  {
    if a == [] {
      assert a + b == b && a + Split(b, d)[0] == Split(b, d)[0];
    } else {
      SplitPrefixed(a[1..], b, d);
      assert (a + b)[1..] == a[1..] + b;
      assert [a[0]] + (a[1..] + Split(b, d)[0]) == a + Split(b, d)[0];
    }
  }

  lemma PieceOfWeave(expression: Text, literal: Text)
    requires BraceFree(expression) && BraceFree(literal)
    ensures Split(expression + [RBRACE] + literal, RBRACE) == [expression, literal]
  {
    SplitAtFirst(expression, RBRACE, literal);
    SplitWithout(literal, RBRACE);
  }

  /** One expression and the literal behind it, in front of pieces that are parsed already. */
  lemma PieceInterleaved(
    literal: Text, p: Part, literals: seq<Text>, pieces: Result<seq<Part>>, rest: Result<seq<Part>>)
    requires rest.Ok? ==> |literals| == |rest.value| + 1
    requires literals != [] && Prefixed([Literal(literals[0])], pieces) == Interleaved(literals, rest)
    ensures Prefixed([Literal(literal)], Prefixed([p, Literal(literals[0])], pieces)) ==
            Interleaved([literal] + literals, Prefixed([p], rest))
  {
    if rest.Ok? {
      var ps, all := rest.value, [literal] + literals;
      assert ([p] + ps)[1..] == ps && all[1..] == literals;
      assert Interleave(all, [p] + ps) == [Literal(literal), p] + Interleave(literals, ps);
      var tail := pieces.value;
      assert [Literal(literal)] + ([p, Literal(literals[0])] + tail)
          == [Literal(literal), p] + ([Literal(literals[0])] + tail);
    }
  }

  lemma {:induction false} ParsedPiecesOfWeave(literals: seq<Text>, expressions: seq<Text>)
    requires |literals| == |expressions| + 1 && AllBraceFree(literals) && AllBraceFree(expressions)
    ensures Prefixed([Literal(literals[0])], ParsedPieces(Pieces(literals, expressions))) ==
            Interleaved(literals, ParsedAll(expressions))
  {
    if expressions == [] {
      assert [Literal(literals[0])] + [] == [Literal(literals[0])];
    } else {
      ParsedPiecesOfWeave(literals[1..], expressions[1..]);
      PieceOfWeave(expressions[0], literals[1]);
      var pieces, rest := Pieces(literals, expressions), Pieces(literals[1..], expressions[1..]);
      assert pieces[1..] == rest && literals == [literals[0]] + literals[1..];
      var parsed := ParsedExpression(expressions[0]);
      hide ParsedExpression, Split, AllBraceFree, Pieces;
      if parsed.Ok? {
        PieceInterleaved(literals[0], parsed.value, literals[1..], ParsedPieces(rest), ParsedAll(expressions[1..]));
      }
    }
  }

  /** Parsing a weave of brace-free texts is parsing its expressions one by one. */
  lemma ParsedWeave(literals: seq<Text>, expressions: seq<Text>)
    requires |literals| == |expressions| + 1 && AllBraceFree(literals) && AllBraceFree(expressions)
    ensures Parsed(Weave(literals, expressions)) == Interleaved(literals, ParsedAll(expressions))
  {
    WeaveSplits(literals, expressions);
    ParsedPiecesOfWeave(literals, expressions);
    var split := [literals[0]] + Pieces(literals, expressions);
    assert split[0] == literals[0] && split[1..] == Pieces(literals, expressions);
  }

  lemma {:induction false} Unweave(first: Text, pieces: seq<Text>)
    returns (literals: seq<Text>, expressions: seq<Text>)
    decreases pieces
    requires BraceFree(first)
    requires forall s :: s in pieces ==> LBRACE !in s
    requires ParsedPieces(pieces).Ok?
    ensures TemplateShape(Join([first] + pieces, [LBRACE]), literals, expressions)
    ensures literals[0] == first && |expressions| == |pieces|
  {
    literals, expressions := [first], [];
    if pieces != [] {
      var subsplit := Split(pieces[0], RBRACE);
      JoinOfSplit(pieces[0], RBRACE);
      assert subsplit[1..] == [subsplit[1]];
      assert pieces[0] == subsplit[0] + [RBRACE] + subsplit[1];
      var ls, es := Unweave(subsplit[1], pieces[1..]);
      literals, expressions := [first] + ls, [subsplit[0]] + es;
      ExpressionAccepted(subsplit[0]);
      assert ([first] + pieces)[1..] == pieces;
      assert literals[1..] == ls && expressions[1..] == es;
      JoinFront(subsplit[0] + [RBRACE], subsplit[1], pieces[1..], [LBRACE]);
      assert [pieces[0]] + pieces[1..] == pieces;
    }
  }

  lemma JoinFront(a: Text, b: Text, rest: seq<Text>, sep: Text)
    ensures Join([a + b] + rest, sep) == a + Join([b] + rest, sep)
  {
    assert ([a + b] + rest)[1..] == rest == ([b] + rest)[1..];
  }

  lemma {:induction false} ParsedAllAccepted(expressions: seq<Text>)
    ensures ParsedAll(expressions).Ok? <==> forall e :: e in expressions ==> IsExpression(e)
    ensures var r := ParsedAll(expressions);
            r.Ok? ==> forall p :: p in r.value ==> WellFormedExpression(p)
  {
    if expressions != [] {
      ExpressionAccepted(expressions[0]);
      ParsedAllAccepted(expressions[1..]);
      assert forall e :: e in expressions <==> e == expressions[0] || e in expressions[1..];
    }
  }

  lemma {:induction false} InterleaveAlternates(literals: seq<Text>, expressions: seq<Part>)
    requires |literals| == |expressions| + 1
    requires AllBraceFree(literals)
    requires forall p :: p in expressions ==> WellFormedExpression(p)
    ensures Alternating(Interleave(literals, expressions))
    ensures |Interleave(literals, expressions)| == 2 * |expressions| + 1
  {
    if expressions != [] {
      InterleaveAlternates(literals[1..], expressions[1..]);
      var rest := Interleave(literals[1..], expressions[1..]);
      var parts := Interleave(literals, expressions);
      forall i | 0 <= i < |parts|
        ensures if i % 2 == 0 then WellFormedLiteral(parts[i]) else WellFormedExpression(parts[i])
      {
        if i >= 2 { assert parts[i] == rest[i - 2]; }
      }
    }
  }

  /** Parse succeeds exactly on the texts of the grammar: a template is brace-free
      literals around well-formed expressions, and nothing else. */
  lemma ParseAcceptsTemplates(raw: Text)
    ensures Parsed(raw).Ok? <==> IsTemplate(raw)
  {
    if Parsed(raw).Ok? {
      var split := Split(raw, LBRACE);
      JoinOfSplit(raw, LBRACE);
      assert split[0] in split;
      var literals, expressions := Unweave(split[0], split[1..]);
      assert [split[0]] + split[1..] == split;
    }
    if IsTemplate(raw) {
      var literals, expressions :| TemplateShape(raw, literals, expressions);
      ParsedAllAccepted(expressions);
      forall e | e in expressions ensures BraceFree(e) { ExpressionAccepted(e); }
      ParsedWeave(literals, expressions);
    }
  }

  /** With k opening braces the part list has length 2k + 1, literals at even places. */
  lemma ParsedAlternates(raw: Text)
    requires Parsed(raw).Ok?
    ensures Alternating(Parsed(raw).value) && WellFormed(Parsed(raw).value)
    ensures |Parsed(raw).value| == 2 * |Split(raw, LBRACE)| - 1
  {
    var split := Split(raw, LBRACE);
    JoinOfSplit(raw, LBRACE);
    assert split[0] in split;
    var literals, expressions := Unweave(split[0], split[1..]);
    assert [split[0]] + split[1..] == split;
    forall e | e in expressions ensures BraceFree(e) { ExpressionAccepted(e); }
    ParsedWeave(literals, expressions);
    ParsedAllAccepted(expressions);
    InterleaveAlternates(literals, ParsedAll(expressions).value);
  }

  // ---------- the printer ----------

  function PrintedInt(n: int): Text {
    if n < 0 then [MINUS] + Digits(-n) else Digits(n)
  }

  function PrintedTerm(t: Term): Text {
    t.name
    + (if t.truncate == 0 then [] else [COLON] + PrintedInt(t.truncate))
    + (if t.explode then [STAR] else [])
  }

  function PrintedTerms(terms: seq<Term>): (r: seq<Text>)
    ensures |r| == |terms| && forall i :: 0 <= i < |r| ==> r[i] == PrintedTerm(terms[i])
  {
    if terms == [] then [] else [PrintedTerm(terms[0])] + PrintedTerms(terms[1..])
  }

  function PrintedExpression(p: Part): Text {
    OperatorText(PartOperator(p)) + Join(PrintedTerms(p.terms), [COMMA])
  }

  function PrintedPart(p: Part): Text {
    if p.terms == [] then p.raw else [LBRACE] + PrintedExpression(p) + [RBRACE]
  }

  function Printed(parts: seq<Part>): Text {
    if parts == [] then [] else PrintedPart(parts[0]) + Printed(parts[1..])
  }

  lemma ParseIntOfPrinted(n: int)
    requires Int64(n)
    ensures ParseInt(PrintedInt(n)) == Some(n)
  {
    var t := PrintedInt(n);
    if n < 0 {
      assert t[1..] == Digits(-n);
      ValueOfDigits(-n);
    } else {
      ValueOfDigits(n);
      assert IsDigit(t[0]);
    }
  }

  lemma ParsedPrintedTerm(t: Term)
    requires WellFormedTerm(t)
    ensures ParseTerm(PrintedTerm(t)) == Ok(t)
    ensures PrintedTerm(t) != [] && PrintedTerm(t)[0] == t.name[0]
    ensures COMMA !in PrintedTerm(t) && BraceFree(PrintedTerm(t))
  {
    var prefix := if t.truncate == 0 then [] else [COLON] + PrintedInt(t.truncate);
    ParseIntOfPrinted(t.truncate);
    if t.truncate != 0 {
      assert prefix[1..] == PrintedInt(t.truncate);
    }
    assert TermShape(PrintedTerm(t), t.name, prefix, t.explode);
    ParseTermOfShape(PrintedTerm(t), t.name, prefix, t.explode);
    TermContents(PrintedTerm(t), t.name, prefix, t.explode);
  }

  lemma {:induction false} ParsedPrintedTerms(terms: seq<Term>)
    requires forall t :: t in terms ==> WellFormedTerm(t)
    ensures ParseTerms(PrintedTerms(terms)) == Ok(terms)
    ensures forall s :: s in PrintedTerms(terms) ==> COMMA !in s && BraceFree(s)
  {
    hide WellFormedTerm, ParseTerm, PrintedTerm;
    if terms != [] {
      ParsedPrintedTerm(terms[0]);
      ParsedPrintedTerms(terms[1..]);
      var printed, rest := PrintedTerms(terms), PrintedTerms(terms[1..]);
      assert printed[0] == PrintedTerm(terms[0]) && printed[1..] == rest;
      assert ParseTerms(printed) == Prefixed([terms[0]], ParseTerms(rest));
      assert [terms[0]] + terms[1..] == terms;
    }
  }

  lemma FirstNameByte(name: Text)
    requires ValidName(name)
    ensures name[0] == DOT || OperatorOf(name[0]).Simple?
  {
    NameContents(name);
    assert name[0] in name;
  }

  lemma ParsedPrintedList(op: Operator, terms: seq<Term>)
    requires terms != [] && forall t :: t in terms ==> WellFormedTerm(t)
    requires op.Simple? ==> !([DOT] <= terms[0].name)
    ensures var e := OperatorText(op) + Join(PrintedTerms(terms), [COMMA]);
            ParsedExpression(e) == Ok(Expression(op, terms)) && BraceFree(e)
  {
    ParsedPrintedTerms(terms);
    ParsedPrintedTerm(terms[0]);
    FirstNameByte(terms[0].name);
    assert PrintedTerms(terms)[0] == PrintedTerm(terms[0]);
    ParsedExpressionOfList(op, PrintedTerms(terms));
    ExpressionAccepted(OperatorText(op) + Join(PrintedTerms(terms), [COMMA]));
  }

  lemma ParsedPrintedExpression(p: Part)
    requires WellFormedExpression(p)
    ensures ParsedExpression(PrintedExpression(p)) == Ok(p) && BraceFree(PrintedExpression(p))
  {
    ParsedPrintedList(PartOperator(p), p.terms);
  }

  lemma Regroup(literal: Text, expression: Text, rest: Text)
    ensures literal + ([LBRACE] + expression + [RBRACE] + rest) ==
            literal + [LBRACE] + (expression + [RBRACE] + rest)
  {
  }

  lemma PrintedPair(parts: seq<Part>)
    requires |parts| >= 2 && parts[0].terms == [] && parts[1].terms != []
    ensures Printed(parts) ==
            parts[0].raw + [LBRACE] + (PrintedExpression(parts[1]) + [RBRACE] + Printed(parts[2..]))
  {
    var tail := parts[1..];
    assert tail[0] == parts[1] && tail[1..] == parts[2..];
    Regroup(parts[0].raw, PrintedExpression(parts[1]), Printed(parts[2..]));
  }

  lemma AlternatingStep(parts: seq<Part>)
    requires Alternating(parts)
    ensures parts[0] == Literal(parts[0].raw) && BraceFree(parts[0].raw)
    ensures |parts| == 1 ||
            (|parts| >= 3 && Alternating(parts[2..]) && parts[1].terms != []
             && ParsedExpression(PrintedExpression(parts[1])) == Ok(parts[1])
             && BraceFree(PrintedExpression(parts[1])))
  {
    hide NameBytes, Printed, PrintedExpression, ParsedExpression;
    assert WellFormedLiteral(parts[0]);
    if |parts| > 1 {
      var rest := parts[2..];
      assert forall i :: 0 <= i < |rest| ==> rest[i] == parts[i + 2];
      ParsedPrintedExpression(parts[1]);
    }
  }

  /** The printed text is a weave, and its expressions parse to those of the parts. */
  ghost predicate Woven(parts: seq<Part>, literals: seq<Text>, expressions: seq<Text>) {
    && |literals| == |expressions| + 1
    && AllBraceFree(literals) && AllBraceFree(expressions)
    && Printed(parts) == Weave(literals, expressions)
    && ParsedAll(expressions).Ok? && parts == Interleave(literals, ParsedAll(expressions).value)
  }

  lemma {:induction false} PrintedIsWoven(parts: seq<Part>)
    returns (literals: seq<Text>, expressions: seq<Text>)
    requires Alternating(parts)
    ensures Woven(parts, literals, expressions)
  {
    AlternatingStep(parts);
    if |parts| == 1 {
      literals, expressions := [parts[0].raw], [];
      assert parts[1..] == [];
      assert parts == [parts[0]];
    } else {
      var ls, es := PrintedIsWoven(parts[2..]);
      var p := parts[1];
      assert parts == [Literal(parts[0].raw), p] + parts[2..];
      WovenStep(parts[0].raw, p, parts[2..], ls, es);
      literals, expressions := [parts[0].raw] + ls, [PrintedExpression(p)] + es;
    }
  }

  lemma WovenStep(raw: Text, p: Part, rest: seq<Part>, ls: seq<Text>, es: seq<Text>)
    requires p.terms != [] && ParsedExpression(PrintedExpression(p)) == Ok(p)
    requires BraceFree(raw) && BraceFree(PrintedExpression(p)) && Woven(rest, ls, es)
    ensures Woven([Literal(raw), p] + rest, [raw] + ls, [PrintedExpression(p)] + es)
  {
    var parts, literals, expressions := [Literal(raw), p] + rest, [raw] + ls, [PrintedExpression(p)] + es;
    PrintedPair(parts);
    assert parts[2..] == rest && literals[1..] == ls && expressions[1..] == es;
    var ps := ParsedAll(es).value;
    assert ParsedAll(expressions) == Prefixed([p], Ok(ps));
    assert ([p] + ps)[1..] == ps;
  }

  /** Parse undoes the printer on every part list that Parse can return. */
  lemma ParseUndoesPrint(parts: seq<Part>)
    requires Alternating(parts)
    ensures Parsed(Printed(parts)) == Ok(parts)
  {
    var literals, expressions := PrintedIsWoven(parts);
    ParsedWeave(literals, expressions);
  }

  /** So the part lists that Parse returns are exactly the alternating well-formed ones. */
  lemma ParseImage(parts: seq<Part>)
    ensures Alternating(parts) <==> exists raw :: Parsed(raw) == Ok(parts)
  {
    if Alternating(parts) {
      ParseUndoesPrint(parts);
    }
    forall raw | Parsed(raw) == Ok(parts) ensures Alternating(parts) {
      ParsedAlternates(raw);
    }
  }

  /** The faulty inputs: which error, or the panic, is decided by the first bad piece. */
  lemma {:induction false} FirstBadPiece(pieces: seq<Text>, k: nat)
    requires k < |pieces|
    requires ParsedPieces(pieces[..k]).Ok?
    requires |Split(pieces[k], RBRACE)| != 2 || ParsedExpression(Split(pieces[k], RBRACE)[0]).Err?
    ensures ParsedPieces(pieces) ==
            if |Split(pieces[k], RBRACE)| != 2 then Err(MalformedTemplate)
            else Err(ParsedExpression(Split(pieces[k], RBRACE)[0]).fault)
  {
    hide Split, ParsedExpression;
    if k > 0 {
      assert pieces[..k][1..] == pieces[1..][..k - 1];
      FirstBadPiece(pieces[1..], k - 1);
    }
  }
}
