/** The syntax of templates with its bytes written out: names, numbers, modifiers,
    operators, braces, and the error each kind of wrong text gives. */
module Syntax {
  import opened Text
  import opened Templates
  import opened Parser
  import opened Grammar

  // ---------- names ----------

  predicate HexByte(c: byte) {
    0x30 <= c <= 0x39 || 0x41 <= c <= 0x46 || 0x61 <= c <= 0x66
  }

  /** A letter, a digit, an underscore or a dot; or a percent sign and two hexadecimal digits. */
  predicate NameUnit(s: Text) {
    if |s| == 1 then
      0x30 <= s[0] <= 0x39 || 0x41 <= s[0] <= 0x5A || 0x61 <= s[0] <= 0x7A || s[0] == 0x5F || s[0] == 0x2E
    else |s| == 3 && s[0] == 0x25 && HexByte(s[1]) && HexByte(s[2])
  }

  predicate NameUnits(units: seq<Text>) {
    units != [] && forall i :: 0 <= i < |units| ==> NameUnit(units[i])
  }

  lemma {:induction false} UnitsOfName(s: Text) returns (units: seq<Text>)
    requires NameBytes(s)
    ensures Join(units, []) == s && (s != [] ==> units != [])
    ensures forall i :: 0 <= i < |units| ==> NameUnit(units[i])
  {
    units := [];
    if s != [] {
      var n := if NameByte(s[0]) then 1 else 3;
      var rest := UnitsOfName(s[n..]);
      units := [s[..n]] + rest;
      assert units[1..] == rest && s == s[..n] + s[n..];
      assert s[..n] + [] + Join(rest, []) == s;
    }
  }

  lemma {:induction false} NameOfUnits(units: seq<Text>)
    requires forall i :: 0 <= i < |units| ==> NameUnit(units[i])
    ensures NameBytes(Join(units, [])) && (units != [] ==> Join(units, []) != [])
  {
    if units != [] {
      var rest := units[1..];
      NameOfUnits(rest);
      var s, n := Join(units, []), |units[0]|;
      assert NameUnit(units[0]);
      assert units[0] + [] + Join(rest, []) == units[0] + Join(rest, []);
      assert s == units[0] + Join(rest, []);
      assert s[n..] == Join(rest, []) && s[..n] == units[0];
      assert forall i :: 0 <= i < n ==> s[i] == units[0][i];
    }
  }

  lemma PlainTerm(s: Text)
    ensures ParseTerm(s) == Ok(Term(s, false, 0)) <==> ValidName(s)
  {
    if ValidName(s) {
      assert s + [] == s;
      assert TermShape(s, s, [], false);
      ParseTermOfShape(s, s, [], false);
    }
  }

  /** The terms that are just a name are exactly the non-empty sequences of name units. */
  lemma NamesAccepted(s: Text)
    ensures ParseTerm(s) == Ok(Term(s, false, 0)) <==> exists units :: NameUnits(units) && Join(units, []) == s
  {
    PlainTerm(s);
    if ValidName(s) {
      var units := UnitsOfName(s);
      assert NameUnits(units);
    }
    if units :| NameUnits(units) && Join(units, []) == s {
      NameOfUnits(units);
    }
  }

  /** The one-byte terms. */
  lemma OneByteTerms(c: byte)
    ensures ParseTerm([c]).Ok? <==>
            0x30 <= c <= 0x39 || 0x41 <= c <= 0x5A || 0x61 <= c <= 0x7A || c == 0x5F || c == 0x2E
    ensures ParseTerm([c]).Ok? ==> ParseTerm([c]) == Ok(Term([c], false, 0))
  {
    PlainTerm([c]);
    assert [c][1..] == [] && NameBytes([]);
    assert NameBytes([c]) <==> NameByte(c);
    if ParseTerm([c]).Ok? {
      var name, prefix, star := ShapeOfParsedTerm([c]);
      assert |name| + |prefix| <= 1;
      assert [c] == name;
    }
  }

  lemma TripletTerms(high: byte, low: byte)
    ensures ParseTerm([0x25, high, low]) == Ok(Term([0x25, high, low], false, 0)) <==> HexByte(high) && HexByte(low)
  {
    var s: Text := [0x25, high, low];
    PlainTerm(s);
    assert s[3..] == [] && NameBytes([]) && !NameByte(s[0]);
    assert NameBytes(s) <==> IsHex(high) && IsHex(low);
  }

  lemma NameConcat(a: Text, b: Text)
    requires ParseTerm(a) == Ok(Term(a, false, 0)) && ParseTerm(b) == Ok(Term(b, false, 0))
    ensures ParseTerm(a + b) == Ok(Term(a + b, false, 0))
  {
    PlainTerm(a);
    PlainTerm(b);
    PlainTerm(a + b);
    NameBytesConcat(a, b);
  }

  lemma {:induction false} NameBytesConcat(a: Text, b: Text)
    requires NameBytes(a) && NameBytes(b)
    ensures NameBytes(a + b)
  {
    if a == [] {
      assert a + b == b;
    } else if NameByte(a[0]) {
      NameBytesConcat(a[1..], b);
      assert (a + b)[1..] == a[1..] + b;
    } else {
      NameBytesConcat(a[3..], b);
      assert (a + b)[3..] == a[3..] + b;
    }
  }

  // ---------- numbers ----------

  /** A number of decimal digits, most significant first. */
  function Decimal(t: Text): int {
    if t == [] then 0 else 10 * Decimal(t[..|t| - 1]) + (t[|t| - 1] as int - 0x30)
  }

  predicate DecimalDigits(t: Text) {
    t != [] && forall i :: 0 <= i < |t| ==> 0x30 <= t[i] <= 0x39
  }

  lemma {:induction false} DecimalIsValue(t: Text)
    requires forall i :: 0 <= i < |t| ==> 0x30 <= t[i] <= 0x39
    ensures (forall c :: c in t ==> IsDigit(c)) && Decimal(t) == DigitsValue(t)
  {
    if t != [] {
      DecimalIsValue(t[..|t| - 1]);
    }
  }

  lemma ValueOfText(digits: Text)
    requires digits != [] && !exists c :: c in digits && !IsDigit(c)
    ensures DecimalDigits(digits) && DigitsValue(digits) == Decimal(digits)
  {
    assert forall i :: 0 <= i < |digits| ==> digits[i] in digits && IsDigit(digits[i]);
    DecimalIsValue(digits);
  }

  lemma NumberIsSigned(s: Text, n: int)
    requires ParseInt(s) == Some(n)
    ensures exists sign, digits :: SignedDecimal(s, sign, digits, n)
  {
    var signed := s[0] == PLUS || s[0] == MINUS;
    var sign, digits := if signed then [s[0]] else [], if signed then s[1..] else s;
    ValueOfText(digits);
    assert s == sign + digits;
    hide DecimalDigits, Decimal, DigitsValue, IsDigit;
    assert SignedDecimal(s, sign, digits, n);
  }

  lemma NumberFits(s: Text, n: int)
    requires ParseInt(s) == Some(n)
    ensures -0x8000_0000_0000_0000 <= n <= 0x7FFF_FFFF_FFFF_FFFF
  {
  }

  lemma SignedIsNumber(s: Text, sign: Text, digits: Text, n: int)
    requires SignedDecimal(s, sign, digits, n)
    ensures ParseInt(s) == if Int64(n) then Some(n) else None
  {
    DecimalIsValue(digits);
    hide Decimal, DigitsValue;
    if sign == [] {
      assert s == digits;
    } else {
      assert s[0] == sign[0] && s[1..] == digits;
    }
  }

  /** A prefix length is an optional plus or minus sign and decimal digits, leading zeros
      included, within 64 bits. */
  lemma NumbersAccepted(s: Text, n: int)
    ensures ParseInt(s) == Some(n) <==>
            && -0x8000_0000_0000_0000 <= n <= 0x7FFF_FFFF_FFFF_FFFF
            && exists sign, digits :: SignedDecimal(s, sign, digits, n)
  {
    if ParseInt(s) == Some(n) {
      NumberIsSigned(s, n);
      NumberFits(s, n);
    }
    hide SignedDecimal, ParseInt;
    if sign, digits :| SignedDecimal(s, sign, digits, n) {
      SignedIsNumber(s, sign, digits, n);
    }
  }

  predicate SignedDecimal(s: Text, sign: Text, digits: Text, n: int) {
    && s == sign + digits && DecimalDigits(digits)
    && (if sign == [0x2D] then n == -Decimal(digits) else (sign == [] || sign == [0x2B]) && n == Decimal(digits))
  }

  // ---------- modifiers, lists and operators ----------

  /** A star explodes; a colon and a number cut. A star and a positive number exclude each
      other, and so do two colons. */
  lemma Modifiers(name: Text, number: Text, n: int)
    requires ParseTerm(name) == Ok(Term(name, false, 0)) && ParseInt(number) == Some(n)
    ensures ParseTerm(name + [0x2A]) == Ok(Term(name, true, 0))
    ensures ParseTerm(name + [0x3A] + number) == Ok(Term(name, false, n))
    ensures if n > 0 then ParseTerm(name + [0x3A] + number + [0x2A]).Err?
            else ParseTerm(name + [0x3A] + number + [0x2A]) == Ok(Term(name, true, n))
  {
    PlainTerm(name);
    var prefix := [0x3A] + number;
    assert prefix[1..] == number;
    assert name + [] + [0x2A] == name + [0x2A] && name + prefix + [] == name + [0x3A] + number;
    assert name + prefix + [0x2A] == name + [0x3A] + number + [0x2A];
    ParseTermOfShape(name + [0x2A], name, [], true);
    ParseTermOfShape(name + [0x3A] + number, name, prefix, false);
    if n > 0 {
      StarredPrefix(name, number, n);
    } else {
      ParseTermOfShape(name + [0x3A] + number + [0x2A], name, prefix, true);
    }
  }

  lemma StarredPrefix(name: Text, number: Text, n: int)
    requires ValidName(name) && ParseInt(number) == Some(n) && n > 0
    ensures ParseTerm(name + [0x3A] + number + [0x2A]).Err?
  {
    var t := name + [0x3A] + number;
    assert (t + [0x2A])[..|t|] == t;
    NameContents(name);
    IntContents(number);
    SplitAtFirst(name, COLON, number);
    SplitWithout(number, COLON);
    assert Split(t, COLON) == [name, number];
  }

  lemma TwoColons(a: Text, b: Text, c: Text)
    requires COLON !in a && COLON !in b && COLON !in c && STAR !in c
    ensures ParseTerm(a + [0x3A] + (b + [0x3A] + c)).Err?
  {
    var t := a + [0x3A] + (b + [0x3A] + c);
    SplitAtFirst(a, COLON, b + [COLON] + c);
    SplitAtFirst(b, COLON, c);
    SplitWithout(c, COLON);
    assert Split(t, COLON) == [a] + ([b] + [c]);
    assert t[|t| - 1] == if c == [] then COLON else c[|c| - 1];
  }

  /** The fields that the operators set. */
  lemma OperatorFields(terms: seq<Term>)
    ensures Expression(Simple, terms) == Part([], terms, [], [0x2C], false, [], false)
    ensures Expression(Plus, terms) == Part([], terms, [], [0x2C], false, [], true)
    ensures Expression(Dot, terms) == Part([], terms, [0x2E], [0x2E], false, [], false)
    ensures Expression(Slash, terms) == Part([], terms, [0x2F], [0x2F], false, [], false)
    ensures Expression(Semi, terms) == Part([], terms, [0x3B], [0x3B], true, [], false)
    ensures Expression(Query, terms) == Part([], terms, [0x3F], [0x26], true, [0x3D], false)
    ensures Expression(Amp, terms) == Part([], terms, [0x26], [0x26], true, [0x3D], false)
    ensures Expression(Hash, terms) == Part([], terms, [0x23], [0x2C], false, [], true)
  {
  }

  /** Every operator by its byte; without one of these bytes the expression is simple. */
  lemma Operators(list: Text)
    ensures var r := ParseTerms(Split(list, 0x2C));
            && ParsedExpression([0x2B] + list) == WithTerms(Plus, r)
            && ParsedExpression([0x2E] + list) == WithTerms(Dot, r)
            && ParsedExpression([0x2F] + list) == WithTerms(Slash, r)
            && ParsedExpression([0x3B] + list) == WithTerms(Semi, r)
            && ParsedExpression([0x3F] + list) == WithTerms(Query, r)
            && ParsedExpression([0x26] + list) == WithTerms(Amp, r)
            && ParsedExpression([0x23] + list) == WithTerms(Hash, r)
    ensures list != [] && list[0] !in {0x2B, 0x2E, 0x2F, 0x3B, 0x3F, 0x26, 0x23} ==>
              ParsedExpression(list) == WithTerms(Simple, ParseTerms(Split(list, 0x2C)))
  {
    hide ParsedExpression, ParseTerms, Split, WithTerms;
    OperatorAnd(Plus, 0x2B, list);
    OperatorAnd(Dot, 0x2E, list);
    OperatorAnd(Slash, 0x2F, list);
    OperatorAnd(Semi, 0x3B, list);
    OperatorAnd(Query, 0x3F, list);
    OperatorAnd(Amp, 0x26, list);
    OperatorAnd(Hash, 0x23, list);
    if list != [] && OperatorOf(list[0]).Simple? {
      BodyOfSimple(list);
    }
  }

  lemma BodyOfSimple(list: Text)
    requires list != [] && OperatorOf(list[0]).Simple?
    ensures ParsedExpression(list) == WithTerms(Simple, ParseTerms(Split(list, COMMA)))
  {
  }

  lemma OperatorAnd(op: Operator, c: byte, list: Text)
    requires OperatorText(op) == [c]
    ensures ParsedExpression([c] + list) == WithTerms(op, ParseTerms(Split(list, COMMA)))
  {
    assert ([c] + list)[1..] == list;
    assert OperatorOf(c) == op;
  }

  /** A term without a comma is a list of one. */
  lemma OneTermList(term: Text, t: Term)
    requires 0x2C !in term && ParseTerm(term) == Ok(t)
    ensures ParseTerms(Split(term, 0x2C)) == Ok([t])
  {
    SplitWithout(term, 0x2C);
    assert [term][1..] == [];
    assert [t] + [] == [t];
  }

  /** Terms are separated by commas. */
  lemma TermLists(term: Text, more: Text, t: Term, rest: seq<Term>)
    requires 0x2C !in term && ParseTerm(term) == Ok(t) && ParseTerms(Split(more, 0x2C)) == Ok(rest)
    ensures ParseTerms(Split(term + [0x2C] + more, 0x2C)) == Ok([t] + rest)
  {
    SplitAtFirst(term, 0x2C, more);
    var all := [term] + Split(more, 0x2C);
    assert all[1..] == Split(more, 0x2C);
  }

  // ---------- braces and faults ----------

  /** One expression between literals. */
  lemma OneExpression(before: Text, e: Text, after: Text)
    requires BraceFree(before) && BraceFree(e) && BraceFree(after)
    ensures var r := ParsedExpression(e);
            Parsed(before + [0x7B] + e + [0x7D] + after) ==
            if r.Err? then Err(r.fault) else Ok([Literal(before), r.value, Literal(after)])
  {
    var literals, expressions := [before, after], [e];
    assert literals[1..] == [after] && expressions[1..] == [];
    assert Weave(literals, expressions) == before + [LBRACE] + (e + [RBRACE] + after);
    assert before + [0x7B] + e + [0x7D] + after == before + [LBRACE] + (e + [RBRACE] + after);
    ParsedWeave(literals, expressions);
    var r := ParsedExpression(e);
    hide ParsedExpression, Parsed;
    if r.Ok? {
      var q := r.value;
      assert [q] + [] == [q] && ParsedAll(expressions) == Ok([q]);
      assert Interleave(literals, [q]) == [Literal(before), q, Literal(after)];
    }
  }

  /** Without expressions a template is one literal. */
  lemma NoExpression(text: Text)
    requires 0x7B !in text && 0x7D !in text
    ensures Parsed(text) == Ok([Literal(text)])
  {
    SplitWithout(text, LBRACE);
    assert [text][1..] == [];
    assert [Literal(text)] + [] == [Literal(text)];
  }

  /** The faults of one expression: nothing between the braces, or a bad term. */
  lemma ExpressionFaults(e: Text)
    ensures ParsedExpression(e) == Err(EmptyExpression) <==> e == []
    ensures ParsedExpression(e).Err? && e != [] ==> ParsedExpression(e).fault.InvalidTerm?
  {
    if e != [] {
      TermFaultsAreTerms(Split(ExpressionBody(e), COMMA));
    }
  }

  lemma {:induction false} TermFaultsAreTerms(raws: seq<Text>)
    ensures ParseTerms(raws).Err? ==> ParseTerms(raws).fault.InvalidTerm? && ParseTerms(raws).fault.text in raws
  {
    if raws != [] {
      TermFaultsAreTerms(raws[1..]);
    }
  }

  /** Which fault a template gives: a closing brace before any opening one; else that of
      the first piece behind an opening brace that is not closed exactly once, or whose
      expression is wrong. */
  lemma TemplateFaults(first: Text, pieces: seq<Text>, k: nat)
    requires 0x7B !in first && forall i :: 0 <= i < |pieces| ==> 0x7B !in pieces[i]
    ensures var raw := Join([first] + pieces, [0x7B]);
            && (0x7D in first ==> Parsed(raw) == Err(UnexpectedBrace))
            && (0x7D !in first && k < |pieces| && ParsedPieces(pieces[..k]).Ok? ==>
                  var parts := Split(pieces[k], 0x7D);
                  && (|parts| != 2 ==> Parsed(raw) == Err(MalformedTemplate))
                  && (|parts| == 2 && ParsedExpression(parts[0]).Err? ==>
                        Parsed(raw) == Err(ParsedExpression(parts[0]).fault)))
  {
    var all := [first] + pieces;
    SplitOfJoin(all, LBRACE);
    assert all[1..] == pieces;
    hide ParsedExpression, ParsedPieces, Join;
    if 0x7D !in first && k < |pieces| && ParsedPieces(pieces[..k]).Ok? {
      var parts := Split(pieces[k], RBRACE);
      if |parts| != 2 || ParsedExpression(parts[0]).Err? {
        FirstBadPiece(pieces, k);
      }
    }
  }
}
