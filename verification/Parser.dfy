/** Parsing of URI templates: what the code reads, as functions, and the code. */
module Parser {
  import opened Text
  import opened Templates

  // ---------- terms ----------

  /** strconv.ParseInt(s, 10, 0) on a 64-bit platform; None is any error. */
  function ParseInt(s: Text): Option<int> {
    var signed := s != [] && (s[0] == PLUS || s[0] == MINUS);
    var digits := if signed then s[1..] else s;
    if digits == [] || exists c :: c in digits && !IsDigit(c) then None
    else
      var n: int := DigitsValue(digits);
      var v := if s[0] == MINUS then -n else n;
      if Int64(v) then Some(v) else None
  }

  /** The name and the prefix length; more than one colon leaves the name empty. */
  function NameAndPrefix(term: Text): (Text, Option<int>) {
    var split := Split(term, COLON);
    if |split| == 1 then (term, Some(0))
    else if |split| == 2 then (split[0], ParseInt(split[1]))
    else ([], Some(0))
  }

  function ParseTerm(raw: Text): Result<Term> {
    var explode := raw != [] && raw[|raw| - 1] == STAR;
    var term := if explode then raw[..|raw| - 1] else raw;
    var (name, truncate) := NameAndPrefix(term);
    if truncate.None? || !ValidName(name) || (explode && truncate.value > 0) then
      Err(InvalidTerm(raw))
    else
      Ok(Term(name, explode, truncate.value))
  }

  function ParseTerms(raws: seq<Text>): Result<seq<Term>> {
    if raws == [] then Ok([])
    else match ParseTerm(raws[0]) {
      case Err(fault) => Err(fault)
      case Ok(term) => Prefixed([term], ParseTerms(raws[1..]))
    }
  }

  // ---------- expressions and templates, as functions ----------

  function ExpressionBody(text: Text): Text
    requires text != []
  {
    if OperatorOf(text[0]).Simple? then text else text[1..]
  }

  function ParsedExpression(text: Text): Result<Part> {
    if text == [] then Err(EmptyExpression)
    else WithTerms(OperatorOf(text[0]), ParseTerms(Split(ExpressionBody(text), COMMA)))
  }

  function WithTerms(op: Operator, r: Result<seq<Term>>): Result<Part> {
    match r
    case Err(fault) => Err(fault)
    case Ok(terms) => Ok(Expression(op, terms))
  }

  /** A piece behind an opening brace gives an expression and the literal after it. */
  function ParsedPiece(piece: Text): Result<seq<Part>> {
    var subsplit := Split(piece, RBRACE);
    if |subsplit| != 2 then Err(MalformedTemplate)
    else match ParsedExpression(subsplit[0]) {
      case Err(fault) => Err(fault)
      case Ok(p) => Ok([p, Literal(subsplit[1])])
    }
  }

  function ParsedPieces(pieces: seq<Text>): Result<seq<Part>> {
    if pieces == [] then Ok([])
    else match ParsedPiece(pieces[0]) {
      case Err(fault) => Err(fault)
      case Ok(pair) => Prefixed(pair, ParsedPieces(pieces[1..]))
    }
  }

  function Parsed(raw: Text): Result<seq<Part>> {
    var split := Split(raw, LBRACE);
    if RBRACE in split[0] then Err(UnexpectedBrace)
    else Prefixed([Literal(split[0])], ParsedPieces(split[1..]))
  }

  // ---------- the code ----------

  const NO_TERM := Term([], false, 0)

  method ParseExpression(text: Text) returns (result: Result<Part>)
    ensures result == ParsedExpression(text)
  {
    if text == [] {
      return Err(EmptyExpression);
    }
    var rawterms := Split(ExpressionBody(text), COMMA);
    var terms := new Term[|rawterms|](_ => NO_TERM);
    assert rawterms[0..] == rawterms && terms[..0] == [];
    PrefixedEmpty(ParseTerms(rawterms));
    for i := 0 to |rawterms|
      invariant ParseTerms(rawterms) == Prefixed(terms[..i], ParseTerms(rawterms[i..]))
    {
      var parsed := ParseTerm(rawterms[i]);
      assert rawterms[i..][1..] == rawterms[i + 1..];
      if parsed.Err? {
        return Err(parsed.fault);
      }
      PrefixedTwice(terms[..i], [parsed.value], ParseTerms(rawterms[i + 1..]));
      terms[i] := parsed.value;
      assert terms[..i + 1] == terms[..i] + [parsed.value];
    }
    assert terms[..] == terms[..|rawterms|] + [];
    return Ok(Expression(OperatorOf(text[0]), terms[..]));
  }

  lemma PieceStep(done: seq<Part>, split: seq<Text>, i: nat)
    requires i < |split|
    ensures var subsplit, r := Split(split[i], RBRACE), Prefixed(done, ParsedPieces(split[i..]));
            if |subsplit| != 2 then r == Err(MalformedTemplate)
            else
              var p := ParsedExpression(subsplit[0]);
              if p.Err? then r == Err(p.fault)
              else r == Prefixed(done + [p.value, Literal(subsplit[1])], ParsedPieces(split[i + 1..]))
  {
    assert split[i..][1..] == split[i + 1..];
    if ParsedPiece(split[i]).Ok? {
      PrefixedTwice(done, ParsedPiece(split[i]).value, ParsedPieces(split[i + 1..]));
    }
  }

  lemma PutTwo<T>(s: seq<T>, k: nat, x: T, y: T)
    requires k + 1 < |s|
    ensures s[k := x][k + 1 := y][..k + 2] == s[..k] + [x, y]
  {
  }

  method Parse(raw: Text) returns (result: Result<seq<Part>>)
    ensures result == Parsed(raw)
  {
    var split := Split(raw, LBRACE);
    var parts := new Part[2 * |split| - 1](_ => Literal([]));
    if RBRACE in split[0] {
      return Err(UnexpectedBrace);
    }
    parts[0] := Literal(split[0]);
    ghost var parsed, done := Parsed(raw), [Literal(split[0])];
    for i := 1 to |split|
      invariant |done| == 2 * i - 1 && parts[..][..|done|] == done
      invariant parsed == Prefixed(done, ParsedPieces(split[i..]))
    {
      PieceStep(done, split, i);
      hide *;
      var subsplit := Split(split[i], RBRACE);
      if |subsplit| != 2 {
        return Err(MalformedTemplate);
      }
      var expression := ParseExpression(subsplit[0]);
      if expression.Err? {
        return Err(expression.fault);
      }
      PutTwo(parts[..], |done|, expression.value, Literal(subsplit[1]));
      parts[2 * i - 1] := expression.value;
      parts[2 * i] := Literal(subsplit[1]);
      done := done + [expression.value, Literal(subsplit[1])];
    }
    assert parts[..] == done + [];
    return Ok(parts[..]);
  }
}
