/** The parsed form of a URI template, and the values it is expanded with. */
module Templates {
  import opened Text

  /** What can go wrong. EmptyExpression stands for the run-time panic that indexing
      the empty expression "{}" causes; the other faults are returned errors. The
      messages about one malformed term are not told apart. */
  datatype Fault =
    | UnexpectedBrace
    | MalformedTemplate
    | InvalidTerm(text: Text)
    | EmptyExpression
    | TruncatedMap

  datatype Result<+T> = Ok(value: T) | Err(fault: Fault)

  /** Puts a prefix before a successful list. */
  function Prefixed<T>(before: seq<T>, r: Result<seq<T>>): Result<seq<T>> {
    match r
    case Err(fault) => Err(fault)
    case Ok(rest) => Ok(before + rest)
  }

  lemma PrefixedTwice<T>(a: seq<T>, b: seq<T>, r: Result<seq<T>>)
    ensures Prefixed(a, Prefixed(b, r)) == Prefixed(a + b, r)
  {
    if r.Ok? {
      assert a + (b + r.value) == (a + b) + r.value;
    }
  }

  lemma PrefixedEmpty<T>(r: Result<seq<T>>)
    ensures Prefixed([], r) == r
  {
    if r.Ok? {
      assert [] + r.value == r.value;
    }
  }

  datatype Term = Term(name: Text, explode: bool, truncate: int)

  /** A literal (no terms) or an expression (no raw text). */
  datatype Part = Part(
    raw: Text,
    terms: seq<Term>,
    first: Text,
    sep: Text,
    named: bool,
    ifemp: Text,
    allowReserved: bool)

  function Literal(raw: Text): Part {
    Part(raw, [], [], [], false, [], false)
  }

  /** The separator of an expression, which is one byte. */
  function Mark(p: Part): byte {
    if p.sep == [] then COMMA else p.sep[0]
  }

  datatype Operator = Simple | Plus | Dot | Slash | Semi | Query | Amp | Hash

  /** The operator switch: the fields every operator sets. */
  function Expression(op: Operator, terms: seq<Term>): Part {
    match op
    case Simple => Part([], terms, [], [COMMA], false, [], false)
    case Plus => Part([], terms, [], [COMMA], false, [], true)
    case Dot => Part([], terms, [DOT], [DOT], false, [], false)
    case Slash => Part([], terms, [SLASH], [SLASH], false, [], false)
    case Semi => Part([], terms, [SEMI], [SEMI], true, [], false)
    case Query => Part([], terms, [QUERY], [AMP], true, [EQUALS], false)
    case Amp => Part([], terms, [AMP], [AMP], true, [EQUALS], false)
    case Hash => Part([], terms, [HASH], [COMMA], false, [], true)
  }

  function OperatorOf(c: byte): Operator {
    if c == PLUS then Plus
    else if c == DOT then Dot
    else if c == SLASH then Slash
    else if c == SEMI then Semi
    else if c == QUERY then Query
    else if c == AMP then Amp
    else if c == HASH then Hash
    else Simple
  }

  function OperatorText(op: Operator): Text {
    match op
    case Simple => []
    case Plus => [PLUS]
    case Dot => [DOT]
    case Slash => [SLASH]
    case Semi => [SEMI]
    case Query => [QUERY]
    case Amp => [AMP]
    case Hash => [HASH]
  }

  /** The operator an expression was parsed with, read back from its fields. */
  function PartOperator(p: Part): Operator {
    if p.first != [] then OperatorOf(p.first[0])
    else if p.allowReserved then Plus
    else Simple
  }

  /** A map lists its pairs in the order one iteration visits them. */
  datatype Value = Str(text: Text) | List(items: seq<Text>) | Map(pairs: seq<(Text, Text)>)

  type Values = map<Text, Value>

  // ---------- well-formed parts ----------

  predicate NameByte(c: byte) {
    IsAlpha(c) || IsDigit(c) || c == 0x5F || c == DOT
  }

  predicate NameBytes(s: Text) {
    s == []
    || (NameByte(s[0]) && NameBytes(s[1..]))
    || (|s| >= 3 && s[0] == PERCENT && IsHex(s[1]) && IsHex(s[2]) && NameBytes(s[3..]))
  }

  /** The validname pattern. */
  predicate ValidName(s: Text) {
    s != [] && NameBytes(s)
  }

  lemma {:induction false} NameContents(s: Text)
    requires NameBytes(s)
    ensures forall c :: c in s ==> NameByte(c) || c == PERCENT
  {
    if s != [] {
      assert forall c :: c in s ==> c == s[0] || c in s[1..];
      if NameByte(s[0]) {
        NameContents(s[1..]);
      } else {
        NameContents(s[3..]);
        assert s == s[..3] + s[3..];
        assert s[..3] == [s[0], s[1], s[2]];
      }
    }
  }

  predicate Int64(n: int) { -0x8000_0000_0000_0000 <= n <= 0x7FFF_FFFF_FFFF_FFFF }

  predicate WellFormedTerm(t: Term) {
    ValidName(t.name) && Int64(t.truncate) && !(t.explode && t.truncate > 0)
  }

  predicate WellFormedLiteral(p: Part) {
    p == Literal(p.raw) && BraceFree(p.raw)
  }

  /** A name may begin with a dot, but not directly after the brace. */
  predicate WellFormedExpression(p: Part) {
    && p == Expression(PartOperator(p), p.terms)
    && p.terms != []
    && (forall t :: t in p.terms ==> WellFormedTerm(t))
    && (PartOperator(p).Simple? ==> !([DOT] <= p.terms[0].name))
  }

  predicate WellFormedPart(p: Part) {
    WellFormedLiteral(p) || WellFormedExpression(p)
  }

  predicate WellFormed(parts: seq<Part>) {
    forall p :: p in parts ==> WellFormedPart(p)
  }
}
