/** RFC 6570 as a reference: section 3 and the table and algorithm of Appendix A; and
    exactly where the code agrees with them. */
module Rfc6570 {
  import opened Text
  import opened Escaping
  import opened Templates
  import opened Expansion
  import opened Renderings
  import opened PartialExpansion

  // ---------- the reference ----------

  /** One column of the table in Appendix A. */
  datatype Row = Row(first: Text, sep: Text, named: bool, ifemp: Text, allowReserved: bool)

  function AppendixA(op: Operator): Row {
    match op
    case Simple => Row([], [COMMA], false, [], false)
    case Plus => Row([], [COMMA], false, [], true)
    case Dot => Row([DOT], [DOT], false, [], false)
    case Slash => Row([SLASH], [SLASH], false, [], false)
    case Semi => Row([SEMI], [SEMI], true, [], false)
    case Query => Row([QUERY], [AMP], true, [EQUALS], false)
    case Amp => Row([AMP], [AMP], true, [EQUALS], false)
    case Hash => Row([HASH], [COMMA], false, [], true)
  }

  predicate TripletAt(s: Text, i: nat) {
    i + 2 < |s| && s[i] == PERCENT && IsHex(s[i + 1]) && IsHex(s[i + 2])
  }

  /** Section 3.2.1: where reserved characters are allowed, so are triplets already encoded. */
  function Encoded(s: Text, allowReserved: bool): Text {
    if s == [] then []
    else if allowReserved && TripletAt(s, 0) then s[..3] + Encoded(s[3..], allowReserved)
    else EscapedByte(s[0], allowReserved) + Encoded(s[1..], allowReserved)
  }

  /** A name with its value; the form of an empty value is the operator's. */
  function WithName(row: Row, name: Text, value: Text): Text {
    name + if value == [] then row.ifemp else [EQUALS] + value
  }

  /** The bytes of UTF-8 that do not begin a character. */
  predicate Continuation(c: byte) {
    0x80 <= c < 0xC0
  }

  function Characters(s: Text, n: nat): Text {
    if s == [] then []
    else if Continuation(s[0]) then [s[0]] + Characters(s[1..], n)
    else if n == 0 then []
    else [s[0]] + Characters(s[1..], n - 1)
  }

  /** Section 2.4.1: the prefix modifier counts characters. */
  function Prefix(s: Text, n: int): Text {
    if n > 0 then Characters(s, n) else s
  }

  function MemberText(row: Row, term: Term, item: Text): Text {
    var value := Encoded(item, row.allowReserved);
    if term.explode && row.named then WithName(row, term.name, value) else value
  }

  /** The names of exploded pairs are encoded like literals when the operator is named. */
  function MemberPair(row: Row, term: Term, pair: (Text, Text)): Text {
    var value := Encoded(pair.1, row.allowReserved);
    if term.explode && row.named then WithName(row, Encoded(pair.0, true), value)
    else Encoded(pair.0, row.allowReserved) + [if term.explode then EQUALS else COMMA] + value
  }

  function MemberTexts(row: Row, term: Term, items: seq<Text>): (r: seq<Text>)
    ensures |r| == |items|
  {
    if items == [] then [] else [MemberText(row, term, items[0])] + MemberTexts(row, term, items[1..])
  }

  function MemberPairs(row: Row, term: Term, pairs: seq<(Text, Text)>): (r: seq<Text>)
    ensures |r| == |pairs|
  {
    if pairs == [] then [] else [MemberPair(row, term, pairs[0])] + MemberPairs(row, term, pairs[1..])
  }

  /** Section 2.3: an empty list or map is undefined; an empty string is not. */
  predicate Defined(v: Value) {
    v != List([]) && v != Map([])
  }

  function ReferenceValue(row: Row, term: Term, v: Value): Text
    requires Defined(v)
  {
    var prefix := if row.named && !term.explode then term.name + [EQUALS] else [];
    var sep := if term.explode then row.sep else [COMMA];
    match v
    case Str(s) =>
      var value := Encoded(Prefix(s, term.truncate), row.allowReserved);
      if row.named then WithName(row, term.name, value) else value
    case List(items) => prefix + Join(MemberTexts(row, term, items), sep)
    case Map(pairs) => prefix + Join(MemberPairs(row, term, pairs), sep)
  }

  function ReferenceTexts(row: Row, terms: seq<Term>, values: Values): seq<Text> {
    if terms == [] then []
    else
      var name, rest := terms[0].name, ReferenceTexts(row, terms[1..], values);
      if name in values && Defined(values[name]) then [ReferenceValue(row, terms[0], values[name])] + rest
      else rest
  }

  /** Section 3.2.1: nothing when no variable is defined; otherwise the first string and
      the defined variables joined by the separator. */
  function JoinRule(first: Text, sep: Text, texts: seq<Text>): Text {
    if texts == [] then [] else first + Join(texts, sep)
  }

  function ReferenceExpression(op: Operator, terms: seq<Term>, values: Values): Text {
    var row := AppendixA(op);
    JoinRule(row.first, row.sep, ReferenceTexts(row, terms, values))
  }

  /** Section 3.1: literals are copied, except that what may not stand in a URI is encoded. */
  function ReferencePart(p: Part, values: Values): Text {
    if p.terms == [] then Encoded(p.raw, true)
    else ReferenceExpression(PartOperator(p), p.terms, values)
  }

  function ReferenceText(parts: seq<Part>, values: Values): Text {
    if parts == [] then [] else ReferencePart(parts[0], values) + ReferenceText(parts[1..], values)
  }

  lemma TableAgrees(op: Operator, terms: seq<Term>)
    ensures var p, row := Expression(op, terms), AppendixA(op);
            && p.first == row.first && p.sep == row.sep && p.named == row.named
            && p.ifemp == row.ifemp && p.allowReserved == row.allowReserved
  {
  }

  // ---------- encoding ----------

  predicate HasTriplet(s: Text) {
    exists i :: 0 <= i < |s| && TripletAt(s, i)
  }

  lemma TripletStep(s: Text)
    requires s != []
    ensures HasTriplet(s) <==> TripletAt(s, 0) || HasTriplet(s[1..])
  {
    assert forall i :: 0 <= i < |s| - 1 ==> (TripletAt(s[1..], i) <==> TripletAt(s, i + 1));
    if HasTriplet(s) && !TripletAt(s, 0) {
      var i :| 0 <= i < |s| && TripletAt(s, i);
      assert TripletAt(s[1..], i - 1);
    }
    if HasTriplet(s[1..]) {
      var i :| 0 <= i < |s[1..]| && TripletAt(s[1..], i);
      assert TripletAt(s, i + 1);
    }
  }

  /** The engine never encodes less than the reference, and agrees with it exactly when
      reserved characters need no triplet passed through (for mode: the one given to
      escape; the reference in mode true leaves reserved characters alone). */
  lemma {:induction false} EncodingAgrees(s: Text, mode: bool)
    ensures |Encoded(s, true)| <= |Escaped(s, mode)|
    ensures Encoded(s, true) == Escaped(s, mode) <==> !HasTriplet(s) && (mode || !HasReserved(s))
    ensures Encoded(s, false) == Escaped(s, false)
    decreases |s|
  {
    if s != [] {
      TripletStep(s);
      ReservedStep(s);
      EncodingAgrees(s[1..], mode);
      if TripletAt(s, 0) {
        EncodingAgrees(s[3..], mode);
        EscapedTriplet(s, mode);
      } else {
        var a, b := EscapedByte(s[0], true), EscapedByte(s[0], mode);
        SamePieces(a, Encoded(s[1..], true), b, Escaped(s[1..], mode));
      }
    }
  }

  lemma EscapedTriplet(s: Text, mode: bool)
    requires TripletAt(s, 0)
    ensures Escaped(s, mode) == Triplet(PERCENT) + ([s[1], s[2]] + Escaped(s[3..], mode))
  {
    assert s[1..][0] == s[1] && s[1..][1..][0] == s[2] && s[1..][1..][1..] == s[3..];
    HexAllowed(s[1], mode);
    HexAllowed(s[2], mode);
    hide Triplet;
    assert Escaped(s[1..][1..], mode) == [s[2]] + Escaped(s[3..], mode);
    assert Escaped(s[1..], mode) == [s[1]] + ([s[2]] + Escaped(s[3..], mode));
  }

  lemma HexAllowed(c: byte, mode: bool)
    requires IsHex(c)
    ensures EscapedByte(c, mode) == [c]
  {
  }

  /** What section 3.1 copies unchanged. */
  predicate UriText(s: Text) {
    s == [] || (TripletAt(s, 0) && UriText(s[3..])) || (Allowed(s[0], true) && UriText(s[1..]))
  }

  lemma {:induction false} LiteralAgrees(s: Text)
    ensures |Encoded(s, true)| >= |s|
    ensures Encoded(s, true) == s <==> UriText(s)
    decreases |s|
  {
    if s != [] {
      if TripletAt(s, 0) {
        LiteralAgrees(s[3..]);
        assert s == s[..3] + s[3..];
        assert s[0] == PERCENT && !Allowed(s[0], true);
      } else {
        LiteralAgrees(s[1..]);
        assert s == [s[0]] + s[1..];
        var a := EscapedByte(s[0], true);
        SamePieces([s[0]], s[1..], a, Encoded(s[1..], true));
        assert a == [s[0]] <==> Allowed(s[0], true);
      }
    }
  }

  // ---------- prefixes ----------

  /** Cutting bytes is cutting characters: nothing is cut, or no character of more than
      one byte is reached. */
  predicate CutsAgree(s: Text, n: int) {
    n <= 0 || |s| <= n || forall i :: 0 <= i <= n ==> !Continuation(s[i])
  }

  lemma {:induction false} CharactersAgree(s: Text, n: nat)
    ensures Characters(s, n) <= s
    ensures if |s| <= n then Characters(s, n) == s else n <= |Characters(s, n)|
    ensures |s| > n ==> (|Characters(s, n)| == n <==> forall i :: 0 <= i <= n ==> !Continuation(s[i]))
  {
    if s != [] {
      assert s == [s[0]] + s[1..];
      assert forall i :: 1 <= i < |s| ==> s[i] == s[1..][i - 1];
      if Continuation(s[0]) {
        CharactersAgree(s[1..], n);
      } else if n > 0 {
        CharactersAgree(s[1..], n - 1);
      }
    }
  }

  /** The engine never keeps more of a value than its prefix, and the same exactly when
      the cuts agree. */
  lemma PrefixAgrees(s: Text, n: int)
    ensures Truncated(s, n) <= Prefix(s, n)
    ensures Truncated(s, n) == Prefix(s, n) <==> CutsAgree(s, n)
    ensures Truncated(s, n) == [] <==> Prefix(s, n) == []
  {
    if n > 0 {
      CharactersAgree(s, n);
    }
  }

  /** "2525...": what encoding the percent sign of "%25" again and again adds. */
  predicate Alternates(s: Text) {
    forall i :: 0 <= i < |s| ==> s[i] == if i % 2 == 0 then 0x32 else 0x35
  }

  /** The first triplet is "%25", and the text goes on with "2525..." to its end. */
  predicate EndsInEscapes(s: Text) {
    s != [] && if TripletAt(s, 0) then Alternates(s[1..]) else EndsInEscapes(s[1..])
  }

  /** Where reserved characters pass through: the same text without triplets; or the two
      bytes that the engine cuts too much are the two that it adds to the first triplet. */
  predicate CutConforms(prefix: Text, cut: Text) {
    (prefix == cut && !HasTriplet(cut)) || (|prefix| == |cut| + 2 && EndsInEscapes(prefix))
  }

  lemma {:induction false} EncodedLength(s: Text)
    ensures |Encoded(s, true)| >= |s|
    decreases |s|
  {
    if s != [] {
      if TripletAt(s, 0) { EncodedLength(s[3..]); } else { EncodedLength(s[1..]); }
    }
  }

  /** A digit in an encoding stands for itself. */
  lemma EncodedDigit(s: Text, c: byte, rest: Text)
    requires IsDigit(c)
    ensures Encoded(s, true) == [c] + rest <==> s != [] && s[0] == c && Encoded(s[1..], true) == rest
  {
    if s != [] {
      var e := Encoded(s, true);
      if TripletAt(s, 0) || !Allowed(s[0], true) {
        assert e[0] == PERCENT;
        assert ([c] + rest)[0] == c;
      } else {
        assert e == [s[0]] + Encoded(s[1..], true);
        assert e[1..] == Encoded(s[1..], true) && ([c] + rest)[1..] == rest;
      }
    }
  }

  /** Behind the percent sign of "%25": the reference goes on after the triplet, the engine
      writes "25" once more and then what is left of the value. */
  lemma {:induction false} EscapesAgree(w: Text, cut: Text)
    requires cut <= w && |w| >= 2 && w[0] == 0x32 && w[1] == 0x35
    ensures Encoded(w[2..], true) == Escaped(cut, true) <==> |w| == |cut| + 2 && Alternates(w)
    decreases |w|
  {
    var x := w[2..];
    assert forall i :: 2 <= i < |w| ==> w[i] == x[i - 2];
    if cut == [] {
      EncodedLength(x);
    } else {
      var rest := cut[1..];
      assert cut[0] == 0x32 && Escaped(cut, true) == [0x32] + Escaped(rest, true);
      EncodedDigit(x, 0x32, Escaped(rest, true));
      if rest == [] {
        if x != [] { EncodedLength(x[1..]); }
      } else {
        assert rest[0] == 0x35 && Escaped(rest, true) == [0x35] + Escaped(rest[1..], true);
        if x != [] {
          EncodedDigit(x[1..], 0x35, Escaped(rest[1..], true));
          if |x| >= 2 && x[0] == 0x32 && x[1] == 0x35 {
            assert x[1..][1..] == x[2..];
            EscapesAgree(x, rest[1..]);
          }
        }
      }
    }
  }

  lemma {:induction false} EndsInEscapesLength(s: Text)
    ensures EndsInEscapes(s) ==> |s| >= 3
  {
    if s != [] { EndsInEscapesLength(s[1..]); }
  }

  /** The prefix encoded as in the reference, against the engine's cut of it. */
  lemma {:induction false} CutEncodings(prefix: Text, cut: Text)
    requires cut <= prefix
    ensures Encoded(prefix, true) == Escaped(cut, true) <==> CutConforms(prefix, cut)
    decreases |prefix|
  {
    if prefix != [] {
      TripletStep(prefix);
      EndsInEscapesLength(prefix);
      EncodedLength(prefix);
      if cut != [] {
        var c := prefix[0];
        TripletStep(cut);
        assert Escaped(cut, true) == EscapedByte(c, true) + Escaped(cut[1..], true);
        if TripletAt(prefix, 0) {
          FirstTriplet(prefix, cut);
        } else {
          CutEncodings(prefix[1..], cut[1..]);
          SameFront(EscapedByte(c, true), Encoded(prefix[1..], true), Escaped(cut[1..], true));
          assert prefix == cut <==> prefix[1..] == cut[1..];
        }
      }
    }
  }

  lemma SameBytes(a: byte, b: byte, e: Text, c: byte, d: byte, f: Text)
    ensures [PERCENT, a, b] + e == [PERCENT, c, d] + f <==> a == c && b == d && e == f
  {
    var left, right := [PERCENT, a, b] + e, [PERCENT, c, d] + f;
    assert left[1] == a && left[2] == b && left[3..] == e;
    assert right[1] == c && right[2] == d && right[3..] == f;
  }

  lemma EncodedPercent(s: Text)
    requires TripletAt(s, 0)
    ensures Encoded(s, true) == [PERCENT, s[1], s[2]] + Encoded(s[3..], true)
  {
    assert s[..3] == [PERCENT, s[1], s[2]];
  }

  lemma EscapedPercent(s: Text)
    requires s != [] && s[0] == PERCENT
    ensures Escaped(s, true) == [PERCENT, 0x32, 0x35] + Escaped(s[1..], true)
  {
    assert Triplet(PERCENT) == [PERCENT, 0x32, 0x35];
  }

  lemma FirstTriplet(prefix: Text, cut: Text)
    requires cut <= prefix && cut != [] && TripletAt(prefix, 0)
    ensures Encoded(prefix, true) == Escaped(cut, true) <==> |prefix| == |cut| + 2 && Alternates(prefix[1..])
  {
    var w, rest := prefix[1..], cut[1..];
    assert w[0] == prefix[1] && w[1] == prefix[2] && w[2..] == prefix[3..] && cut[0] == PERCENT;
    hide Encoded, Escaped, TripletAt, IsHex;
    EncodedPercent(prefix);
    EscapedPercent(cut);
    SameBytes(w[0], w[1], Encoded(w[2..], true), 0x32, 0x35, Escaped(rest, true));
    if w[0] == 0x32 && w[1] == 0x35 {
      hide Alternates;
      EscapesAgree(w, rest);
    } else {
      assert !Alternates(w);
    }
  }

  // ---------- one value ----------

  predicate PassesThrough(s: Text, allowReserved: bool) {
    allowReserved ==> !HasTriplet(s)
  }

  predicate PairConforms(row: Row, term: Term, pair: (Text, Text)) {
    if term.explode && row.named then
      && !HasTriplet(pair.0) && !HasReserved(pair.0)
      && PassesThrough(pair.1, row.allowReserved)
      && (pair.1 == [] ==> row.ifemp == [EQUALS])
    else PassesThrough(pair.0, row.allowReserved) && PassesThrough(pair.1, row.allowReserved)
  }

  /** The value is rendered as the reference has it: prefixes agree, no triplets where
      reserved characters pass through, and in exploded maps of named operators no reserved
      characters in keys and no empty values where the operator writes them without an
      equals sign. */
  predicate Conforms(row: Row, term: Term, v: Value) {
    match v
    case Str(s) =>
      if row.allowReserved then CutConforms(Prefix(s, term.truncate), Truncated(s, term.truncate))
      else CutsAgree(s, term.truncate)
    case List(items) => forall i :: 0 <= i < |items| ==> PassesThrough(items[i], row.allowReserved)
    case Map(pairs) => forall i :: 0 <= i < |pairs| ==> PairConforms(row, term, pairs[i])
  }

  lemma EncodedAgrees(s: Text, allowReserved: bool)
    ensures |Encoded(s, allowReserved)| <= |Escaped(s, allowReserved)|
    ensures Encoded(s, allowReserved) == Escaped(s, allowReserved) <==> PassesThrough(s, allowReserved)
    ensures Encoded(s, allowReserved) == [] <==> s == []
  {
    EncodingAgrees(s, allowReserved);
    EscapeLength(s, allowReserved);
    if s != [] && allowReserved { LiteralAgrees(s); }
  }

  lemma MemberAgrees(op: Operator, p: Part, term: Term, item: Text)
    requires p == Expression(op, p.terms) && term.truncate <= 0
    ensures |MemberText(AppendixA(op), term, item)| <= |ItemText(p, term, item)|
    ensures MemberText(AppendixA(op), term, item) == ItemText(p, term, item) <==>
            PassesThrough(item, p.allowReserved)
  {
    TableAgrees(op, p.terms);
    EncodedAgrees(item, p.allowReserved);
    hide Expression, AppendixA, Encoded, Escaped, PassesThrough;
    if term.explode && p.named {
      var head := NameText(p, term.name, item == []);
      SamePieces(head, Encoded(item, p.allowReserved), head, Escaped(item, p.allowReserved));
      if item != [] {
        Associate(term.name, [EQUALS], Encoded(item, p.allowReserved));
      }
    }
  }

  lemma {:induction false} MembersAgree(op: Operator, p: Part, term: Term, items: seq<Text>)
    requires p == Expression(op, p.terms) && term.truncate <= 0
    ensures var a, b := MemberTexts(AppendixA(op), term, items), ItemTexts(p, term, items);
            && (forall i :: 0 <= i < |items| ==> |a[i]| <= |b[i]|)
            && (a == b <==> forall i :: 0 <= i < |items| ==> PassesThrough(items[i], p.allowReserved))
  {
    hide Expression, AppendixA, MemberText, ItemText, PassesThrough;
    if items != [] {
      MembersAgree(op, p, term, items[1..]);
      MemberAgrees(op, p, term, items[0]);
      var a, b := MemberTexts(AppendixA(op), term, items), ItemTexts(p, term, items);
      assert a[1..] == MemberTexts(AppendixA(op), term, items[1..]) && b[1..] == ItemTexts(p, term, items[1..]);
      assert a == [a[0]] + a[1..] && b == [b[0]] + b[1..];
      assert forall i :: 0 <= i < |items| - 1 ==> items[1..][i] == items[i + 1];
    }
  }

  lemma PairAgrees(op: Operator, p: Part, term: Term, pair: (Text, Text))
    requires p == Expression(op, p.terms)
    ensures |MemberPair(AppendixA(op), term, pair)| <= |PairText(p, term, pair)|
    ensures MemberPair(AppendixA(op), term, pair) == PairText(p, term, pair) <==>
            PairConforms(AppendixA(op), term, pair)
  {
    TableAgrees(op, p.terms);
    var allow, row := p.allowReserved, AppendixA(op);
    assert row.named ==> row.ifemp == [] || row.ifemp == [EQUALS];
    EncodedAgrees(pair.0, allow);
    EncodedAgrees(pair.1, allow);
    EncodingAgrees(pair.0, allow);
    assert row.named ==> !allow;
    hide Expression, AppendixA, Encoded, Escaped, HasTriplet, HasReserved;
    var key, value := Escaped(pair.0, allow), Escaped(pair.1, allow);
    var mark := [if term.explode then EQUALS else COMMA];
    if term.explode && row.named {
      var k, v := Encoded(pair.0, true), Encoded(pair.1, allow);
      assert v == value;
      assert MemberPair(row, term, pair) == k + if v == [] then row.ifemp else [EQUALS] + v;
      assert PairText(p, term, pair) == key + (mark + value) by { Associate(key, mark, value); }
      SamePieces(k, if v == [] then row.ifemp else [EQUALS] + v, key, mark + value);
    } else {
      var k, v := Encoded(pair.0, allow), Encoded(pair.1, allow);
      SamePieces(k + mark, v, key + mark, value);
      SamePieces(k, mark, key, mark);
    }
  }

  lemma {:induction false} PairsAgree(op: Operator, p: Part, term: Term, pairs: seq<(Text, Text)>)
    requires p == Expression(op, p.terms)
    ensures var a, b := MemberPairs(AppendixA(op), term, pairs), PairTexts(p, term, pairs);
            && (forall i :: 0 <= i < |pairs| ==> |a[i]| <= |b[i]|)
            && (a == b <==> forall i :: 0 <= i < |pairs| ==> PairConforms(AppendixA(op), term, pairs[i]))
  {
    hide Expression, AppendixA, MemberPair, PairText, PairConforms;
    if pairs != [] {
      PairsAgree(op, p, term, pairs[1..]);
      PairAgrees(op, p, term, pairs[0]);
      var a, b := MemberPairs(AppendixA(op), term, pairs), PairTexts(p, term, pairs);
      assert a[1..] == MemberPairs(AppendixA(op), term, pairs[1..]) && b[1..] == PairTexts(p, term, pairs[1..]);
      assert a == [a[0]] + a[1..] && b == [b[0]] + b[1..];
      assert forall i :: 0 <= i < |pairs| - 1 ==> pairs[1..][i] == pairs[i + 1];
    }
  }

  /** One encoded value against the other, whichever mode. */
  lemma CutAgrees(prefix: Text, cut: Text, allowReserved: bool)
    requires cut <= prefix
    ensures Encoded(prefix, allowReserved) == Escaped(cut, allowReserved) <==>
            if allowReserved then CutConforms(prefix, cut) else prefix == cut
    ensures prefix == cut ==> |Encoded(prefix, allowReserved)| <= |Escaped(cut, allowReserved)|
    ensures Encoded(prefix, allowReserved) == [] <==> prefix == []
  {
    EncodedAgrees(prefix, allowReserved);
    if allowReserved {
      CutEncodings(prefix, cut);
    } else {
      EncodingAgrees(prefix, false);
      EscapeIsInjective(prefix, cut, false);
    }
  }

  lemma StringAgrees(op: Operator, p: Part, term: Term, s: Text)
    requires p == Expression(op, p.terms)
    ensures ReferenceValue(AppendixA(op), term, Str(s)) == ValueText(p, term, Str(s)) <==>
            Conforms(AppendixA(op), term, Str(s))
    ensures CutsAgree(s, term.truncate) ==>
              |ReferenceValue(AppendixA(op), term, Str(s))| <= |ValueText(p, term, Str(s))|
  {
    TableAgrees(op, p.terms);
    var prefix, cut := Prefix(s, term.truncate), Truncated(s, term.truncate);
    PrefixAgrees(s, term.truncate);
    CutAgrees(prefix, cut, p.allowReserved);
    hide Expression, AppendixA, Encoded, Escaped, Truncated, Prefix, CutsAgree, CutConforms;
    var head := NameText(p, term.name, cut == []);
    var e, f := Encoded(prefix, p.allowReserved), Escaped(cut, p.allowReserved);
    assert ReferenceValue(AppendixA(op), term, Str(s)) == head + e by {
      if p.named && cut != [] {
        Associate(term.name, [EQUALS], e);
      }
    }
    SameFront(head, e, f);
  }

  /** One defined value is rendered as in RFC 6570 exactly when it conforms, and never
      longer there if the cuts agree. A prefix on a list or map is outside: section 2.4.1
      gives it no meaning. */
  lemma ValueAgrees(op: Operator, p: Part, term: Term, v: Value)
    requires p == Expression(op, p.terms) && Defined(v) && (v.Str? || term.truncate <= 0)
    ensures ReferenceValue(AppendixA(op), term, v) == ValueText(p, term, v) <==>
            Conforms(AppendixA(op), term, v)
    ensures (v.Str? ==> CutsAgree(v.text, term.truncate)) ==>
              |ReferenceValue(AppendixA(op), term, v)| <= |ValueText(p, term, v)|
  {
    TableAgrees(op, p.terms);
    match v {
      case Str(s) =>
        StringAgrees(op, p, term, s);
      case List(items) =>
        MembersAgree(op, p, term, items);
        hide Expression, AppendixA, PassesThrough;
        var a, b, sep := MemberTexts(AppendixA(op), term, items), ItemTexts(p, term, items), Separator(p, term);
        JoinsAgree(a, b, sep);
        SamePieces(Heading(p, term), Join(a, sep), Heading(p, term), Join(b, sep));
      case Map(pairs) =>
        PairsAgree(op, p, term, pairs);
        hide Expression, AppendixA, PairConforms;
        var a, b, sep := MemberPairs(AppendixA(op), term, pairs), PairTexts(p, term, pairs), Separator(p, term);
        JoinsAgree(a, b, sep);
        SamePieces(Heading(p, term), Join(a, sep), Heading(p, term), Join(b, sep));
    }
  }

  // ---------- separators ----------

  /** The renderings of the defined variables, as the engine writes them. */
  function DefinedTexts(p: Part, terms: seq<Term>, values: Values): seq<Text> {
    if terms == [] then []
    else
      var name, rest := terms[0].name, DefinedTexts(p, terms[1..], values);
      if name in values && Defined(values[name]) then [ValueText(p, terms[0], values[name])] + rest else rest
  }

  predicate AllDefined(terms: seq<Term>, values: Values) {
    if terms == [] then true
    else (terms[0].name in values ==> Defined(values[terms[0].name])) && AllDefined(terms[1..], values)
  }

  /** Behind a rendering, with k separators owed: each empty list or map writes one too
      many and repays one, as long as nothing but separators is rendered. */
  predicate Repays(p: Part, terms: seq<Term>, values: Values, k: nat) {
    if terms == [] then k == 0
    else
      var name := terms[0].name;
      if name !in values then Repays(p, terms[1..], values, k)
      else if !Defined(values[name]) then k > 0 && Repays(p, terms[1..], values, k - 1)
      else if Only(ValueText(p, terms[0], values[name]), Mark(p)) then Repays(p, terms[1..], values, k)
      else k == 0 && AllDefined(terms[1..], values)
  }

  /** k defined variables so far render to nothing: the engine drops their separators. If
      none does, no empty list or map may come after the first rendering; otherwise exactly
      k must, before any byte but separators. If nothing renders at all, no variable is
      defined, or one is and there is no first string to lose. */
  predicate SeparatorsAgree(p: Part, terms: seq<Term>, values: Values, k: nat) {
    if terms == [] then k == 0 || (k == 1 && p.first == [])
    else
      var name := terms[0].name;
      if name !in values || !Defined(values[name]) then SeparatorsAgree(p, terms[1..], values, k)
      else
        var text := ValueText(p, terms[0], values[name]);
        if text == [] then SeparatorsAgree(p, terms[1..], values, k + 1)
        else if Only(text, Mark(p)) then Repays(p, terms[1..], values, k)
        else k == 0 && AllDefined(terms[1..], values)
  }

  /** What the defined ones among terms add behind an earlier one, by the rule. */
  function RuleTail(p: Part, terms: seq<Term>, values: Values): Text {
    if terms == [] then []
    else
      var name, rest := terms[0].name, RuleTail(p, terms[1..], values);
      if name in values && Defined(values[name]) then p.sep + ValueText(p, terms[0], values[name]) + rest else rest
  }

  lemma {:induction false} RuleTailIsJoin(p: Part, text: Text, terms: seq<Term>, values: Values)
    ensures Join([text] + DefinedTexts(p, terms, values), p.sep) == text + RuleTail(p, terms, values)
    decreases terms
  {
    hide ValueText;
    if terms == [] {
      assert [text] + [] == [text];
    } else {
      var name := terms[0].name;
      if name in values && Defined(values[name]) {
        var next := ValueText(p, terms[0], values[name]);
        RuleTailIsJoin(p, next, terms[1..], values);
        var texts := [text] + DefinedTexts(p, terms, values);
        assert texts[1..] == [next] + DefinedTexts(p, terms[1..], values);
      } else {
        RuleTailIsJoin(p, text, terms[1..], values);
      }
    }
  }

  lemma UndefinedIsEmpty(p: Part, term: Term, v: Value)
    requires !Defined(v)
    ensures ValueText(p, term, v) == []
  {
  }

  lemma {:induction false} TailsAgree(p: Part, terms: seq<Term>, values: Values)
    requires |p.sep| == 1
    ensures |RuleTail(p, terms, values)| <= |Tail(p, terms, values)|
    ensures RuleTail(p, terms, values) == Tail(p, terms, values) <==> AllDefined(terms, values)
    ensures |RuleTail(p, terms, values)| == |Tail(p, terms, values)| ==> AllDefined(terms, values)
  {
    hide ValueText;
    if terms != [] {
      TailsAgree(p, terms[1..], values);
      var name := terms[0].name;
      if name in values {
        var front := p.sep + ValueText(p, terms[0], values[name]);
        if Defined(values[name]) {
          SamePieces(front, RuleTail(p, terms[1..], values), front, Tail(p, terms[1..], values));
        } else {
          UndefinedIsEmpty(p, terms[0], values[name]);
        }
      }
    }
  }

  /** k separators more, and then a text on both sides. */
  lemma OwedBehind(sep: byte, k: nat, text: Text, rule: Text, tail: Text)
    ensures Only(text, sep) ==>
              (Repeat(sep, k) + (text + rule) == text + tail <==> Repeat(sep, k) + rule == tail)
    ensures !Only(text, sep) ==>
              (Repeat(sep, k) + (text + rule) == text + tail <==> k == 0 && rule == tail)
  {
    Associate(Repeat(sep, k), text, rule);
    if Only(text, sep) {
      OnlyCommutes(sep, k, text);
      Associate(text, Repeat(sep, k), rule);
      SameFront(text, Repeat(sep, k) + rule, tail);
    } else if k == 0 {
      assert Repeat(sep, k) + (text + rule) == text + rule;
      SameFront(text, rule, tail);
    } else {
      OtherComesLate(sep, k, text, rule, tail);
    }
  }

  lemma {:induction false} RepaysDecides(p: Part, terms: seq<Term>, values: Values, k: nat)
    requires |p.sep| == 1
    ensures Repeat(Mark(p), k) + RuleTail(p, terms, values) == Tail(p, terms, values) <==>
            Repays(p, terms, values, k)
    decreases terms
  {
    hide ValueText;
    if terms != [] {
      var name, sep, rest := terms[0].name, Mark(p), terms[1..];
      var rule, tail := RuleTail(p, rest, values), Tail(p, rest, values);
      assert p.sep == [sep];
      TailsAgree(p, rest, values);
      if name !in values {
        RepaysDecides(p, rest, values, k);
      } else {
        var text := ValueText(p, terms[0], values[name]);
        if !Defined(values[name]) {
          UndefinedIsEmpty(p, terms[0], values[name]);
          assert p.sep + text == p.sep;
          if k > 0 {
            RepaysDecides(p, rest, values, k - 1);
            Associate([sep], Repeat(sep, k - 1), rule);
            SameFront([sep], Repeat(sep, k - 1) + rule, tail);
          }
        } else {
          RepaysDecides(p, rest, values, k);
          hide Tail, RuleTail, Repays, AllDefined;
          OwedBehindMark(sep, k, text, rule, tail);
          OwedBehind(sep, k, text, rule, tail);
        }
      }
    }
  }

  lemma OwedBehindMark(sep: byte, k: nat, text: Text, rule: Text, tail: Text)
    ensures Repeat(sep, k) + ([sep] + text + rule) == [sep] + text + tail <==>
            Repeat(sep, k) + (text + rule) == text + tail
  {
    RepeatSum(sep, k, 1);
    assert Repeat(sep, k) + ([sep] + text + rule) == [sep] + (Repeat(sep, k) + (text + rule));
    Associate([sep], text, tail);
    SameFront([sep], Repeat(sep, k) + (text + rule), text + tail);
  }

  /** The payload by the rule of section 3.2.1, against the engine's. */
  function RulePart(p: Part, terms: seq<Term>, values: Values): Text {
    JoinRule(p.first, p.sep, DefinedTexts(p, terms, values))
  }

  function HeadPart(p: Part, terms: seq<Term>, values: Values): Text {
    var head := Head(p, terms, values);
    if head == [] then [] else p.first + head
  }

  /** The text by the rule, when k defined variables before terms render to nothing. */
  function RuleBehind(p: Part, terms: seq<Term>, values: Values, k: nat): Text {
    if k == 0 then RulePart(p, terms, values)
    else p.first + (Repeat(Mark(p), k - 1) + RuleTail(p, terms, values))
  }

  lemma MoveMark(sep: byte, k: nat, text: Text, rule: Text)
    requires k > 0
    ensures Repeat(sep, k - 1) + ([sep] + text + rule) == Repeat(sep, k) + (text + rule)
  {
    RepeatSum(sep, k - 1, 1);
    Associate([sep], text, rule);
    Associate(Repeat(sep, k - 1), [sep], text + rule);
  }

  /** The first of terms is defined. */
  lemma RuleBehindStep(p: Part, terms: seq<Term>, values: Values, k: nat)
    requires |p.sep| == 1 && terms != []
    requires terms[0].name in values && Defined(values[terms[0].name])
    ensures var text := ValueText(p, terms[0], values[terms[0].name]);
            RuleBehind(p, terms, values, k) ==
            p.first + (Repeat(Mark(p), k) + (text + RuleTail(p, terms[1..], values)))
  {
    var text, rule := ValueText(p, terms[0], values[terms[0].name]), RuleTail(p, terms[1..], values);
    RuleTailIsJoin(p, text, terms[1..], values);
    assert p.sep == [Mark(p)];
    hide ValueText, Join, Defined;
    if k == 0 {
      assert Repeat(Mark(p), 0) + (text + rule) == text + rule;
    } else {
      assert RuleTail(p, terms, values) == p.sep + text + rule;
      hide RuleTail, Repeat;
      MoveMark(Mark(p), k, text, rule);
    }
  }

  lemma {:induction false} RuleAgrees(p: Part, terms: seq<Term>, values: Values, k: nat)
    requires |p.sep| == 1
    ensures HeadPart(p, terms, values) == RuleBehind(p, terms, values, k) <==> SeparatorsAgree(p, terms, values, k)
    decreases terms
  {
    hide ValueText;
    if terms != [] {
      var name, rest := terms[0].name, terms[1..];
      if name !in values || !Defined(values[name]) {
        RuleAgrees(p, rest, values, k);
        if name in values { UndefinedIsEmpty(p, terms[0], values[name]); }
      } else {
        var text, rule := ValueText(p, terms[0], values[name]), RuleTail(p, rest, values);
        RuleBehindStep(p, terms, values, k);
        if text == [] {
          RuleAgrees(p, rest, values, k + 1);
          assert [] + rule == rule;
        } else {
          var tail := Tail(p, rest, values);
          assert HeadPart(p, terms, values) == p.first + (text + tail);
          TailsAgree(p, rest, values);
          RepaysDecides(p, rest, values, k);
          hide Head, Tail, RuleTail, RuleBehind, HeadPart, AllDefined, Repays;
          OwedBehind(Mark(p), k, text, rule, tail);
          SameFront(p.first, text + tail, Repeat(Mark(p), k) + (text + rule));
        }
      }
    }
  }

  /** The engine's separators are those of section 3.2.1 exactly when SeparatorsAgree. */
  lemma SeparatorRule(p: Part, values: Values)
    requires WellFormedExpression(p)
    ensures PartText(p, values) == RulePart(p, p.terms, values) <==> SeparatorsAgree(p, p.terms, values, 0)
  {
    hide WellFormedTerm;
    assert |p.sep| == 1 && p.raw == [];
    PartTextIsHead(p, values);
    RuleAgrees(p, p.terms, values, 0);
  }

  lemma {:induction false} ShownSeparators(p: Part, terms: seq<Term>, values: Values)
    requires forall i :: 0 <= i < |terms| && terms[i].name in values ==>
               ValueText(p, terms[i], values[terms[i].name]) != []
    ensures SeparatorsAgree(p, terms, values, 0) && AllDefined(terms, values) && Repays(p, terms, values, 0)
  {
    if terms != [] {
      assert forall i :: 0 <= i < |terms| - 1 ==> terms[1..][i] == terms[i + 1];
      ShownSeparators(p, terms[1..], values);
      if terms[0].name in values && !Defined(values[terms[0].name]) {
        UndefinedIsEmpty(p, terms[0], values[terms[0].name]);
      }
    }
  }

  // ---------- the whole expansion ----------

  /** A prefix stands on a string. */
  predicate Applicable(p: Part, values: Values) {
    forall i :: 0 <= i < |p.terms| && p.terms[i].name in values && Defined(values[p.terms[i].name]) ==>
      values[p.terms[i].name].Str? || p.terms[i].truncate <= 0
  }

  predicate CutFits(term: Term, values: Values) {
    term.name in values && values[term.name].Str? ==> CutsAgree(values[term.name].text, term.truncate)
  }

  predicate TermConforms(op: Operator, term: Term, values: Values) {
    term.name in values && Defined(values[term.name]) ==> Conforms(AppendixA(op), term, values[term.name])
  }

  /** Literals are URI text, and all defined values are rendered as in the reference. */
  predicate PartConforms(p: Part, values: Values) {
    if p.terms == [] then UriText(p.raw)
    else forall i :: 0 <= i < |p.terms| ==> TermConforms(PartOperator(p), p.terms[i], values)
  }

  predicate PartSeparatorsAgree(p: Part, values: Values) {
    p.terms != [] ==> SeparatorsAgree(p, p.terms, values, 0)
  }

  predicate PartCutsFit(p: Part, values: Values) {
    forall i :: 0 <= i < |p.terms| ==> CutFits(p.terms[i], values)
  }

  lemma {:induction false} TextsAgree(op: Operator, p: Part, terms: seq<Term>, values: Values)
    requires p == Expression(op, p.terms)
    requires forall i :: 0 <= i < |terms| && terms[i].name in values && Defined(values[terms[i].name]) ==>
               values[terms[i].name].Str? || terms[i].truncate <= 0
    ensures var a, b := ReferenceTexts(AppendixA(op), terms, values), DefinedTexts(p, terms, values);
            && |a| == |b|
            && (a == b <==> forall i :: 0 <= i < |terms| ==> TermConforms(op, terms[i], values))
            && ((forall i :: 0 <= i < |terms| ==> CutFits(terms[i], values)) ==>
                  forall i :: 0 <= i < |a| ==> |a[i]| <= |b[i]|)
  {
    hide ValueText, ReferenceValue, Conforms, Expression, AppendixA, CutsAgree;
    if terms != [] {
      var rest, name := terms[1..], terms[0].name;
      assert forall i :: 0 <= i < |rest| ==> rest[i] == terms[i + 1];
      TextsAgree(op, p, rest, values);
      TermsStep(op, terms, values);
      if name in values && Defined(values[name]) {
        ValueAgrees(op, p, terms[0], values[name]);
        var a, b := ReferenceTexts(AppendixA(op), terms, values), DefinedTexts(p, terms, values);
        var a', b' := ReferenceTexts(AppendixA(op), rest, values), DefinedTexts(p, rest, values);
        assert a[1..] == a' && b[1..] == b' && a == [a[0]] + a' && b == [b[0]] + b';
        hide ReferenceTexts, DefinedTexts, TermConforms, Defined;
        if forall i :: 0 <= i < |terms| ==> CutFits(terms[i], values) {
          assert CutFits(terms[0], values);
        }
      }
    }
  }

  lemma TermsStep(op: Operator, terms: seq<Term>, values: Values)
    requires terms != []
    ensures (forall i :: 0 <= i < |terms| ==> TermConforms(op, terms[i], values)) <==>
            TermConforms(op, terms[0], values)
            && forall i :: 0 <= i < |terms[1..]| ==> TermConforms(op, terms[1..][i], values)
    ensures (forall i :: 0 <= i < |terms| ==> CutFits(terms[i], values)) ==>
            forall i :: 0 <= i < |terms[1..]| ==> CutFits(terms[1..][i], values)
  {
    hide TermConforms, CutFits;
    assert forall i :: 0 <= i < |terms| - 1 ==> terms[1..][i] == terms[i + 1];
  }

  lemma PartRendersAsReference(p: Part, values: Values)
    requires WellFormedPart(p) && Applicable(p, values) && PartSeparatorsAgree(p, values)
    ensures PartConforms(p, values) ==> PartText(p, values) == ReferencePart(p, values)
    ensures PartCutsFit(p, values) && PartText(p, values) == ReferencePart(p, values) ==> PartConforms(p, values)
    ensures p.terms != [] && PartCutsFit(p, values) ==> |ReferencePart(p, values)| <= |PartText(p, values)|
  {
    if p.terms == [] {
      LiteralAgrees(p.raw);
      LiteralText(p.raw, values);
    } else {
      hide SeparatorsAgree;
      SeparatorRule(p, values);
      RuleAgainstReference(p, values);
    }
  }

  /** The rule of section 3.2.1 on the engine's renderings and on those of the reference. */
  lemma RuleAgainstReference(p: Part, values: Values)
    requires WellFormedExpression(p) && Applicable(p, values)
    ensures var rule, reference := RulePart(p, p.terms, values), ReferencePart(p, values);
            && (PartConforms(p, values) ==> rule == reference)
            && (PartCutsFit(p, values) ==>
                  |reference| <= |rule| && (rule == reference <==> PartConforms(p, values)))
  {
    hide WellFormedTerm, TermConforms, CutFits, DefinedTexts, ReferenceTexts;
    var op := PartOperator(p);
    TextsAgree(op, p, p.terms, values);
    TableAgrees(op, p.terms);
    var a, b := ReferenceTexts(AppendixA(op), p.terms, values), DefinedTexts(p, p.terms, values);
    hide Expression, AppendixA;
    if PartCutsFit(p, values) {
      JoinsAgree(a, b, p.sep);
      SameFront(p.first, Join(a, p.sep), Join(b, p.sep));
    }
  }

  /** With the right separators, one part expands as the reference says if it does not fail
      and its values or its literal conform; and only then, when prefixes cut alike. */
  lemma PartExpandsAsReference(p: Part, values: Values)
    requires WellFormedPart(p) && Applicable(p, values) && PartSeparatorsAgree(p, values)
    ensures !PartFails(p, values) && PartConforms(p, values) ==>
              Expanded([p], values) == Ok(ReferencePart(p, values))
    ensures PartCutsFit(p, values) ==>
              (Expanded([p], values) == Ok(ReferencePart(p, values)) <==>
               !PartFails(p, values) && PartConforms(p, values))
  {
    PartRendersAsReference(p, values);
    OnePart(p, values);
    hide WellFormedPart, PartConforms, PartText, ReferencePart, PartCutsFit, PartSeparatorsAgree, Applicable, PartFails;
  }

  predicate LiteralsAreUriText(parts: seq<Part>) {
    forall i :: 0 <= i < |parts| && parts[i].terms == [] ==> UriText(parts[i].raw)
  }

  lemma {:induction false} RendersAsReference(parts: seq<Part>, values: Values)
    requires WellFormed(parts) && LiteralsAreUriText(parts)
    requires forall i :: 0 <= i < |parts| ==> Applicable(parts[i], values) && PartSeparatorsAgree(parts[i], values)
    ensures var conform := forall i :: 0 <= i < |parts| ==> PartConforms(parts[i], values);
            && (conform ==> PartsText(parts, values) == ReferenceText(parts, values))
            && ((forall i :: 0 <= i < |parts| ==> PartCutsFit(parts[i], values)) ==>
                  && |ReferenceText(parts, values)| <= |PartsText(parts, values)|
                  && (PartsText(parts, values) == ReferenceText(parts, values) <==> conform))
  {
    hide WellFormedPart, PartConforms, PartText, ReferencePart, PartCutsFit, PartSeparatorsAgree, Applicable;
    if parts != [] {
      var p, rest := parts[0], parts[1..];
      assert forall i :: 0 <= i < |rest| ==> rest[i] == parts[i + 1];
      RendersAsReference(rest, values);
      FirstRendersAsReference(p, values);
      var a, as' := ReferencePart(p, values), ReferenceText(rest, values);
      var b, bs := PartText(p, values), PartsText(rest, values);
      if forall i :: 0 <= i < |parts| ==> PartCutsFit(parts[i], values) {
        assert PartCutsFit(parts[0], values);
        SamePieces(a, as', b, bs);
      }
    }
  }

  lemma FirstRendersAsReference(p: Part, values: Values)
    requires WellFormedPart(p) && (p.terms == [] ==> UriText(p.raw))
    requires Applicable(p, values) && PartSeparatorsAgree(p, values)
    ensures PartConforms(p, values) ==> PartText(p, values) == ReferencePart(p, values)
    ensures PartCutsFit(p, values) ==>
              && |ReferencePart(p, values)| <= |PartText(p, values)|
              && (PartText(p, values) == ReferencePart(p, values) <==> PartConforms(p, values))
  {
    PartRendersAsReference(p, values);
  }

  /** With URI text for literals and the right separators, the whole template expands as
      RFC 6570 says if no part fails and all values conform; and only then, when prefixes
      cut alike. */
  lemma ExpandsAsReference(parts: seq<Part>, values: Values)
    requires WellFormed(parts) && LiteralsAreUriText(parts)
    requires forall i :: 0 <= i < |parts| ==> Applicable(parts[i], values) && PartSeparatorsAgree(parts[i], values)
    ensures var agree := Expanded(parts, values) == Ok(ReferenceText(parts, values));
            var conform := forall i :: 0 <= i < |parts| ==> PartConforms(parts[i], values);
            && (!Fails(parts, values) && conform ==> agree)
            && ((forall i :: 0 <= i < |parts| ==> PartCutsFit(parts[i], values)) ==>
                  (agree <==> !Fails(parts, values) && conform))
  {
    RendersAsReference(parts, values);
    hide WellFormedPart, PartConforms, PartCutsFit, PartSeparatorsAgree, Applicable, PartFails;
  }

  // ---------- separators as part of the condition ----------

  /** The first defined variable renders to something. */
  predicate FirstDefinedShows(p: Part, terms: seq<Term>, values: Values) {
    if terms == [] then true
    else
      var name := terms[0].name;
      if name !in values || !Defined(values[name]) then FirstDefinedShows(p, terms[1..], values)
      else ValueText(p, terms[0], values[name]) != []
  }

  lemma {:induction false} ShownRuleIsShorter(p: Part, terms: seq<Term>, values: Values)
    requires |p.sep| == 1 && FirstDefinedShows(p, terms, values)
    ensures |RulePart(p, terms, values)| <= |HeadPart(p, terms, values)|
    ensures |RulePart(p, terms, values)| == |HeadPart(p, terms, values)| ==>
              RulePart(p, terms, values) == HeadPart(p, terms, values)
  {
    hide ValueText;
    if terms != [] {
      var name, rest := terms[0].name, terms[1..];
      if name !in values || !Defined(values[name]) {
        ShownRuleIsShorter(p, rest, values);
        if name in values { UndefinedIsEmpty(p, terms[0], values[name]); }
      } else {
        var text := ValueText(p, terms[0], values[name]);
        RuleTailIsJoin(p, text, rest, values);
        TailsAgree(p, rest, values);
        hide RuleTail, Tail, AllDefined, Join;
        assert RulePart(p, terms, values) == p.first + (text + RuleTail(p, rest, values));
        assert HeadPart(p, terms, values) == p.first + (text + Tail(p, rest, values));
      }
    }
  }

  predicate PartFirstShows(p: Part, values: Values) {
    FirstDefinedShows(p, p.terms, values)
  }

  lemma ShownRule(p: Part, values: Values)
    requires WellFormedExpression(p) && PartFirstShows(p, values)
    ensures var rule, text := RulePart(p, p.terms, values), PartText(p, values);
            && |rule| <= |text| && (|rule| == |text| ==> rule == text)
            && (text == rule <==> SeparatorsAgree(p, p.terms, values, 0))
  {
    SeparatorRule(p, values);
    PartTextIsHead(p, values);
    ShownRuleIsShorter(p, p.terms, values);
    hide WellFormedTerm, SeparatorsAgree, RulePart, PartText;
  }

  /** When the first defined value shows, reference, rule and engine are ever longer. */
  lemma ShownPartAgrees(p: Part, values: Values)
    requires WellFormedPart(p) && (p.terms == [] ==> UriText(p.raw))
    requires Applicable(p, values) && PartCutsFit(p, values) && PartFirstShows(p, values)
    ensures |ReferencePart(p, values)| <= |PartText(p, values)|
    ensures PartText(p, values) == ReferencePart(p, values) <==>
            PartConforms(p, values) && PartSeparatorsAgree(p, values)
  {
    hide WellFormedTerm, SeparatorsAgree, PartConforms, PartCutsFit, Applicable, PartFirstShows, PartText,
      ReferencePart, RulePart, Expression, UriText;
    if p.terms == [] {
      FirstRendersAsReference(p, values);
    } else {
      RuleAgainstReference(p, values);
      ShownRule(p, values);
    }
  }

  lemma {:induction false} ShownPartsAgree(parts: seq<Part>, values: Values)
    requires WellFormed(parts) && LiteralsAreUriText(parts)
    requires forall i :: 0 <= i < |parts| ==>
               Applicable(parts[i], values) && PartCutsFit(parts[i], values) && PartFirstShows(parts[i], values)
    ensures |ReferenceText(parts, values)| <= |PartsText(parts, values)|
    ensures PartsText(parts, values) == ReferenceText(parts, values) <==>
            forall i :: 0 <= i < |parts| ==> PartConforms(parts[i], values) && PartSeparatorsAgree(parts[i], values)
  {
    hide WellFormedPart, PartConforms, PartText, ReferencePart, PartCutsFit, PartSeparatorsAgree, Applicable,
      PartFirstShows;
    if parts != [] {
      var p, rest := parts[0], parts[1..];
      assert forall i :: 0 <= i < |rest| ==> rest[i] == parts[i + 1];
      ShownPartsAgree(rest, values);
      ShownPartAgrees(p, values);
      SamePieces(ReferencePart(p, values), ReferenceText(rest, values), PartText(p, values), PartsText(rest, values));
    }
  }

  /** When no expression begins with an empty defined value and prefixes cut alike, a
      template with URI text for literals expands as RFC 6570 says exactly when no part
      fails, all values conform, and all separators agree. */
  lemma AgreesWithReference(parts: seq<Part>, values: Values)
    requires WellFormed(parts) && LiteralsAreUriText(parts)
    requires forall i :: 0 <= i < |parts| ==>
               Applicable(parts[i], values) && PartCutsFit(parts[i], values) && PartFirstShows(parts[i], values)
    ensures Expanded(parts, values) == Ok(ReferenceText(parts, values)) <==>
            && !Fails(parts, values)
            && forall i :: 0 <= i < |parts| ==> PartConforms(parts[i], values) && PartSeparatorsAgree(parts[i], values)
  {
    ShownPartsAgree(parts, values);
    hide WellFormedPart, PartConforms, PartCutsFit, PartSeparatorsAgree, Applicable, PartFirstShows, PartFails;
  }

  /** In particular the separators are right when every rendering is non-empty. */
  lemma RuleForShownValues(p: Part, values: Values)
    requires WellFormedExpression(p)
    requires forall i :: 0 <= i < |p.terms| && p.terms[i].name in values ==>
               ValueText(p, p.terms[i], values[p.terms[i].name]) != []
    ensures PartText(p, values) == RulePart(p, p.terms, values)
  {
    ShownSeparators(p, p.terms, values);
    SeparatorRule(p, values);
  }
}
