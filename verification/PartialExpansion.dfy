/** Partial expansion: the code, and when expanding the returned part list with the
    remaining values gives what one expansion with all values would have given. */
module PartialExpansion {
  import opened Text
  import opened Templates
  import opened Expansion
  import opened Renderings

  // ---------- the returned text and part list ----------

  function ReprintedTerm(t: Term): Text {
    t.name + if t.explode then [STAR] else []
  }

  function ReprintedTerms(terms: seq<Term>): seq<Text> {
    if terms == [] then [] else [ReprintedTerm(terms[0])] + ReprintedTerms(terms[1..])
  }

  /** The inside of the braces: an untouched expression keeps its first string, a
      partly filled one goes on with the separator. */
  function Reprint(p: Part, missing: seq<Term>): Text {
    (if |missing| == |p.terms| then p.first else p.sep) + Join(ReprintedTerms(missing), [COMMA])
  }

  function PartialText(p: Part, values: Values): Text {
    var missing := MissingTerms(p, values);
    PartText(p, values) + if missing == [] then [] else [LBRACE] + Reprint(p, missing) + [RBRACE]
  }

  function PartialTexts(parts: seq<Part>, values: Values): Text {
    if parts == [] then [] else PartialText(parts[0], values) + PartialTexts(parts[1..], values)
  }

  /** Only a completely filled part is replaced; a partly filled one stays as it was. */
  function PartialPart(p: Part, values: Values): Part {
    if MissingTerms(p, values) == [] then Literal(PartText(p, values)) else p
  }

  function PartialParts(parts: seq<Part>, values: Values): (r: seq<Part>)
    ensures |r| == |parts|
  {
    if parts == [] then [] else [PartialPart(parts[0], values)] + PartialParts(parts[1..], values)
  }

  datatype Partial = Partial(raw: Text, parts: seq<Part>)

  function PartiallyExpanded(parts: seq<Part>, values: Values): Result<Partial> {
    if Fails(parts, values) then Err(TruncatedMap)
    else Ok(Partial(PartialTexts(parts, values), PartialParts(parts, values)))
  }

  // ---------- the code ----------

  method WriteMissing(p: Part, buf: Buffer, missing: seq<Term>)
    modifies buf
    ensures buf.data == old(buf.data) + ([LBRACE] + Reprint(p, missing) + [RBRACE])
  {
    buf.WriteString([LBRACE]);
    if |missing| == |p.terms| {
      buf.WriteString(p.first);
    } else {
      buf.WriteString(p.sep);
    }
    ghost var base, done := buf.data, [];
    for i := 0 to |missing|
      invariant buf.data == base + done && done == Join(ReprintedTerms(missing[..i]), [COMMA])
    {
      ghost var comma := if i > 0 then [COMMA] else [];
      ghost var star := if missing[i].explode then [STAR] else [];
      ReprintStep(missing, i);
      assert ReprintedTerm(missing[i]) == missing[i].name + star;
      hide *;
      if i > 0 {
        buf.WriteString([COMMA]);
      }
      buf.WriteString(missing[i].name);
      if missing[i].explode {
        buf.WriteString([STAR]);
      }
      assert buf.data == base + done + comma + missing[i].name + star;
      Associate(base + done + comma, missing[i].name, star);
      AppendThree(base, done, comma, missing[i].name + star);
      done := done + comma + (missing[i].name + star);
    }
    assert missing[..|missing|] == missing;
    buf.WriteString([RBRACE]);
    hide Join, ReprintedTerms;
    assert base == old(buf.data) + [LBRACE] + if |missing| == |p.terms| then p.first else p.sep;
    assert buf.data == base + done + [RBRACE];
  }

  lemma PartialPieces(p: Part, values: Values)
    ensures var missing, text := MissingTerms(p, values), PartText(p, values);
            if missing == [] then
              PartialText(p, values) == text && PartialPart(p, values) == Literal(text)
            else
              && PartialText(p, values) == text + ([LBRACE] + Reprint(p, missing) + [RBRACE])
              && PartialPart(p, values) == p
  {
    assert PartText(p, values) + [] == PartText(p, values);
  }

  /** The body of the loop: writes one part and says what takes its place. */
  method PartialExpandPart(p: Part, buf: Buffer, values: Values) returns (part: Part, failed: bool)
    modifies buf
    ensures failed == PartFails(p, values)
    ensures !failed ==> buf.data == old(buf.data) + PartialText(p, values)
    ensures !failed ==> part == PartialPart(p, values)
  {
    part := p;
    var start := buf.Len();
    var missing;
    missing, failed := Expand(p, buf, values);
    if failed {
      return;
    }
    assert buf.data[start..] == PartText(p, values);
    PartialPieces(p, values);
    if |missing| == 0 {
      part := Literal(buf.data[start..]);
    } else {
      Associate(old(buf.data), PartText(p, values), [LBRACE] + Reprint(p, missing) + [RBRACE]);
      hide *;
      WriteMissing(p, buf, missing);
    }
  }

  method PartialExpand(parts: seq<Part>, values: Values) returns (result: Result<Partial>)
    ensures result == PartiallyExpanded(parts, values)
  {
    var clone := new Part[|parts|](i requires 0 <= i < |parts| => parts[i]);
    var buf := new Buffer();
    assert parts[..0] == [] && parts[0..] == parts;
    for k := 0 to |parts|
      invariant Fails(parts, values) <==> Fails(parts[k..], values)
      invariant clone[..k] == PartialParts(parts[..k], values) && clone[k..] == parts[k..]
      invariant buf.data == PartialTexts(parts[..k], values)
    {
      PartialStep(parts, values, k);
      FailsStep(parts[k..], values);
      assert parts[k..][1..] == parts[k + 1..];
      hide Fails, PartFails, PartialTexts, PartialParts;
      var part, failed := PartialExpandPart(clone[k], buf, values);
      if failed {
        return Err(TruncatedMap);
      }
      ghost var done, rest := clone[..k], clone[k + 1..];
      clone[k] := part;
      assert clone[..k + 1] == done + [part] && clone[k + 1..] == rest;
    }
    assert parts[..|parts|] == parts && clone[..] == clone[..|parts|];
    return Ok(Partial(buf.data, clone[..]));
  }

  lemma {:induction false} ReprintedTermsAppend(a: seq<Term>, last: Term)
    ensures ReprintedTerms(a + [last]) == ReprintedTerms(a) + [ReprintedTerm(last)]
  {
    if a != [] {
      ReprintedTermsAppend(a[1..], last);
      assert (a + [last])[1..] == a[1..] + [last];
    }
  }

  lemma ReprintStep(terms: seq<Term>, i: nat)
    requires i < |terms|
    ensures Join(ReprintedTerms(terms[..i + 1]), [COMMA]) ==
            Join(ReprintedTerms(terms[..i]), [COMMA])
            + (if i > 0 then [COMMA] else []) + ReprintedTerm(terms[i])
  {
    assert terms[..i + 1] == terms[..i] + [terms[i]];
    ReprintedTermsAppend(terms[..i], terms[i]);
    if i > 0 {
      JoinAppend(ReprintedTerms(terms[..i]), ReprintedTerm(terms[i]), [COMMA]);
    }
  }

  lemma {:induction false} PartialAppend(a: seq<Part>, last: Part, values: Values)
    ensures PartialTexts(a + [last], values) == PartialTexts(a, values) + PartialText(last, values)
    ensures PartialParts(a + [last], values) == PartialParts(a, values) + [PartialPart(last, values)]
  {
    hide PartialText, PartialPart;
    if a == [] {
      assert a + [last] == [last] && [last][1..] == [];
    } else {
      PartialAppend(a[1..], last, values);
      assert (a + [last])[1..] == a[1..] + [last];
    }
  }

  lemma PartialStep(parts: seq<Part>, values: Values, k: nat)
    requires k < |parts|
    ensures PartialTexts(parts[..k + 1], values) ==
            PartialTexts(parts[..k], values) + PartialText(parts[k], values)
    ensures PartialParts(parts[..k + 1], values) ==
            PartialParts(parts[..k], values) + [PartialPart(parts[k], values)]
  {
    assert parts[..k + 1] == parts[..k] + [parts[k]];
    PartialAppend(parts[..k], parts[k], values);
  }

  // ---------- the payload, term by term ----------

  /** What terms add when something has been written before: each present one a
      separator and its rendering. */
  function Tail(p: Part, terms: seq<Term>, values: Values): Text {
    if terms == [] then []
    else if terms[0].name !in values then Tail(p, terms[1..], values)
    else p.sep + ValueText(p, terms[0], values[terms[0].name]) + Tail(p, terms[1..], values)
  }

  /** What terms add when nothing has been written before. */
  function Head(p: Part, terms: seq<Term>, values: Values): Text {
    if terms == [] then []
    else if terms[0].name !in values then Head(p, terms[1..], values)
    else
      var text := ValueText(p, terms[0], values[terms[0].name]);
      if text == [] then Head(p, terms[1..], values) else text + Tail(p, terms[1..], values)
  }

  lemma {:induction false} TailIsJoin(p: Part, text: Text, terms: seq<Term>, values: Values)
    ensures Join([text] + PresentTexts(p, terms, values), p.sep) == text + Tail(p, terms, values)
    decreases terms
  {
    hide ValueText;
    if terms == [] {
      assert [text] + [] == [text];
    } else if terms[0].name !in values {
      TailIsJoin(p, text, terms[1..], values);
    } else {
      var next := ValueText(p, terms[0], values[terms[0].name]);
      TailIsJoin(p, next, terms[1..], values);
      var texts := [text] + PresentTexts(p, terms, values);
      assert texts[1..] == [next] + PresentTexts(p, terms[1..], values);
    }
  }

  lemma {:induction false} HeadIsPayload(p: Part, terms: seq<Term>, values: Values)
    ensures Head(p, terms, values) == Payload(p, terms, values)
  {
    hide ValueText;
    if terms != [] {
      if terms[0].name in values {
        var text := ValueText(p, terms[0], values[terms[0].name]);
        if text != [] {
          TailIsJoin(p, text, terms[1..], values);
        } else {
          var texts := PresentTexts(p, terms, values);
          assert texts[1..] == PresentTexts(p, terms[1..], values);
          HeadIsPayload(p, terms[1..], values);
        }
      } else {
        HeadIsPayload(p, terms[1..], values);
      }
    }
  }

  lemma PartTextIsHead(p: Part, values: Values)
    requires p.raw == []
    ensures var head := Head(p, p.terms, values);
            PartText(p, values) == if head == [] then [] else p.first + head
  {
    HeadIsPayload(p, p.terms, values);
    PayloadLength(p, p.terms, values);
  }

  // ---------- adding the values of a first expansion to those of a second ----------

  /** No term valued by a renders to anything, and none comes behind a term that
      b renders to something: seen from the text, the values of a are not there. */
  predicate Quiet(p: Part, terms: seq<Term>, a: Values, b: Values, written: bool) {
    if terms == [] then true
    else
      var name := terms[0].name;
      if name in a then
        !written && ValueText(p, terms[0], a[name]) == [] && Quiet(p, terms[1..], a, b, written)
      else if name in b then
        Quiet(p, terms[1..], a, b, written || ValueText(p, terms[0], b[name]) != [])
      else Quiet(p, terms[1..], a, b, written)
  }

  /** The part is filled completely, or what it was filled with leaves no trace. */
  predicate Undisturbed(p: Part, a: Values, b: Values) {
    MissingTerms(p, a) == [] || Quiet(p, p.terms, a, b, false)
  }

  lemma {:induction false} HeadBelowTail(p: Part, terms: seq<Term>, values: Values)
    ensures |Head(p, terms, values)| <= |Tail(p, terms, values)|
  {
    if terms != [] {
      HeadBelowTail(p, terms[1..], values);
    }
  }

  lemma {:induction false} TailOfUnion(p: Part, terms: seq<Term>, a: Values, b: Values)
    requires p.sep != [] && a.Keys !! b.Keys
    ensures |Tail(p, terms, b)| <= |Tail(p, terms, a + b)|
    ensures |Tail(p, terms, b)| == |Tail(p, terms, a + b)| <==> Quiet(p, terms, a, b, true)
    ensures Quiet(p, terms, a, b, true) ==> Tail(p, terms, b) == Tail(p, terms, a + b)
  {
    hide ValueText;
    if terms != [] {
      TailOfUnion(p, terms[1..], a, b);
    }
  }

  lemma {:induction false} HeadOfUnion(p: Part, terms: seq<Term>, a: Values, b: Values)
    requires p.sep != [] && a.Keys !! b.Keys
    ensures |Head(p, terms, b)| <= |Head(p, terms, a + b)|
    ensures |Head(p, terms, b)| == |Head(p, terms, a + b)| <==> Quiet(p, terms, a, b, false)
    ensures Quiet(p, terms, a, b, false) ==> Head(p, terms, b) == Head(p, terms, a + b)
  {
    hide ValueText;
    if terms != [] {
      HeadOfUnion(p, terms[1..], a, b);
      TailOfUnion(p, terms[1..], a, b);
      HeadBelowTail(p, terms[1..], b);
    }
  }

  lemma {:induction false} NothingMissing(terms: seq<Term>, values: Values)
    ensures Missing(terms, values) == [] <==> forall i :: 0 <= i < |terms| ==> terms[i].name in values
  {
    if terms != [] {
      NothingMissing(terms[1..], values);
      assert forall i :: 1 <= i < |terms| ==> terms[i] == terms[1..][i - 1];
    }
  }

  /** A part whose terms all have a value renders alike when more values are known. */
  lemma FilledPart(p: Part, a: Values, b: Values)
    requires MissingTerms(p, a) == [] && a.Keys !! b.Keys
    ensures PartText(p, a) == PartText(p, a + b)
    ensures PartFails(p, a) <==> PartFails(p, a + b)
  {
    if p.raw == [] {
      NothingMissing(p.terms, a);
      TermNamesAt(p.terms);
      TermsDependOnNames(p, p.terms, a, a + b);
    }
  }

  lemma LiteralText(raw: Text, values: Values)
    ensures PartText(Literal(raw), values) == raw && !PartFails(Literal(raw), values)
  {
  }

  lemma PartOfUnion(p: Part, a: Values, b: Values)
    requires WellFormedPart(p) && a.Keys !! b.Keys
    ensures var twice, once := PartText(PartialPart(p, a), b), PartText(p, a + b);
            && |twice| <= |once|
            && (|twice| == |once| <==> Undisturbed(p, a, b))
            && (Undisturbed(p, a, b) ==> twice == once)
  {
    hide NameBytes, Head, PresentTexts;
    if MissingTerms(p, a) == [] {
      FilledPart(p, a, b);
      LiteralText(PartText(p, a), b);
    } else {
      PartTextIsHead(p, b);
      PartTextIsHead(p, a + b);
      HeadOfUnion(p, p.terms, a, b);
    }
  }

  lemma PartFailsOfUnion(p: Part, a: Values, b: Values)
    requires a.Keys !! b.Keys
    ensures PartFails(p, a + b) <==> PartFails(p, a) || PartFails(PartialPart(p, a), b)
  {
    if MissingTerms(p, a) == [] {
      FilledPart(p, a, b);
      LiteralText(PartText(p, a), b);
    } else {
      assert forall t: Term :: Truncates(t, a + b) <==> Truncates(t, a) || Truncates(t, b);
    }
  }

  lemma {:induction false} FailsOfUnion(parts: seq<Part>, a: Values, b: Values)
    requires a.Keys !! b.Keys
    ensures Fails(parts, a + b) <==> Fails(parts, a) || Fails(PartialParts(parts, a), b)
  {
    if parts != [] {
      PartFailsOfUnion(parts[0], a, b);
      FailsOfUnion(parts[1..], a, b);
      FailsStep(parts, a);
      FailsStep(parts, a + b);
      FailsStep(PartialParts(parts, a), b);
    }
  }

  lemma {:induction false} PartsOfUnion(parts: seq<Part>, a: Values, b: Values)
    requires WellFormed(parts) && a.Keys !! b.Keys
    ensures var twice, once := PartsText(PartialParts(parts, a), b), PartsText(parts, a + b);
            && |twice| <= |once|
            && (|twice| == |once| <==> forall i :: 0 <= i < |parts| ==> Undisturbed(parts[i], a, b))
            && (|twice| == |once| ==> twice == once)
  {
    hide WellFormedPart, Undisturbed, PartText, PartialPart;
    if parts != [] {
      PartOfUnion(parts[0], a, b);
      PartsOfUnion(parts[1..], a, b);
      assert forall i :: 1 <= i < |parts| ==> parts[i] == parts[1..][i - 1];
      assert PartialParts(parts, a)[1..] == PartialParts(parts[1..], a);
    }
  }

  /** Expanding with a, then the returned part list with b. */
  function TwiceInMemory(parts: seq<Part>, a: Values, b: Values): Result<Text> {
    match PartiallyExpanded(parts, a)
    case Err(fault) => Err(fault)
    case Ok(partial) => Expanded(partial.parts, b)
  }

  /** For disjoint values, the part list of a partial expansion completes to the full
      expansion exactly when every part is undisturbed. */
  lemma InMemoryCompletes(parts: seq<Part>, a: Values, b: Values)
    requires WellFormed(parts) && a.Keys !! b.Keys
    ensures TwiceInMemory(parts, a, b) == Expanded(parts, a + b) <==>
            Fails(parts, a + b) || forall i :: 0 <= i < |parts| ==> Undisturbed(parts[i], a, b)
  {
    FailsOfUnion(parts, a, b);
    PartsOfUnion(parts, a, b);
  }

  predicate AllOrNone(p: Part, values: Values) {
    |MissingTerms(p, values)| in {0, |p.terms|}
  }

  lemma {:induction false} NoneGiven(p: Part, terms: seq<Term>, a: Values, b: Values, written: bool)
    requires |Missing(terms, a)| == |terms|
    ensures Quiet(p, terms, a, b, written)
    ensures forall i :: 0 <= i < |terms| ==> terms[i].name !in a
  {
    if terms != [] {
      MissingLength(terms[1..], a);
      var now := terms[0].name in b && ValueText(p, terms[0], b[terms[0].name]) != [];
      NoneGiven(p, terms[1..], a, b, written || now);
      assert forall i :: 1 <= i < |terms| ==> terms[i] == terms[1..][i - 1];
    }
  }

  lemma {:induction false} MissingLength(terms: seq<Term>, values: Values)
    ensures |Missing(terms, values)| <= |terms|
  {
    if terms != [] {
      MissingLength(terms[1..], values);
    }
  }

  /** In particular it does when the first values fill each expression or leave it alone. */
  lemma AllOrNoneCompletes(parts: seq<Part>, a: Values, b: Values)
    requires WellFormed(parts) && a.Keys !! b.Keys
    requires forall i :: 0 <= i < |parts| ==> AllOrNone(parts[i], a)
    ensures TwiceInMemory(parts, a, b) == Expanded(parts, a + b)
  {
    forall i | 0 <= i < |parts|
      ensures Undisturbed(parts[i], a, b)
    {
      var p := parts[i];
      assert AllOrNone(p, a);
      if MissingTerms(p, a) != [] {
        NoneGiven(p, p.terms, a, b, false);
      }
    }
    InMemoryCompletes(parts, a, b);
  }
}
