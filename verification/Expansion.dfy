/** Expansion into a shared buffer, and the text it must produce. */
module Expansion {
  import opened Text
  import opened Escaping
  import opened Templates

  // ---------- what one variable renders to ----------

  function NameText(p: Part, name: Text, empty: bool): Text {
    if !p.named then [] else name + if empty then p.ifemp else [EQUALS]
  }

  /** The prefix modifier cuts bytes. */
  function Truncated(s: Text, n: int): Text {
    if |s| > n && n > 0 then s[..n] else s
  }

  function StringText(p: Part, term: Term, s: Text): Text {
    var cut := Truncated(s, term.truncate);
    NameText(p, term.name, cut == []) + Escaped(cut, p.allowReserved)
  }

  /** One list element; an exploded element of a named operator carries the name. */
  function ItemText(p: Part, term: Term, s: Text): Text {
    if term.explode then StringText(p, term, s)
    else Escaped(Truncated(s, term.truncate), p.allowReserved)
  }

  function ItemTexts(p: Part, term: Term, items: seq<Text>): (r: seq<Text>)
    ensures |r| == |items|
  {
    if items == [] then [] else [ItemText(p, term, items[0])] + ItemTexts(p, term, items[1..])
  }

  function PairText(p: Part, term: Term, pair: (Text, Text)): (r: Text)
    ensures r != []
  {
    Escaped(pair.0, p.allowReserved)
    + [if term.explode then EQUALS else COMMA]
    + Escaped(pair.1, p.allowReserved)
  }

  function PairTexts(p: Part, term: Term, pairs: seq<(Text, Text)>): (r: seq<Text>)
    ensures |r| == |pairs|
    ensures forall t :: t in r ==> t != []
  {
    if pairs == [] then [] else [PairText(p, term, pairs[0])] + PairTexts(p, term, pairs[1..])
  }

  function Separator(p: Part, term: Term): Text {
    if term.explode then p.sep else [COMMA]
  }

  function Heading(p: Part, term: Term): Text {
    if term.explode then [] else NameText(p, term.name, false)
  }

  function ValueText(p: Part, term: Term, v: Value): Text {
    match v
    case Str(s) => StringText(p, term, s)
    case List(items) =>
      if items == [] then []
      else Heading(p, term) + Join(ItemTexts(p, term, items), Separator(p, term))
    case Map(pairs) =>
      if pairs == [] then []
      else Heading(p, term) + Join(PairTexts(p, term, pairs), Separator(p, term))
  }

  // ---------- what a part and a template render to ----------

  /** The renderings of the terms that have a value, in term order. */
  function PresentTexts(p: Part, terms: seq<Term>, values: Values): seq<Text> {
    if terms == [] then []
    else
      var rest := PresentTexts(p, terms[1..], values);
      if terms[0].name in values then [ValueText(p, terms[0], values[terms[0].name])] + rest else rest
  }

  function Missing(terms: seq<Term>, values: Values): seq<Term> {
    if terms == [] then []
    else if terms[0].name in values then Missing(terms[1..], values)
    else [terms[0]] + Missing(terms[1..], values)
  }

  function MissingTerms(p: Part, values: Values): seq<Term> {
    if p.raw != [] then [] else Missing(p.terms, values)
  }

  /** Drops the empty texts before the first non-empty one. */
  function DropEmpty(texts: seq<Text>): seq<Text> {
    if texts == [] then [] else if texts[0] == [] then DropEmpty(texts[1..]) else texts
  }

  /** The whole of an expression: nothing when every rendering is empty; otherwise the
      operator's first string and the renderings joined by its separator, where empty
      renderings before the first non-empty one do not take part. */
  function PartText(p: Part, values: Values): Text {
    if p.raw != [] then p.raw
    else
      var texts := DropEmpty(PresentTexts(p, p.terms, values));
      if texts == [] then [] else p.first + Join(texts, p.sep)
  }

  predicate Truncates(term: Term, values: Values) {
    term.name in values && values[term.name].Map? && term.truncate > 0
  }

  /** A prefix on a map value is the one error of expansion. */
  predicate PartFails(p: Part, values: Values) {
    p.raw == [] && exists i :: 0 <= i < |p.terms| && Truncates(p.terms[i], values)
  }

  predicate Fails(parts: seq<Part>, values: Values) {
    exists i :: 0 <= i < |parts| && PartFails(parts[i], values)
  }

  function PartsText(parts: seq<Part>, values: Values): Text {
    if parts == [] then [] else PartText(parts[0], values) + PartsText(parts[1..], values)
  }

  function Expanded(parts: seq<Part>, values: Values): Result<Text> {
    if Fails(parts, values) then Err(TruncatedMap) else Ok(PartsText(parts, values))
  }

  // ---------- the code ----------

  class Buffer {
    var data: Text

    constructor ()
      ensures data == []
    {
      data := [];
    }

    function Len(): nat
      reads this
    {
      |data|
    }

    method WriteString(s: Text)
      modifies this
      ensures data == old(data) + s
    {
      data := data + s;
    }

    method Reset()
      modifies this
      ensures data == []
    {
      data := [];
    }
  }

  lemma ListText(p: Part, term: Term, items: seq<Text>)
    requires items != []
    ensures ValueText(p, term, List(items)) ==
            Heading(p, term) + Join(ItemTexts(p, term, items), Separator(p, term))
  {
  }

  lemma MapText(p: Part, term: Term, pairs: seq<(Text, Text)>)
    requires pairs != []
    ensures ValueText(p, term, Map(pairs)) ==
            Heading(p, term) + Join(PairTexts(p, term, pairs), Separator(p, term))
  {
  }

  method ExpandName(p: Part, buf: Buffer, name: Text, empty: bool)
    modifies buf
    ensures buf.data == old(buf.data) + NameText(p, name, empty)
  {
    if p.named {
      buf.WriteString(name);
      if empty {
        buf.WriteString(p.ifemp);
      } else {
        buf.WriteString([EQUALS]);
      }
    }
  }

  method ExpandString(p: Part, buf: Buffer, term: Term, text: Text)
    modifies buf
    ensures buf.data == old(buf.data) + StringText(p, term, text)
  {
    var s := text;
    if |s| > term.truncate && term.truncate > 0 {
      s := s[..term.truncate];
    }
    ExpandName(p, buf, term.name, |s| == 0);
    var escaped := Escape(s, p.allowReserved);
    buf.WriteString(escaped);
  }

  /** The body of the array loop: one element, behind its separator. */
  method ExpandItem(p: Part, buf: Buffer, term: Term, value: Text)
    modifies buf
    ensures buf.data == old(buf.data) + ItemText(p, term, value)
  {
    var s := value;
    if |s| > term.truncate && term.truncate > 0 {
      s := s[..term.truncate];
    }
    if p.named && term.explode {
      ExpandName(p, buf, term.name, |s| == 0);
    }
    var escaped := Escape(s, p.allowReserved);
    buf.WriteString(escaped);
  }

  /** The body of the map loop: one pair, behind its separator. */
  method ExpandPair(p: Part, buf: Buffer, term: Term, pair: (Text, Text))
    modifies buf
    ensures buf.data == old(buf.data) + PairText(p, term, pair)
  {
    var k := Escape(pair.0, p.allowReserved);
    buf.WriteString(k);
    buf.WriteString(if term.explode then [EQUALS] else [COMMA]);
    var s := Escape(pair.1, p.allowReserved);
    buf.WriteString(s);
    AppendThree(old(buf.data), k, if term.explode then [EQUALS] else [COMMA], s);
  }

  method WriteSeparator(p: Part, buf: Buffer, term: Term, needed: bool)
    modifies buf
    ensures buf.data == old(buf.data) + if needed then Separator(p, term) else []
  {
    if term.explode && needed {
      buf.WriteString(p.sep);
    } else if needed {
      buf.WriteString([COMMA]);
    }
  }

  method ExpandArray(p: Part, buf: Buffer, term: Term, a: seq<Text>)
    modifies buf
    ensures buf.data == old(buf.data) + ValueText(p, term, List(a))
  {
    if |a| == 0 {
      return;
    } else if !term.explode {
      ExpandName(p, buf, term.name, false);
    }
    assert buf.data == old(buf.data) + Heading(p, term);
    ghost var base, done := buf.data, [];
    for i := 0 to |a|
      invariant done == Join(ItemTexts(p, term, a[..i]), Separator(p, term))
      invariant buf.data == base + done
    {
      hide *;
      ghost var sep := if i > 0 then Separator(p, term) else [];
      WriteSeparator(p, buf, term, i > 0);
      ExpandItem(p, buf, term, a[i]);
      JoinedItems(p, term, a, i);
      AppendThree(base, done, sep, ItemText(p, term, a[i]));
      done := done + sep + ItemText(p, term, a[i]);
    }
    ListText(p, term, a);
    hide *;
    assert a[..|a|] == a;
    Associate(old(buf.data), Heading(p, term), done);
  }

  method ExpandMap(p: Part, buf: Buffer, term: Term, m: seq<(Text, Text)>)
    modifies buf
    ensures buf.data == old(buf.data) + ValueText(p, term, Map(m))
  {
    if |m| == 0 {
      return;
    }
    if !term.explode {
      ExpandName(p, buf, term.name, |m| == 0);
    }
    assert buf.data == old(buf.data) + Heading(p, term);
    var firstLen := buf.Len();
    ghost var base, done := buf.data, [];
    for i := 0 to |m|
      invariant done == Join(PairTexts(p, term, m[..i]), Separator(p, term))
      invariant firstLen == |base| && buf.data == base + done && (done == [] <==> i == 0)
    {
      var first := firstLen == buf.Len();
      hide *;
      ghost var sep := if i > 0 then Separator(p, term) else [];
      WriteSeparator(p, buf, term, !first);
      ExpandPair(p, buf, term, m[i]);
      JoinedPairs(p, term, m, i);
      AppendThree(base, done, sep, PairText(p, term, m[i]));
      done := done + sep + PairText(p, term, m[i]);
    }
    MapText(p, term, m);
    hide *;
    assert m[..|m|] == m;
    Associate(old(buf.data), Heading(p, term), done);
  }

  /** The switch on the kind of a value. */
  method ExpandValue(p: Part, buf: Buffer, term: Term, value: Value) returns (failed: bool)
    modifies buf
    ensures failed == (value.Map? && term.truncate > 0)
    ensures buf.data == old(buf.data) + if failed then [] else ValueText(p, term, value)
  {
    failed := false;
    match value {
      case Str(s) =>
        ExpandString(p, buf, term, s);
      case List(items) =>
        ExpandArray(p, buf, term, items);
      case Map(pairs) =>
        if term.truncate > 0 {
          return true;
        }
        ExpandMap(p, buf, term, pairs);
    }
  }

  /** Writes one part. Separators are decided by comparing buffer lengths, and an
      expression that wrote nothing but its first string is rolled back. */
  method Expand(p: Part, buf: Buffer, values: Values) returns (missing: seq<Term>, failed: bool)
    modifies buf
    ensures failed == PartFails(p, values)
    ensures old(buf.data) <= buf.data
    ensures !failed ==> buf.data == old(buf.data) + PartText(p, values)
    ensures !failed ==> missing == MissingTerms(p, values)
  {
    missing, failed := [], false;
    if |p.raw| > 0 {
      buf.WriteString(p.raw);
      return;
    }
    var zeroLen := buf.Len();
    buf.WriteString(p.first);
    var firstLen := buf.Len();
    assert p.terms[..0] == [];
    ghost var done := [];
    for i := 0 to |p.terms|
      invariant forall j :: 0 <= j < i ==> !Truncates(p.terms[j], values)
      invariant missing == Missing(p.terms[..i], values)
      invariant done == Payload(p, p.terms[..i], values)
      invariant buf.data == old(buf.data) + p.first + done
    {
      hide Payload, Missing, ValueText, PartText;
      var term := p.terms[i];
      MissingStep(p.terms, values, i);
      PayloadStep(p, values, i);
      ghost var sep := if done == [] then [] else p.sep;
      if term.name !in values {
        missing := missing + [term];
        continue;
      }
      if buf.Len() != firstLen {
        buf.WriteString(p.sep);
      }
      failed := ExpandValue(p, buf, term, values[term.name]);
      if failed {
        assert Truncates(p.terms[i], values);
        return;
      }
      ghost var text := ValueText(p, term, values[term.name]);
      AppendThree(old(buf.data) + p.first, done, sep, text);
      done := done + sep + text;
    }
    assert p.terms[..|p.terms|] == p.terms;
    PartTextOfPayload(p, values);
    hide PartText, PartFails, Payload, Missing, Truncates;
    Associate(old(buf.data), p.first, done);
    if buf.Len() == firstLen {
      var original := buf.data[..zeroLen];
      buf.Reset();
      buf.WriteString(original);
    }
  }

  method ExpandAll(parts: seq<Part>, values: Values) returns (result: Result<Text>)
    ensures result == Expanded(parts, values)
  {
    var buf := new Buffer();
    assert parts[..0] == [];
    for i := 0 to |parts|
      invariant forall j :: 0 <= j < i ==> !PartFails(parts[j], values)
      invariant buf.data == PartsText(parts[..i], values)
    {
      hide PartFails, PartText;
      var _, failed := Expand(parts[i], buf, values);
      if failed {
        return Err(TruncatedMap);
      }
      PartsTextStep(parts, values, i);
    }
    assert parts[..|parts|] == parts;
    return Ok(buf.data);
  }

  // ---------- proof of the loops ----------

  /** What has been written after the first string. */
  function Payload(p: Part, terms: seq<Term>, values: Values): Text {
    Join(DropEmpty(PresentTexts(p, terms, values)), p.sep)
  }

  lemma {:induction false} DropEmptyShape(texts: seq<Text>, sep: Text)
    ensures var rest := DropEmpty(texts);
            && (rest != [] ==> rest[0] != [])
            && (rest == [] <==> Join(rest, sep) == [])
            && (rest == [] <==> forall i :: 0 <= i < |texts| ==> texts[i] == [])
  {
    if texts != [] && texts[0] == [] {
      DropEmptyShape(texts[1..], sep);
    }
  }

  lemma {:induction false} DropEmptyAppend(texts: seq<Text>, last: Text)
    ensures DropEmpty(texts + [last]) ==
            if DropEmpty(texts) != [] then DropEmpty(texts) + [last]
            else if last == [] then [] else [last]
  {
    if texts == [] {
      assert texts + [last] == [last];
      assert [last][1..] == [];
    } else {
      assert (texts + [last])[1..] == texts[1..] + [last];
      DropEmptyAppend(texts[1..], last);
    }
  }

  lemma PayloadLength(p: Part, terms: seq<Term>, values: Values)
    ensures Payload(p, terms, values) == [] <==> DropEmpty(PresentTexts(p, terms, values)) == []
  {
    DropEmptyShape(PresentTexts(p, terms, values), p.sep);
  }

  lemma PartTextOfPayload(p: Part, values: Values)
    requires p.raw == []
    ensures var payload := Payload(p, p.terms, values);
            PartText(p, values) == if payload == [] then [] else p.first + payload
    ensures MissingTerms(p, values) == Missing(p.terms, values)
    ensures PartFails(p, values) <==> exists i :: 0 <= i < |p.terms| && Truncates(p.terms[i], values)
  {
    PayloadLength(p, p.terms, values);
  }

  lemma {:induction false} PresentTextsAppend(p: Part, a: seq<Term>, b: seq<Term>, values: Values)
    ensures PresentTexts(p, a + b, values) == PresentTexts(p, a, values) + PresentTexts(p, b, values)
  {
    if a == [] {
      assert a + b == b;
    } else {
      hide ValueText;
      PresentTextsAppend(p, a[1..], b, values);
      assert (a + b)[1..] == a[1..] + b && (a + b)[0] == a[0];
    }
  }

  lemma {:induction false} MissingAppend(a: seq<Term>, b: seq<Term>, values: Values)
    ensures Missing(a + b, values) == Missing(a, values) + Missing(b, values)
  {
    if a == [] {
      assert a + b == b;
    } else {
      MissingAppend(a[1..], b, values);
      assert (a + b)[1..] == a[1..] + b && (a + b)[0] == a[0];
      Associate([a[0]], Missing(a[1..], values), Missing(b, values));
    }
  }

  lemma MissingStep(terms: seq<Term>, values: Values, i: nat)
    requires i < |terms|
    ensures Missing(terms[..i + 1], values) ==
            Missing(terms[..i], values) + if terms[i].name in values then [] else [terms[i]]
  {
    assert terms[..i + 1] == terms[..i] + [terms[i]];
    MissingAppend(terms[..i], [terms[i]], values);
  }

  lemma PayloadStep(p: Part, values: Values, i: nat)
    requires i < |p.terms|
    ensures var before, term := Payload(p, p.terms[..i], values), p.terms[i];
            Payload(p, p.terms[..i + 1], values) ==
            if term.name !in values then before
            else before + (if before == [] then [] else p.sep) + ValueText(p, term, values[term.name])
  {
    var term := p.terms[i];
    var texts := PresentTexts(p, p.terms[..i], values);
    assert p.terms[..i + 1] == p.terms[..i] + [term];
    PresentTextsAppend(p, p.terms[..i], [term], values);
    DropEmptyShape(texts, p.sep);
    if term.name in values {
      var text := ValueText(p, term, values[term.name]);
      assert PresentTexts(p, [term], values) == [text];
      DropEmptyAppend(texts, text);
      if DropEmpty(texts) != [] {
        JoinAppend(DropEmpty(texts), text, p.sep);
      }
    } else {
      assert PresentTexts(p, [term], values) == [];
      assert texts + [] == texts;
    }
  }

  lemma {:induction false} ItemTextsAppend(p: Part, term: Term, a: seq<Text>, last: Text)
    ensures ItemTexts(p, term, a + [last]) == ItemTexts(p, term, a) + [ItemText(p, term, last)]
  {
    if a != [] {
      ItemTextsAppend(p, term, a[1..], last);
      assert (a + [last])[1..] == a[1..] + [last];
    }
  }

  lemma {:induction false} PairTextsAppend(p: Part, term: Term, a: seq<(Text, Text)>, last: (Text, Text))
    ensures PairTexts(p, term, a + [last]) == PairTexts(p, term, a) + [PairText(p, term, last)]
  {
    if a != [] {
      PairTextsAppend(p, term, a[1..], last);
      assert (a + [last])[1..] == a[1..] + [last];
    }
  }

  lemma JoinedItems(p: Part, term: Term, a: seq<Text>, i: nat)
    requires i < |a|
    ensures Join(ItemTexts(p, term, a[..i + 1]), Separator(p, term)) ==
            Join(ItemTexts(p, term, a[..i]), Separator(p, term))
            + (if i > 0 then Separator(p, term) else []) + ItemText(p, term, a[i])
  {
    assert a[..i + 1] == a[..i] + [a[i]];
    ItemTextsAppend(p, term, a[..i], a[i]);
    if i > 0 {
      JoinAppend(ItemTexts(p, term, a[..i]), ItemText(p, term, a[i]), Separator(p, term));
    }
  }

  lemma JoinedPairs(p: Part, term: Term, m: seq<(Text, Text)>, i: nat)
    requires i < |m|
    ensures Join(PairTexts(p, term, m[..i + 1]), Separator(p, term)) ==
            Join(PairTexts(p, term, m[..i]), Separator(p, term))
            + (if i > 0 then Separator(p, term) else []) + PairText(p, term, m[i])
  {
    assert m[..i + 1] == m[..i] + [m[i]];
    PairTextsAppend(p, term, m[..i], m[i]);
    if i > 0 {
      JoinAppend(PairTexts(p, term, m[..i]), PairText(p, term, m[i]), Separator(p, term));
    }
  }

  lemma {:induction false} PartsTextAppend(a: seq<Part>, b: seq<Part>, values: Values)
    ensures PartsText(a + b, values) == PartsText(a, values) + PartsText(b, values)
  {
    hide PartText;
    if a == [] {
      assert a + b == b;
    } else {
      PartsTextAppend(a[1..], b, values);
      assert (a + b)[1..] == a[1..] + b && (a + b)[0] == a[0];
      Associate(PartText(a[0], values), PartsText(a[1..], values), PartsText(b, values));
    }
  }

  lemma PartsTextStep(parts: seq<Part>, values: Values, i: nat)
    requires i < |parts|
    ensures PartsText(parts[..i + 1], values) == PartsText(parts[..i], values) + PartText(parts[i], values)
  {
    assert parts[..i + 1] == parts[..i] + [parts[i]];
    PartsTextAppend(parts[..i], [parts[i]], values);
    assert PartsText([parts[i]], values) == PartText(parts[i], values) + PartsText([], values);
  }
}
