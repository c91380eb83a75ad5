/** The two steps of a partial expansion through its text, against one: part by part, and
    for whole templates, exactly when they give the same. */
module Completion {
  import opened Text
  import opened Escaping
  import opened Templates
  import opened Expansion
  import opened Renderings
  import opened PartialExpansion
  import opened Reparsing

  // ---------- renderings without their prefixes and without a plus ----------

  /** Nothing of s is lost to a prefix of length n, and without the plus operator, where
      it was lost, s is encoded alike. */
  predicate TextKept(plus: bool, n: int, s: Text) {
    (n <= 0 || |s| <= n) && (plus ==> !HasReserved(s))
  }

  predicate ValueKept(plus: bool, t: Term, v: Value) {
    match v
    case Str(s) => TextKept(plus, t.truncate, s)
    case List(items) => forall i :: 0 <= i < |items| ==> TextKept(plus, t.truncate, items[i])
    case Map(pairs) =>
      plus ==> forall i :: 0 <= i < |pairs| ==> !HasReserved(pairs[i].0) && !HasReserved(pairs[i].1)
  }

  predicate TermsKept(plus: bool, terms: seq<Term>, values: Values) {
    forall i :: 0 <= i < |terms| && terms[i].name in values ==> ValueKept(plus, terms[i], values[terms[i].name])
  }

  /** q differs from p at most in its first string and in not allowing reserved characters. */
  predicate Restyled(p: Part, q: Part) {
    && q.sep == p.sep && q.named == p.named && q.ifemp == p.ifemp && q.raw == p.raw
    && (q.allowReserved ==> p.allowReserved)
  }

  predicate LostPlusSign(p: Part, q: Part) {
    p.allowReserved && !q.allowReserved
  }

  lemma CutKept(s: Text, n: int, mode: bool, other: bool)
    requires other ==> mode
    ensures var cut, full := Escaped(Truncated(s, n), mode), Escaped(s, other);
            && |cut| <= |full|
            && (cut == full <==> TextKept(mode && !other, n, s))
            && (cut == [] <==> full == [])
    ensures Truncated(s, n) == [] <==> s == []
    ensures Escaped(Truncated(s, n), mode) <= Escaped(s, mode)
  {
    var cut := Truncated(s, n);
    var rest := s[|cut|..];
    assert s == cut + rest;
    EscapedAppend(cut, rest, mode);
    EscapedAppend(cut, rest, other);
    EscapeLength(cut, mode);
    EscapeLength(s, other);
    EscapeLength(rest, other);
    ReservedMatters(cut);
    assert rest == [] ==> cut == s;
  }

  lemma StringKept(p: Part, q: Part, t: Term, s: Text)
    requires Restyled(p, q)
    ensures var cut, full := StringText(p, t, s), StringText(q, Stripped(t), s);
            && |cut| <= |full|
            && (cut == full <==> TextKept(LostPlusSign(p, q), t.truncate, s))
            && (cut == [] <==> full == [])
    ensures var cut, full := ItemText(p, t, s), ItemText(q, Stripped(t), s);
            && |cut| <= |full|
            && (cut == full <==> TextKept(LostPlusSign(p, q), t.truncate, s))
            && (cut == [] <==> full == [])
  {
    CutKept(s, t.truncate, p.allowReserved, q.allowReserved);
    assert Truncated(s, 0) == s;
    hide Escaped, Truncated, TextKept;
    var name := NameText(p, t.name, s == []);
    SamePieces(name, Escaped(Truncated(s, t.truncate), p.allowReserved), name, Escaped(s, q.allowReserved));
  }

  lemma {:induction false} ItemsKept(p: Part, q: Part, t: Term, items: seq<Text>)
    requires Restyled(p, q)
    ensures var cut, full := ItemTexts(p, t, items), ItemTexts(q, Stripped(t), items);
            && (forall i :: 0 <= i < |items| ==> |cut[i]| <= |full[i]| && (cut[i] == [] <==> full[i] == []))
            && (cut == full <==> ValueKept(LostPlusSign(p, q), t, List(items)))
  {
    hide ItemText, TextKept;
    if items != [] {
      StringKept(p, q, t, items[0]);
      ItemsKept(p, q, t, items[1..]);
      var cut, full := ItemTexts(p, t, items), ItemTexts(q, Stripped(t), items);
      assert cut[1..] == ItemTexts(p, t, items[1..]) && full[1..] == ItemTexts(q, Stripped(t), items[1..]);
      assert cut == [cut[0]] + cut[1..] && full == [full[0]] + full[1..];
      assert forall i :: 0 <= i < |items| - 1 ==> items[1..][i] == items[i + 1];
    }
  }

  lemma PairKept(p: Part, q: Part, t: Term, pair: (Text, Text))
    requires Restyled(p, q)
    ensures var cut, full := PairText(p, t, pair), PairText(q, Stripped(t), pair);
            && |cut| <= |full|
            && (cut == full <==> (LostPlusSign(p, q) ==> !HasReserved(pair.0) && !HasReserved(pair.1)))
  {
    ReservedMatters(pair.0);
    ReservedMatters(pair.1);
    hide Escaped, HasReserved;
    var mark := [if t.explode then EQUALS else COMMA];
    var k, v, k', v' := Escaped(pair.0, p.allowReserved), Escaped(pair.1, p.allowReserved),
                        Escaped(pair.0, q.allowReserved), Escaped(pair.1, q.allowReserved);
    SamePieces(k + mark, v, k' + mark, v');
    SamePieces(k, mark, k', mark);
  }

  lemma {:induction false} PairsKept(p: Part, q: Part, t: Term, pairs: seq<(Text, Text)>)
    requires Restyled(p, q)
    ensures var cut, full := PairTexts(p, t, pairs), PairTexts(q, Stripped(t), pairs);
            && (forall i :: 0 <= i < |pairs| ==> |cut[i]| <= |full[i]| && cut[i] != [] && full[i] != [])
            && (cut == full <==> ValueKept(LostPlusSign(p, q), t, Map(pairs)))
  {
    hide PairText, HasReserved;
    if pairs != [] {
      PairKept(p, q, t, pairs[0]);
      PairsKept(p, q, t, pairs[1..]);
      var cut, full := PairTexts(p, t, pairs), PairTexts(q, Stripped(t), pairs);
      assert cut[1..] == PairTexts(p, t, pairs[1..]) && full[1..] == PairTexts(q, Stripped(t), pairs[1..]);
      assert cut == [cut[0]] + cut[1..] && full == [full[0]] + full[1..];
      assert forall i :: 0 <= i < |pairs| - 1 ==> pairs[1..][i] == pairs[i + 1];
    }
  }

  lemma {:induction false} JoinsEmpty(a: seq<Text>, b: seq<Text>, sep: Text)
    requires |a| == |b| && forall i :: 0 <= i < |a| ==> (a[i] == [] <==> b[i] == [])
    ensures Join(a, sep) == [] <==> Join(b, sep) == []
  {
    if |a| > 1 {
      JoinsEmpty(a[1..], b[1..], sep);
    }
  }

  /** A value never renders longer before its prefix and the plus are lost than after, and
      alike exactly when it is kept. */
  lemma RenderingKept(p: Part, q: Part, t: Term, v: Value)
    requires Restyled(p, q)
    ensures var cut, full := ValueText(p, t, v), ValueText(q, Stripped(t), v);
            && |cut| <= |full|
            && (cut == full <==> ValueKept(LostPlusSign(p, q), t, v))
            && (cut == [] <==> full == [])
  {
    var sep, head := Separator(p, t), Heading(p, t);
    match v {
      case Str(s) =>
        StringKept(p, q, t, s);
      case List(items) =>
        ItemsKept(p, q, t, items);
        hide TextKept;
        var cut, full := ItemTexts(p, t, items), ItemTexts(q, Stripped(t), items);
        JoinsAgree(cut, full, sep);
        JoinsEmpty(cut, full, sep);
        SamePieces(head, Join(cut, sep), head, Join(full, sep));
      case Map(pairs) =>
        PairsKept(p, q, t, pairs);
        hide HasReserved;
        var cut, full := PairTexts(p, t, pairs), PairTexts(q, Stripped(t), pairs);
        JoinsAgree(cut, full, sep);
        JoinsEmpty(cut, full, sep);
        SamePieces(head, Join(cut, sep), head, Join(full, sep));
    }
  }

  lemma TermsKeptStep(plus: bool, terms: seq<Term>, values: Values)
    requires terms != []
    ensures TermsKept(plus, terms, values) <==>
            && (terms[0].name in values ==> ValueKept(plus, terms[0], values[terms[0].name]))
            && TermsKept(plus, terms[1..], values)
  {
    hide ValueKept;
    assert forall i :: 0 <= i < |terms| - 1 ==> terms[1..][i] == terms[i + 1];
  }

  lemma {:induction false} TailKept(p: Part, q: Part, terms: seq<Term>, values: Values)
    requires Restyled(p, q)
    ensures var cut, full := Tail(p, terms, values), Tail(q, StrippedTerms(terms), values);
            |cut| <= |full| && (cut == full <==> TermsKept(LostPlusSign(p, q), terms, values))
  {
    if terms != [] {
      hide ValueText, ValueKept, TermsKept;
      TailKept(p, q, terms[1..], values);
      TermsKeptStep(LostPlusSign(p, q), terms, values);
      var stripped := StrippedTerms(terms);
      assert stripped[0] == Stripped(terms[0]) && stripped[1..] == StrippedTerms(terms[1..]);
      if terms[0].name in values {
        var v := values[terms[0].name];
        RenderingKept(p, q, terms[0], v);
        var cut, full := ValueText(p, terms[0], v), ValueText(q, Stripped(terms[0]), v);
        SamePieces(p.sep + cut, Tail(p, terms[1..], values), p.sep + full, Tail(q, stripped[1..], values));
        SamePieces(p.sep, cut, p.sep, full);
      }
    }
  }

  lemma {:induction false} HeadKept(p: Part, q: Part, terms: seq<Term>, values: Values)
    requires Restyled(p, q)
    ensures var cut, full := Head(p, terms, values), Head(q, StrippedTerms(terms), values);
            && |cut| <= |full|
            && (cut == full <==> TermsKept(LostPlusSign(p, q), terms, values))
            && (cut == [] <==> full == [])
  {
    if terms != [] {
      hide ValueText, ValueKept, TermsKept, Tail;
      HeadKept(p, q, terms[1..], values);
      TermsKeptStep(LostPlusSign(p, q), terms, values);
      var stripped := StrippedTerms(terms);
      assert stripped[0] == Stripped(terms[0]) && stripped[1..] == StrippedTerms(terms[1..]);
      if terms[0].name in values {
        var v := values[terms[0].name];
        RenderingKept(p, q, terms[0], v);
        TailKept(p, q, terms[1..], values);
        SamePieces(ValueText(p, terms[0], v), Tail(p, terms[1..], values),
                   ValueText(q, Stripped(terms[0]), v), Tail(q, stripped[1..], values));
      }
    }
  }

  // ---------- the terms of a part ----------

  lemma {:induction false} HeadAppend(p: Part, front: seq<Term>, back: seq<Term>, values: Values)
    ensures Tail(p, front + back, values) == Tail(p, front, values) + Tail(p, back, values)
    ensures Head(p, front + back, values) ==
            if Head(p, front, values) == [] then Head(p, back, values)
            else Head(p, front, values) + Tail(p, back, values)
  {
    hide ValueText;
    if front == [] {
      assert front + back == back;
    } else {
      HeadAppend(p, front[1..], back, values);
      var terms := front + back;
      assert terms[0] == front[0] && terms[1..] == front[1..] + back;
      if front[0].name in values {
        var text := ValueText(p, front[0], values[front[0].name]);
        Associate(text, Tail(p, front[1..], values), Tail(p, back, values));
        Associate(p.sep + text, Tail(p, front[1..], values), Tail(p, back, values));
      }
    }
  }

  lemma {:induction false} HeadDepends(p: Part, terms: seq<Term>, a: Values, b: Values)
    requires forall i :: 0 <= i < |terms| ==>
               && (terms[i].name in a <==> terms[i].name in b)
               && (terms[i].name in a ==> a[terms[i].name] == b[terms[i].name])
    ensures Head(p, terms, a) == Head(p, terms, b) && Tail(p, terms, a) == Tail(p, terms, b)
  {
    hide ValueText;
    if terms != [] {
      assert terms[0].name in a <==> terms[0].name in b;
      assert forall i :: 0 <= i < |terms[1..]| ==> terms[1..][i] == terms[i + 1];
      HeadDepends(p, terms[1..], a, b);
    }
  }

  lemma {:induction false} HeadOfAbsent(p: Part, terms: seq<Term>, values: Values)
    requires forall i :: 0 <= i < |terms| ==> terms[i].name !in values
    ensures Head(p, terms, values) == [] && Tail(p, terms, values) == []
  {
    if terms != [] {
      HeadOfAbsent(p, terms[1..], values);
    }
  }

  lemma {:induction false} AllMissing(terms: seq<Term>, values: Values)
    requires forall i :: 0 <= i < |terms| ==> terms[i].name !in values
    ensures Missing(terms, values) == terms
  {
    if terms != [] {
      AllMissing(terms[1..], values);
    }
  }

  /** No term that b fills stands before one that a has filled. */
  predicate InOrder(terms: seq<Term>, a: Values, b: Values) {
    forall i, j :: 0 <= i < j < |terms| && terms[j].name in a ==> terms[i].name in a || terms[i].name !in b
  }

  /** Behind the last filled term all are missing; before it, b fills none. */
  lemma {:induction false} SplitTerms(terms: seq<Term>, a: Values, b: Values) returns (k: nat)
    requires InOrder(terms, a, b) && a.Keys !! b.Keys
    ensures k <= |terms|
    ensures forall i :: k <= i < |terms| ==> terms[i].name !in a
    ensures forall i :: 0 <= i < k ==> terms[i].name !in b
  {
    k := |terms|;
    if k > 0 && terms[k - 1].name !in a {
      var front := terms[..k - 1];
      assert forall i :: 0 <= i < |front| ==> front[i] == terms[i];
      k := SplitTerms(front, a, b);
    }
  }

  /** Terms without a value do not matter. */
  lemma HeadBehind(p: Part, gone: seq<Term>, terms: seq<Term>, values: Values)
    requires forall i :: 0 <= i < |gone| ==> gone[i].name !in values
    ensures Head(p, gone + terms, values) == Head(p, terms, values)
    ensures Tail(p, gone + terms, values) == Tail(p, terms, values)
  {
    HeadAppend(p, gone, terms, values);
    HeadOfAbsent(p, gone, values);
    assert [] + Tail(p, terms, values) == Tail(p, terms, values);
  }

  /** The whole part in terms of what is written and of its missing terms. */
  lemma PartHeads(p: Part, a: Values, b: Values)
    requires p.raw == [] && InOrder(p.terms, a, b) && a.Keys !! b.Keys
    ensures var missing := Missing(p.terms, a);
            var written, rest, tail := Head(p, p.terms, a), Head(p, missing, b), Tail(p, missing, b);
            && PartText(p, a) == (if written == [] then [] else p.first + written)
            && PartText(p, b) == (if rest == [] then [] else p.first + rest)
            && PartText(p, a + b) == if written != [] then p.first + (written + tail)
                                     else if rest == [] then [] else p.first + rest
  {
    var k := SplitTerms(p.terms, a, b);
    var front, back, gone := p.terms[..k], p.terms[k..], Missing(p.terms[..k], a);
    assert p.terms == front + back;
    hide Head, Tail, PartText, Missing, InOrder;
    PartTextIsHead(p, a);
    PartTextIsHead(p, b);
    PartTextIsHead(p, a + b);
    HeadAppend(p, front, back, a);
    HeadAppend(p, front, back, b);
    HeadAppend(p, front, back, a + b);
    HeadOfAbsent(p, back, a);
    HeadOfAbsent(p, front, b);
    HeadDepends(p, front, a, a + b);
    HeadDepends(p, back, b, a + b);
    MissingAppend(front, back, a);
    AllMissing(back, a);
    MissingTermsExist(front, a);
    forall i | 0 <= i < |gone| ensures gone[i].name !in b { assert gone[i] in gone && gone[i] in front; }
    HeadBehind(p, gone, back, b);
    assert Head(p, front, a) + [] == Head(p, front, a);
  }

  // ---------- lost separators and cut bytes ----------

  /** A mark, and a rendering as a prefix cuts it and in full. */
  datatype Atom = Atom(mark: byte, cut: Text, full: Text)

  predicate Prefixes(atoms: seq<Atom>) {
    forall i :: 0 <= i < |atoms| ==> atoms[i].cut <= atoms[i].full
  }

  function CutText(atoms: seq<Atom>): Text {
    if atoms == [] then [] else [atoms[0].mark] + atoms[0].cut + CutText(atoms[1..])
  }

  function FullText(atoms: seq<Atom>): Text {
    if atoms == [] then [] else [atoms[0].mark] + atoms[0].full + FullText(atoms[1..])
  }

  /** Exactly k bytes are cut in all; they are separators, and nothing but separators is
      written before and between them. */
  predicate Repaid(atoms: seq<Atom>, sep: byte, k: nat) {
    if atoms == [] then k == 0
    else
      var lost := |atoms[0].full| - |atoms[0].cut|;
      if k == 0 then lost == 0 && Repaid(atoms[1..], sep, 0)
      else
        && atoms[0].mark == sep && Only(atoms[0].full, sep)
        && 0 <= lost <= k && Repaid(atoms[1..], sep, k - lost)
  }

  /** The bytes other than the separator. */
  function Others(s: Text, sep: byte): nat {
    if s == [] then 0 else (if s[0] == sep then 0 else 1) + Others(s[1..], sep)
  }

  lemma {:induction false} OthersSum(s: Text, t: Text, sep: byte)
    ensures Others(s + t, sep) == Others(s, sep) + Others(t, sep)
  {
    if s == [] {
      assert s + t == t;
    } else {
      OthersSum(s[1..], t, sep);
      assert (s + t)[1..] == s[1..] + t;
    }
  }

  lemma {:induction false} NoOthers(s: Text, sep: byte)
    ensures Others(s, sep) == 0 <==> Only(s, sep)
  {
    if s != [] {
      NoOthers(s[1..], sep);
      assert forall i :: 1 <= i < |s| ==> s[i] == s[1..][i - 1];
    }
  }

  lemma {:induction false} OthersCut(atoms: seq<Atom>, sep: byte)
    requires Prefixes(atoms)
    ensures Others(CutText(atoms), sep) <= Others(FullText(atoms), sep)
    ensures |CutText(atoms)| <= |FullText(atoms)|
    ensures CutText(atoms) == FullText(atoms) <==> Repaid(atoms, sep, 0)
  {
    if atoms != [] {
      OthersCut(atoms[1..], sep);
      var m, t, u := [atoms[0].mark], atoms[0].cut, atoms[0].full;
      var rest, rest' := CutText(atoms[1..]), FullText(atoms[1..]);
      assert u == t + u[|t|..];
      OthersSum(t, u[|t|..], sep);
      OthersSum(m + t, rest, sep);
      OthersSum(m, t, sep);
      OthersSum(m + u, rest', sep);
      OthersSum(m, u, sep);
      SamePieces(m + t, rest, m + u, rest');
      SamePieces(m, t, m, u);
    }
  }

  /** With separators in front, the first other byte of u stands too late. */
  lemma OtherStandsLate(k: nat, sep: byte, t: Text, rest: Text, u: Text, rest': Text)
    requires k > 0 && t <= u && !Only(u, sep) && Others(rest, sep) <= Others(rest', sep)
    ensures Repeat(sep, k) + t + rest != u + rest'
  {
    var front := Repeat(sep, k) + t;
    if Only(t, sep) {
      NoOthers(front, sep);
      NoOthers(u, sep);
      OthersSum(front, rest, sep);
      OthersSum(u, rest', sep);
      assert Others(front + rest, sep) < Others(u + rest', sep);
    } else {
      assert u == t + u[|t|..];
      Associate(t, u[|t|..], rest');
      OtherComesLate(sep, k, t, rest, u[|t|..] + rest');
    }
  }

  lemma SeparatorsOnly(k: nat, sep: byte, t: Text, rest: Text, u: Text, rest': Text)
    requires t <= u && Only(u, sep) && |rest| <= |rest'|
    ensures Repeat(sep, k) + t + rest == u + rest' <==>
            |u| - |t| <= k && Repeat(sep, k - (|u| - |t|)) + rest == rest'
  {
    assert t == Repeat(sep, |t|) && u == Repeat(sep, |u|);
    RepeatSum(sep, k, |t|);
    if |u| - |t| <= k {
      var j := k - (|u| - |t|);
      RepeatSum(sep, |u|, j);
      assert Repeat(sep, k) + t + rest == u + (Repeat(sep, j) + rest);
      SameFront(u, Repeat(sep, j) + rest, rest');
    }
  }

  lemma SeparatorMoves(k: nat, sep: byte, t: Text, rest: Text, u: Text, other: Text)
    ensures Repeat(sep, k) + ([sep] + t + rest) == [sep] + u + other <==>
            Repeat(sep, k) + t + rest == u + other
  {
    RepeatSum(sep, k, 1);
    assert Repeat(sep, k) + ([sep] + t + rest) == [sep] + (Repeat(sep, k) + t + rest);
    Associate([sep], u, other);
    SameFront([sep], Repeat(sep, k) + t + rest, u + other);
  }

  lemma OtherMark(k: nat, sep: byte, mark: byte, left: Text, right: Text)
    requires k > 0 && mark != sep
    ensures Repeat(sep, k) + left != [mark] + right
  {
    assert (Repeat(sep, k) + left)[0] == sep && ([mark] + right)[0] == mark;
  }

  /** k separators more in front of the cut renderings give the full ones exactly when
      the cut bytes repay them. */
  lemma {:induction false} RepaidDecides(atoms: seq<Atom>, sep: byte, k: nat)
    requires Prefixes(atoms)
    ensures Repeat(sep, k) + CutText(atoms) == FullText(atoms) <==> Repaid(atoms, sep, k)
  {
    if k == 0 {
      OthersCut(atoms, sep);
      assert Repeat(sep, k) + CutText(atoms) == CutText(atoms);
    } else if atoms != [] {
      var m, t, u := atoms[0].mark, atoms[0].cut, atoms[0].full;
      var rest, other := CutText(atoms[1..]), FullText(atoms[1..]);
      assert CutText(atoms) == [m] + t + rest && FullText(atoms) == [m] + u + other;
      OthersCut(atoms[1..], sep);
      hide CutText, FullText, Others, Repeat, Only;
      if m != sep {
        Associate([m], t, rest);
        Associate([m], u, other);
        OtherMark(k, sep, m, [m] + t + rest, u + other);
      } else {
        SeparatorMoves(k, sep, t, rest, u, other);
        if Only(u, sep) {
          SeparatorsOnly(k, sep, t, rest, u, other);
          if |u| - |t| <= k {
            RepaidDecides(atoms[1..], sep, k - (|u| - |t|));
          }
        } else {
          OtherStandsLate(k, sep, t, rest, u, other);
        }
      }
    }
  }

  // ---------- the renderings behind written text ----------

  function ItemAtoms(p: Part, t: Term, mark: byte, heading: Text, items: seq<Text>): seq<Atom>
    decreases items
  {
    if items == [] then []
    else
      [Atom(mark, heading + ItemText(p, t, items[0]), heading + ItemText(p, Stripped(t), items[0]))]
      + ItemAtoms(p, t, COMMA, [], items[1..])
  }

  /** A list that is not exploded may be cut in every item. */
  function TermAtoms(p: Part, t: Term, v: Value): seq<Atom> {
    if v.List? && v.items != [] && !t.explode then ItemAtoms(p, t, Mark(p), Heading(p, t), v.items)
    else [Atom(Mark(p), ValueText(p, t, v), ValueText(p, Stripped(t), v))]
  }

  function Atoms(p: Part, terms: seq<Term>, values: Values): seq<Atom> {
    if terms == [] then []
    else if terms[0].name !in values then Atoms(p, terms[1..], values)
    else TermAtoms(p, terms[0], values[terms[0].name]) + Atoms(p, terms[1..], values)
  }

  predicate NoExplodedPrefix(terms: seq<Term>) {
    forall i :: 0 <= i < |terms| ==> !(terms[i].explode && terms[i].truncate > 0)
  }

  lemma {:induction false} AtomsAppend(a: seq<Atom>, b: seq<Atom>)
    requires Prefixes(a) && Prefixes(b)
    ensures Prefixes(a + b)
    ensures CutText(a + b) == CutText(a) + CutText(b)
    ensures FullText(a + b) == FullText(a) + FullText(b)
  {
    if a == [] {
      assert a + b == b;
    } else {
      AtomsAppend(a[1..], b);
      assert (a + b)[1..] == a[1..] + b;
      Associate([a[0].mark] + a[0].cut, CutText(a[1..]), CutText(b));
      Associate([a[0].mark] + a[0].full, FullText(a[1..]), FullText(b));
    }
  }

  lemma StringPrefix(p: Part, t: Term, s: Text)
    ensures StringText(p, t, s) <= StringText(p, Stripped(t), s)
    ensures ItemText(p, t, s) <= ItemText(p, Stripped(t), s)
  {
    CutKept(s, t.truncate, p.allowReserved, p.allowReserved);
    assert Truncated(s, 0) == s;
    hide Escaped, Truncated;
  }

  lemma {:induction false} ItemAtomsText(p: Part, t: Term, mark: byte, heading: Text, items: seq<Text>)
    requires items != []
    ensures var atoms := ItemAtoms(p, t, mark, heading, items);
            && Prefixes(atoms)
            && CutText(atoms) == [mark] + (heading + Join(ItemTexts(p, t, items), [COMMA]))
            && FullText(atoms) == [mark] + (heading + Join(ItemTexts(p, Stripped(t), items), [COMMA]))
    decreases items
  {
    hide ItemText;
    StringPrefix(p, t, items[0]);
    var atoms := ItemAtoms(p, t, mark, heading, items);
    var cut, full := ItemTexts(p, t, items), ItemTexts(p, Stripped(t), items);
    assert cut[1..] == ItemTexts(p, t, items[1..]) && full[1..] == ItemTexts(p, Stripped(t), items[1..]);
    assert atoms[1..] == ItemAtoms(p, t, COMMA, [], items[1..]);
    if |items| == 1 {
      assert atoms[1..] == [];
    } else {
      ItemAtomsText(p, t, COMMA, [], items[1..]);
      hide Join, ItemTexts, ItemAtoms;
      JoinedAtom(mark, heading, cut);
      JoinedAtom(mark, heading, full);
    }
  }

  lemma JoinedAtom(mark: byte, heading: Text, texts: seq<Text>)
    requires |texts| > 1
    ensures [mark] + (heading + Join(texts, [COMMA])) ==
            [mark] + (heading + texts[0]) + ([COMMA] + ([] + Join(texts[1..], [COMMA])))
  {
    var rest := Join(texts[1..], [COMMA]);
    assert Join(texts, [COMMA]) == texts[0] + [COMMA] + rest && [] + rest == rest;
    hide Join;
    Associate(texts[0], [COMMA], rest);
    Associate(heading, texts[0], [COMMA] + rest);
    Associate([mark], heading + texts[0], [COMMA] + rest);
  }

  lemma TermAtomsText(p: Part, t: Term, v: Value)
    requires |p.sep| == 1 && !(t.explode && t.truncate > 0)
    ensures var atoms := TermAtoms(p, t, v);
            && Prefixes(atoms)
            && CutText(atoms) == p.sep + ValueText(p, t, v)
            && FullText(atoms) == p.sep + ValueText(p, Stripped(t), v)
  {
    assert p.sep == [Mark(p)];
    if v.List? && v.items != [] && !t.explode {
      ItemAtomsText(p, t, Mark(p), Heading(p, t), v.items);
    } else {
      var atoms := TermAtoms(p, t, v);
      assert atoms[1..] == [];
      if v.Str? {
        StringPrefix(p, t, v.text);
      } else {
        RenderingKept(p, p, t, v);
      }
    }
  }

  lemma {:induction false} AtomsText(p: Part, terms: seq<Term>, values: Values)
    requires |p.sep| == 1 && NoExplodedPrefix(terms)
    ensures var atoms := Atoms(p, terms, values);
            && Prefixes(atoms)
            && CutText(atoms) == Tail(p, terms, values)
            && FullText(atoms) == Tail(p, StrippedTerms(terms), values)
  {
    hide TermAtoms, ValueText;
    if terms != [] {
      assert forall i :: 0 <= i < |terms| - 1 ==> terms[1..][i] == terms[i + 1];
      AtomsText(p, terms[1..], values);
      var stripped := StrippedTerms(terms);
      assert stripped[0] == Stripped(terms[0]) && stripped[1..] == StrippedTerms(terms[1..]);
      if terms[0].name in values {
        TermAtomsText(p, terms[0], values[terms[0].name]);
        AtomsAppend(TermAtoms(p, terms[0], values[terms[0].name]), Atoms(p, terms[1..], values));
      }
    }
  }

  /** Continuing with a separator, dropping leading empty renderings again. */
  function Continued(p: Part, terms: seq<Term>, values: Values): Text {
    var head := Head(p, terms, values);
    if head == [] then [] else p.sep + head
  }

  lemma {:induction false} ContinuedBelowTail(p: Part, terms: seq<Term>, values: Values)
    ensures |Continued(p, terms, values)| <= |Tail(p, terms, values)|
  {
    hide ValueText;
    if terms != [] {
      ContinuedBelowTail(p, terms[1..], values);
    }
  }

  /** Behind written text, k empty renderings have lost their separators. Without any, the
      renderings must be kept; with some, exactly as many separators must be cut from the
      renderings, before any other byte is written. */
  predicate ResumedFrom(p: Part, terms: seq<Term>, values: Values, k: nat) {
    if terms == [] then k == 0
    else if terms[0].name !in values then ResumedFrom(p, terms[1..], values, k)
    else if ValueText(p, terms[0], values[terms[0].name]) == [] then ResumedFrom(p, terms[1..], values, k + 1)
    else if k == 0 then TermsKept(false, terms, values)
    else Repaid(Atoms(p, terms, values), Mark(p), k)
  }

  lemma ShownResumes(p: Part, terms: seq<Term>, values: Values, k: nat)
    requires |p.sep| == 1 && NoExplodedPrefix(terms)
    requires terms != [] && terms[0].name in values && ValueText(p, terms[0], values[terms[0].name]) != []
    ensures Repeat(Mark(p), k) + Tail(p, terms, values) == Continued(p, StrippedTerms(terms), values) <==>
            ResumedFrom(p, terms, values, k)
  {
    var v := values[terms[0].name];
    var stripped := StrippedTerms(terms);
    assert stripped[0] == Stripped(terms[0]) && stripped[1..] == StrippedTerms(terms[1..]);
    RenderingKept(p, p, terms[0], v);
    hide ValueText, Atoms, TermsKept, Repaid;
    assert Continued(p, stripped, values) == Tail(p, stripped, values) by {
      Associate(p.sep, ValueText(p, stripped[0], v), Tail(p, stripped[1..], values));
    }
    if k == 0 {
      TailKept(p, p, terms, values);
      assert Repeat(Mark(p), 0) + Tail(p, terms, values) == Tail(p, terms, values);
    } else {
      AtomsText(p, terms, values);
      RepaidDecides(Atoms(p, terms, values), Mark(p), k);
    }
  }

  lemma {:induction false} ResumedDecides(p: Part, terms: seq<Term>, values: Values, k: nat)
    requires |p.sep| == 1 && NoExplodedPrefix(terms)
    ensures Repeat(Mark(p), k) + Tail(p, terms, values) == Continued(p, StrippedTerms(terms), values) <==>
            ResumedFrom(p, terms, values, k)
    decreases terms
  {
    if terms != [] {
      assert forall i :: 0 <= i < |terms| - 1 ==> terms[1..][i] == terms[i + 1];
      var stripped := StrippedTerms(terms);
      assert stripped[0] == Stripped(terms[0]) && stripped[1..] == StrippedTerms(terms[1..]);
      hide ValueText, Atoms, TermsKept, Repaid;
      if terms[0].name !in values {
        ResumedDecides(p, terms[1..], values, k);
      } else if ValueText(p, terms[0], values[terms[0].name]) == [] {
        RenderingKept(p, p, terms[0], values[terms[0].name]);
        ResumedDecides(p, terms[1..], values, k + 1);
        RepeatSum(Mark(p), k, 1);
        assert p.sep == [Mark(p)];
        Associate(Repeat(Mark(p), k), p.sep, Tail(p, terms[1..], values));
      } else {
        ShownResumes(p, terms, values, k);
      }
    }
  }

  lemma {:induction false} ShownIsNotShorter(p: Part, terms: seq<Term>, values: Values)
    requires FirstShows(p, terms, values)
    ensures |Tail(p, terms, values)| <= |Continued(p, StrippedTerms(terms), values)|
  {
    hide ValueText;
    if terms != [] {
      var stripped := StrippedTerms(terms);
      assert stripped[0] == Stripped(terms[0]) && stripped[1..] == StrippedTerms(terms[1..]);
      if terms[0].name in values {
        RenderingKept(p, p, terms[0], values[terms[0].name]);
        TailKept(p, p, terms[1..], values);
      } else {
        ShownIsNotShorter(p, terms[1..], values);
      }
    }
  }

  /** The first term that has a value renders to something. */
  predicate FirstShows(p: Part, terms: seq<Term>, values: Values) {
    if terms == [] then true
    else if terms[0].name !in values then FirstShows(p, terms[1..], values)
    else ValueText(p, terms[0], values[terms[0].name]) != []
  }

  // ---------- one part ----------

  predicate Untouched(p: Part, a: Values) {
    |MissingTerms(p, a)| == |p.terms|
  }

  /** The condition for one part. Filled completely, it is a literal. Untouched, its reprint
      must render like it. Partly filled, it goes on behind what is written; with nothing
      written, the separator stands in for the operator's first string. */
  predicate Resumes(p: Part, a: Values, b: Values) {
    var missing := MissingTerms(p, a);
    if missing == [] then true
    else if Untouched(p, a) then TermsKept(PartOperator(p).Plus?, missing, b)
    else if PartText(p, a) != [] then ResumedFrom(p, missing, b, 0)
    else PartText(p, b) == [] || (p.first == p.sep && TermsKept(false, missing, b))
  }

  /** No separator is lost: the part is filled or untouched, or nothing is written, or
      the next rendering shows. */
  predicate Lossless(p: Part, a: Values, b: Values) {
    var missing := MissingTerms(p, a);
    missing == [] || Untouched(p, a) || PartText(p, a) == [] || FirstShows(p, missing, b)
  }

  /** No rendering grows: neither a plus nor a prefix is missed. */
  predicate Gainless(p: Part, a: Values, b: Values) {
    TermsKept(PartOperator(p).Plus?, MissingTerms(p, a), b)
  }

  lemma OneSeparator(p: Part, a: Values)
    requires WellFormedPart(p) && MissingTerms(p, a) != []
    ensures |p.sep| == 1 && p.raw == [] && NoExplodedPrefix(MissingTerms(p, a))
  {
    var missing := MissingOf(p, a);
    assert forall i :: 0 <= i < |missing| ==> missing[i] in missing;
    hide Missing, NameBytes;
  }

  lemma ContinuedStyle(op: Operator, terms: seq<Term>, others: seq<Term>)
    requires Expression(op, terms).sep != [COMMA]
    ensures var p := Expression(op, terms);
            var q := Expression(OperatorOf(p.sep[0]), others);
            && Restyled(p, q) && !LostPlusSign(p, q)
            && q.first == p.sep && |p.first| == |p.sep| == 1 && !op.Plus?
  {
  }

  lemma WholeStyle(op: Operator, terms: seq<Term>, others: seq<Term>)
    ensures var p, q := Expression(op, terms), Expression(if op.Plus? then Simple else op, others);
            && Restyled(p, q) && (LostPlusSign(p, q) <==> op.Plus?)
            && p.first == q.first
  {
  }

  lemma ReparsedStyle(p: Part, a: Values)
    requires WellFormedPart(p) && MissingTerms(p, a) != [] && Resumable(p, a)
    ensures var q, missing := ReparsedPart(p, a), MissingTerms(p, a);
            && Restyled(p, q) && (LostPlusSign(p, q) <==> PartOperator(p).Plus?)
            && q.first == (if Untouched(p, a) then p.first else p.sep)
            && q.terms == StrippedTerms(missing) && q.raw == []
    ensures !Untouched(p, a) ==> |p.first| == |p.sep| == 1 && !PartOperator(p).Plus?
  {
    var missing := MissingOf(p, a);
    var op := PartOperator(p);
    hide WellFormedTerm, Missing, StrippedTerms, Expression;
    PlainExpression(p);
    ExpressionTerms(op, p.terms);
    ExpressionTerms(ReprintOperator(p, missing), StrippedTerms(missing));
    if |missing| < |p.terms| {
      ContinuedStyle(op, p.terms, StrippedTerms(missing));
    } else {
      WholeStyle(op, p.terms, StrippedTerms(missing));
    }
  }

  lemma UntouchedPart(p: Part, a: Values, b: Values)
    requires WellFormedPart(p) && MissingTerms(p, a) != [] && Resumable(p, a) && a.Keys !! b.Keys
    requires Untouched(p, a)
    ensures |PartText(p, a + b)| <= |ReexpandedPart(p, a, b)|
    ensures ReexpandedPart(p, a, b) == PartText(p, a + b) <==> TermsKept(PartOperator(p).Plus?, p.terms, b)
  {
    var missing := MissingOf(p, a);
    var q := ReparsedPart(p, a);
    ReparsedStyle(p, a);
    hide WellFormedPart, WellFormedTerm, Head, PartText, ReparsedPart, Restyled, LostPlusSign;
    PartTextIsHead(p, a);
    PartTextIsHead(p, a + b);
    PartTextIsHead(q, b);
    assert forall i :: 0 <= i < |p.terms| ==> p.terms[i] in missing;
    HeadOfAbsent(p, p.terms, a);
    HeadDepends(p, p.terms, b, a + b);
    HeadKept(p, q, p.terms, b);
    assert [] + PartText(q, b) == PartText(q, b);
    SameFront(p.first, Head(p, p.terms, b), Head(q, q.terms, b));
  }

  /** Without a plus, the reprint renders like the original without prefixes. */
  lemma ReparsedHead(p: Part, q: Part, terms: seq<Term>, values: Values)
    requires Restyled(p, q) && !LostPlusSign(p, q)
    ensures Head(q, StrippedTerms(terms), values) == Head(p, StrippedTerms(terms), values)
  {
    var stripped := StrippedTerms(terms);
    assert StrippedTerms(stripped) == stripped;
    HeadKept(p, q, stripped, values);
    assert TermsKept(false, stripped, values);
  }

  /** The two continuations, as texts: separators and first strings are single bytes. */
  lemma SeamOfTexts(first: Text, sep: Text, written: Text, cut: Text, full: Text, tail: Text)
    requires |first| == |sep| == 1 && |cut| <= |full| && (cut == [] <==> full == [])
    ensures var continued := if full == [] then [] else sep + full;
            var twice := (if written == [] then [] else first + written) + continued;
            var once := if written != [] then first + (written + tail) else if cut == [] then [] else first + cut;
            && (written == [] ==> |once| <= |twice|)
            && (written != [] && |continued| <= |tail| ==> |twice| <= |once|)
            && (written != [] && |tail| <= |continued| ==> |once| <= |twice|)
            && (cut == full ==> written == [] ==> |twice| == |once|)
            && (twice == once <==>
                if written != [] then tail == continued else cut == [] || (first == sep && cut == full))
  {
    var continued := if full == [] then [] else sep + full;
    if written != [] {
      Associate(first, written, tail);
      SameFront(first + written, continued, tail);
    } else {
      assert [] + continued == continued;
      if full != [] {
        SamePieces(first, cut, sep, full);
      }
    }
  }

  lemma ContinuedText(p: Part, a: Values, b: Values)
    requires WellFormedPart(p) && MissingTerms(p, a) != [] && Resumable(p, a) && !Untouched(p, a)
    ensures PartText(ReparsedPart(p, a), b) == Continued(p, StrippedTerms(MissingTerms(p, a)), b)
    ensures |p.first| == |p.sep| == 1 && p.raw == [] && NoExplodedPrefix(MissingTerms(p, a))
    ensures !PartOperator(p).Plus?
  {
    var missing, q := MissingTerms(p, a), ReparsedPart(p, a);
    OneSeparator(p, a);
    ReparsedStyle(p, a);
    hide WellFormedPart, Resumable, ReparsedPart, MissingTerms, PartText, NoExplodedPrefix;
    PartTextIsHead(q, b);
    ReparsedHead(p, q, missing, b);
  }

  /** What is behind the seam: the renderings in full never shorter than cut, the
      continuation against the tail, and when they are equal. */
  lemma SeamTexts(p: Part, missing: seq<Term>, b: Values)
    requires |p.sep| == 1 && NoExplodedPrefix(missing)
    ensures var cut, full := Head(p, missing, b), Head(p, StrippedTerms(missing), b);
            && |cut| <= |full| && (cut == [] <==> full == [])
            && (cut == full <==> TermsKept(false, missing, b))
    ensures var tail, continued := Tail(p, missing, b), Continued(p, StrippedTerms(missing), b);
            && (tail == continued <==> ResumedFrom(p, missing, b, 0))
            && (FirstShows(p, missing, b) ==> |tail| <= |continued|)
            && (TermsKept(false, missing, b) ==> |continued| <= |tail|)
  {
    HeadKept(p, p, missing, b);
    TailKept(p, p, missing, b);
    ResumedDecides(p, missing, b, 0);
    ContinuedBelowTail(p, missing, b);
    hide Head, Tail, FirstShows, TermsKept, ResumedFrom, NoExplodedPrefix;
    assert Repeat(Mark(p), 0) + Tail(p, missing, b) == Tail(p, missing, b);
    if FirstShows(p, missing, b) {
      ShownIsNotShorter(p, missing, b);
    }
  }

  lemma ContinuedPart(p: Part, a: Values, b: Values)
    requires WellFormedPart(p) && MissingTerms(p, a) != [] && Resumable(p, a) && a.Keys !! b.Keys
    requires !Untouched(p, a) && InOrder(p.terms, a, b)
    ensures Lossless(p, a, b) ==> |PartText(p, a + b)| <= |ReexpandedPart(p, a, b)|
    ensures Gainless(p, a, b) ==> |ReexpandedPart(p, a, b)| <= |PartText(p, a + b)|
    ensures ReexpandedPart(p, a, b) == PartText(p, a + b) <==> Resumes(p, a, b)
  {
    ContinuedText(p, a, b);
    PartHeads(p, a, b);
    var missing := MissingTerms(p, a);
    assert missing == Missing(p.terms, a);
    hide WellFormedPart, Head, Tail, PartText, ReparsedPart, FirstShows, Resumable, TermsKept, ResumedFrom,
      MissingTerms, NoExplodedPrefix, InOrder, PartOperator;
    SeamTexts(p, missing, b);
    SeamOfTexts(p.first, p.sep, Head(p, p.terms, a), Head(p, missing, b), Head(p, StrippedTerms(missing), b),
                Tail(p, missing, b));
  }

  /** The reprint reads as the missing terms in their place: Resumable, and what the second
      values fill in stands behind what the first ones filled. */
  predicate Continues(p: Part, a: Values, b: Values) {
    Resumable(p, a) && (MissingTerms(p, a) != [] ==> InOrder(p.terms, a, b))
  }

  /** What any part that continues gives in two steps, against one. */
  lemma ResumedPart(p: Part, a: Values, b: Values)
    requires WellFormedPart(p) && Continues(p, a, b) && a.Keys !! b.Keys
    ensures Lossless(p, a, b) ==> |PartText(p, a + b)| <= |ReexpandedPart(p, a, b)|
    ensures Gainless(p, a, b) ==> |ReexpandedPart(p, a, b)| <= |PartText(p, a + b)|
    ensures ReexpandedPart(p, a, b) == PartText(p, a + b) <==> Resumes(p, a, b)
  {
    if MissingTerms(p, a) == [] {
      FilledPart(p, a, b);
      assert PartText(p, a) + [] == PartText(p, a);
    } else if Untouched(p, a) {
      var missing := MissingOf(p, a);
      UntouchedPart(p, a, b);
    } else {
      ContinuedPart(p, a, b);
    }
  }

  // ---------- whole templates ----------

  lemma {:induction false} ReexpandedPartsOfUnion(parts: seq<Part>, a: Values, b: Values)
    requires WellFormed(parts) && a.Keys !! b.Keys
    requires forall i :: 0 <= i < |parts| ==> Continues(parts[i], a, b)
    ensures var twice, once := ReexpandedParts(parts, a, b), PartsText(parts, a + b);
            var resume := forall i :: 0 <= i < |parts| ==> Resumes(parts[i], a, b);
            && (resume ==> twice == once)
            && ((forall i :: 0 <= i < |parts| ==> Lossless(parts[i], a, b)) ==>
                  |once| <= |twice| && (twice == once ==> resume))
            && ((forall i :: 0 <= i < |parts| ==> Gainless(parts[i], a, b)) ==>
                  |twice| <= |once| && (twice == once ==> resume))
  {
    hide WellFormedPart, Resumes, Lossless, Gainless, ReexpandedPart, PartText, Continues;
    if parts != [] {
      var p, rest := parts[0], parts[1..];
      ResumedPart(p, a, b);
      ReexpandedPartsOfUnion(rest, a, b);
      assert forall i :: 1 <= i < |parts| ==> parts[i] == rest[i - 1];
      var t, ts := ReexpandedPart(p, a, b), ReexpandedParts(rest, a, b);
      var o, os := PartText(p, a + b), PartsText(rest, a + b);
      if |t| <= |o| && |ts| <= |os| { SamePieces(t, ts, o, os); }
      if |o| <= |t| && |os| <= |ts| { SamePieces(o, os, t, ts); }
    }
  }

  /** For disjoint values and parts that continue: when every part resumes, the text of a
      partial expansion, parsed and expanded with the other values, gives the full one. */
  lemma ThroughTextResumes(parts: seq<Part>, a: Values, b: Values)
    requires WellFormed(parts) && a.Keys !! b.Keys && !Fails(parts, a + b)
    requires forall i :: 0 <= i < |parts| ==> Continues(parts[i], a, b) && Resumes(parts[i], a, b)
    ensures TwiceThroughText(parts, a, b) == Expanded(parts, a + b)
  {
    hide WellFormedPart, Resumable, Resumes, PartFails;
    FailsOfUnion(parts, a, b);
    ReexpandedText(parts, a, b);
    ReexpandedPartsOfUnion(parts, a, b);
  }

  /** And exactly then, unless one part loses separators and another one's renderings grow. */
  lemma ThroughTextCompletes(parts: seq<Part>, a: Values, b: Values)
    requires WellFormed(parts) && a.Keys !! b.Keys
    requires forall i :: 0 <= i < |parts| ==> Continues(parts[i], a, b)
    requires || (forall i :: 0 <= i < |parts| ==> Lossless(parts[i], a, b))
             || (forall i :: 0 <= i < |parts| ==> Gainless(parts[i], a, b))
    ensures TwiceThroughText(parts, a, b) == Expanded(parts, a + b) <==>
            || Fails(parts, a)
            || (!Fails(parts, a + b) && forall i :: 0 <= i < |parts| ==> Resumes(parts[i], a, b))
  {
    hide WellFormedPart, Resumable, Resumes, Lossless, Gainless, PartFails;
    FailsOfUnion(parts, a, b);
    ReexpandedText(parts, a, b);
    ReexpandedPartsOfUnion(parts, a, b);
  }

  predicate KeptIfUntouched(p: Part, a: Values, b: Values) {
    MissingTerms(p, a) != [] ==> TermsKept(PartOperator(p).Plus?, p.terms, b)
  }

  /** In particular, for first values that fill each expression or leave it alone: the two
      steps give the full expansion exactly when the first one fails, or the full one does
      not fail and in every expression left alone a plus meets no reserved character and a
      prefix cuts nothing. */
  lemma WholeExpressionsComplete(parts: seq<Part>, a: Values, b: Values)
    requires WellFormed(parts) && a.Keys !! b.Keys
    requires forall i :: 0 <= i < |parts| ==> AllOrNone(parts[i], a)
    requires forall i :: 0 <= i < |parts| && PartOperator(parts[i]).Plus? && MissingTerms(parts[i], a) != [] ==>
               !StartsWithDot(parts[i].terms)
    ensures TwiceThroughText(parts, a, b) == Expanded(parts, a + b) <==>
            || Fails(parts, a)
            || (!Fails(parts, a + b) && forall i :: 0 <= i < |parts| ==> KeptIfUntouched(parts[i], a, b))
  {
    forall i | 0 <= i < |parts|
      ensures Continues(parts[i], a, b) && Lossless(parts[i], a, b)
      ensures Resumes(parts[i], a, b) <==> KeptIfUntouched(parts[i], a, b)
    {
      var p := parts[i];
      assert AllOrNone(p, a);
      if MissingTerms(p, a) != [] {
        var missing := MissingOf(p, a);
        forall i | 0 <= i < |p.terms| ensures p.terms[i].name !in a { assert p.terms[i] in missing; }
      }
    }
    hide WellFormedPart, Continues, Resumes, Lossless, KeptIfUntouched, AllOrNone;
    ThroughTextCompletes(parts, a, b);
  }
}
