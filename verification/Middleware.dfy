/** The middleware chain of the HTTP client. A request, with all that a middleware may
    change in it, is a value of type R that the calls thread through. */
module Middleware {
  import opened Text

  type Error = string

  /** How a call ends: with the request as it then is and perhaps an error, or in a panic. */
  datatype Outcome<R> = Done(req: R, err: Option<Error>) | Panicked

  /** What a custom middleware does next: return, or call next with some request. */
  datatype Action<R> = Return(outcome: Outcome<R>) | CallNext(req: R)

  /** A custom middleware decides by the request and by what its calls of next have
      returned so far; one that has not returned after its limit of calls counts as
      not returning. */
  datatype Middleware<!R> =
    | Func(f: R -> Outcome<R>)
    | NilFunc
    | Custom(decide: (R, seq<Outcome<R>>) -> Action<R>, limit: nat)
    | Composite(members: seq<Middleware<R>>)

  type Next<!R> = Option<R -> Outcome<R>>

  // ---------- the code ----------

  function CallOrPanic<R>(next: Next<R>, req: R): Outcome<R> {
    match next case None => Panicked case Some(f) => f(req)
  }

  function RunCustom<R>(
    decide: (R, seq<Outcome<R>>) -> Action<R>, limit: nat, req: R, past: seq<Outcome<R>>, next: Next<R>)
    : Outcome<R>
    requires |past| <= limit
    decreases limit - |past|
  {
    match decide(req, past)
    case Return(outcome) => outcome
    case CallNext(r) =>
      if |past| == limit then Panicked
      else RunCustom(decide, limit, req, past + [CallOrPanic(next, r)], next)
  }

  function Handle<R>(m: Middleware<R>, req: R, next: Next<R>): Outcome<R>
    decreases m, 0
  {
    match m
    case NilFunc => CallOrPanic(next, req)
    case Func(f) =>
      var outcome := f(req);
      if outcome.Panicked? || outcome.err.Some? || next.None? then outcome
      else next.value(outcome.req)
    case Custom(decide, limit) => RunCustom(decide, limit, req, [], next)
    case Composite(members) => RunFrom(members, 0, req)
  }

  /** The yielders of a composite: the i-th member, with the next yielder behind it, and
      a function that does nothing behind the last. The composite's own next is not used. */
  function RunFrom<R>(members: seq<Middleware<R>>, i: nat, req: R): Outcome<R>
    requires i <= |members|
    decreases members, |members| - i
  {
    if i == |members| then Done(req, None)
    else Handle(members[i], req, Some(r => RunFrom(members, i + 1, r)))
  }

  function NonNil<R>(mw: seq<Option<Middleware<R>>>): seq<Middleware<R>> {
    if mw == [] then []
    else (if mw[0].Some? then [mw[0].value] else []) + NonNil(mw[1..])
  }

  method ComposeMiddleware<R>(mw: seq<Option<Middleware<R>>>) returns (m: Middleware<R>)
    ensures m == Composite(NonNil(mw))
  {
    var withoutNil := [];
    assert mw[0..] == mw;
    for i := 0 to |mw|
      invariant NonNil(mw) == withoutNil + NonNil(mw[i..])
    {
      assert mw[i..][1..] == mw[i + 1..];
      if mw[i].Some? {
        withoutNil := withoutNil + [mw[i].value];
      }
    }
    return Composite(withoutNil);
  }

  lemma {:induction false} NonNilAppend<R>(a: seq<Option<Middleware<R>>>, b: seq<Option<Middleware<R>>>)
    ensures NonNil(a + b) == NonNil(a) + NonNil(b)
  {
    if a == [] {
      assert a + b == b;
    } else {
      var own := if a[0].Some? then [a[0].value] else [];
      assert NonNil(a) == own + NonNil(a[1..]);
      assert (a + b)[0] == a[0] && (a + b)[1..] == a[1..] + b;
      assert NonNil(a + b) == own + NonNil(a[1..] + b);
      hide NonNil;
      NonNilAppend(a[1..], b);
      Associate(own, NonNil(a[1..]), NonNil(b));
    }
  }

  /** Composing keeps the members that are not nil, in their order. */
  lemma NonNilKeepsOrder<R>(
    before: seq<Option<Middleware<R>>>, item: Option<Middleware<R>>, after: seq<Option<Middleware<R>>>)
    ensures NonNil(before + [item] + after) ==
            NonNil(before) + (if item.Some? then [item.value] else []) + NonNil(after)
  {
    NonNilAppend(before + [item], after);
    NonNilAppend(before, [item]);
    assert [item][1..] == [];
  }

  // ---------- a chain is a right fold ----------

  /** The members from right to left, each with the result so far as its next. */
  function Fold<R>(members: seq<Middleware<R>>, last: R -> Outcome<R>, req: R): Outcome<R> {
    if members == [] then last(req)
    else Handle(members[0], req, Some(r => Fold(members[1..], last, r)))
  }

  function Nothing<R>(req: R): Outcome<R> {
    Done(req, None)
  }

  lemma {:induction false} CustomDependsOnNext<R(!new)>(
    decide: (R, seq<Outcome<R>>) -> Action<R>, limit: nat, req: R, past: seq<Outcome<R>>,
    f: R -> Outcome<R>, g: R -> Outcome<R>)
    requires |past| <= limit && forall r :: f(r) == g(r)
    ensures RunCustom(decide, limit, req, past, Some(f)) == RunCustom(decide, limit, req, past, Some(g))
    decreases limit - |past|
  {
    match decide(req, past) {
      case Return(_) =>
      case CallNext(r) =>
        if |past| < limit {
          assert f(r) == g(r);
          CustomDependsOnNext(decide, limit, req, past + [f(r)], f, g);
        }
    }
  }

  /** A middleware knows its next only by what calling it gives. */
  lemma HandleDependsOnNext<R(!new)>(m: Middleware<R>, req: R, f: R -> Outcome<R>, g: R -> Outcome<R>)
    requires forall r :: f(r) == g(r)
    ensures Handle(m, req, Some(f)) == Handle(m, req, Some(g))
  {
    if m.Custom? {
      CustomDependsOnNext(m.decide, m.limit, req, [], f, g);
    }
  }

  lemma {:induction false} RunIsFold<R(!new)>(members: seq<Middleware<R>>, i: nat, req: R)
    requires i <= |members|
    ensures RunFrom(members, i, req) == Fold(members[i..], Nothing, req)
    decreases |members| - i
  {
    if i < |members| {
      var rest := members[i..];
      assert rest[1..] == members[i + 1..];
      forall r ensures RunFrom(members, i + 1, r) == Fold(rest[1..], Nothing, r) {
        RunIsFold(members, i + 1, r);
      }
      HandleDependsOnNext(members[i], req, r => RunFrom(members, i + 1, r), r => Fold(rest[1..], Nothing, r));
    }
  }

  /** A composite is the right fold of its members, ended by doing nothing, whatever
      next it is given itself. */
  lemma CompositeIsFold<R(!new)>(members: seq<Middleware<R>>, req: R, next: Next<R>)
    ensures Handle(Composite(members), req, next) == Fold(members, Nothing, req)
  {
    RunIsFold(members, 0, req);
    assert members[0..] == members;
  }

  /** Folding in two stages. */
  lemma {:induction false} FoldAppend<R(!new)>(
    xs: seq<Middleware<R>>, ys: seq<Middleware<R>>, last: R -> Outcome<R>, req: R)
    ensures Fold(xs + ys, last, req) == Fold(xs, r => Fold(ys, last, r), req)
  {
    if xs == [] {
      assert xs + ys == ys;
    } else {
      assert (xs + ys)[1..] == xs[1..] + ys;
      forall r ensures Fold(xs[1..] + ys, last, r) == Fold(xs[1..], r' => Fold(ys, last, r'), r) {
        FoldAppend(xs[1..], ys, last, r);
      }
      HandleDependsOnNext(xs[0], req, r => Fold((xs + ys)[1..], last, r),
                          r => Fold(xs[1..], r' => Fold(ys, last, r'), r));
    }
  }

  lemma {:induction false} FoldDependsOnLast<R(!new)>(
    xs: seq<Middleware<R>>, f: R -> Outcome<R>, g: R -> Outcome<R>, req: R)
    requires forall r :: f(r) == g(r)
    ensures Fold(xs, f, req) == Fold(xs, g, req)
  {
    if xs != [] {
      forall r ensures Fold(xs[1..], f, r) == Fold(xs[1..], g, r) {
        FoldDependsOnLast(xs[1..], f, g, r);
      }
      HandleDependsOnNext(xs[0], req, r => Fold(xs[1..], f, r), r => Fold(xs[1..], g, r));
    }
  }

  /** A composite inside a chain ends the chain: what stands behind it never runs, and it
      may be replaced by its members. In last place nothing is lost. */
  lemma CompositeEndsChain<R(!new)>(
    xs: seq<Middleware<R>>, ys: seq<Middleware<R>>, zs: seq<Middleware<R>>, req: R, next: Next<R>)
    ensures Handle(Composite(xs + [Composite(ys)] + zs), req, next) == Handle(Composite(xs + ys), req, next)
  {
    var inner := [Composite(ys)] + zs;
    assert xs + [Composite(ys)] + zs == xs + inner;
    CompositeIsFold(xs + inner, req, next);
    CompositeIsFold(xs + ys, req, next);
    FoldAppend(xs, inner, Nothing, req);
    FoldAppend(xs, ys, Nothing, req);
    forall r ensures Fold(inner, Nothing, r) == Fold(ys, Nothing, r) {
      CompositeIsFold(ys, r, Some(r' => Fold(inner[1..], Nothing, r')));
    }
    FoldDependsOnLast(xs, r => Fold(inner, Nothing, r), r => Fold(ys, Nothing, r), req);
  }

  function Refuse(req: int): Outcome<int> {
    Done(req, Some("refused"))
  }

  /** A composite in front of another middleware: flattened, the chain would refuse. */
  lemma WhatFollowsIsLost(next: Next<int>)
    ensures Handle(Composite([Composite([]), Func(Refuse)]), 0, next) == Done(0, None)
    ensures Handle(Composite([Func(Refuse)]), 0, next) == Done(0, Some("refused"))
  {
    var inner, refuse: Middleware<int> := Composite([]), Func(Refuse);
    CompositeIsFold([inner, refuse], 0, next);
    CompositeIsFold([refuse], 0, next);
  }

  /** A nil function among the members changes nothing. */
  lemma NilFuncIsSkipped<R(!new)>(xs: seq<Middleware<R>>, ys: seq<Middleware<R>>, req: R, next: Next<R>)
    ensures Handle(Composite(xs + [NilFunc] + ys), req, next) == Handle(Composite(xs + ys), req, next)
  {
    var inner: seq<Middleware<R>> := [NilFunc] + ys;
    assert xs + [NilFunc] + ys == xs + inner && inner[1..] == ys;
    CompositeIsFold(xs + inner, req, next);
    CompositeIsFold(xs + ys, req, next);
    FoldAppend(xs, inner, Nothing, req);
    FoldAppend(xs, ys, Nothing, req);
    FoldDependsOnLast(xs, r => Fold(inner, Nothing, r), r => Fold(ys, Nothing, r), req);
  }

  // ---------- plain functions ----------

  function Funcs<R>(fs: seq<R -> Outcome<R>>): (ms: seq<Middleware<R>>)
    ensures |ms| == |fs| && forall i :: 0 <= i < |fs| ==> ms[i] == Func(fs[i])
  {
    if fs == [] then [] else [Func(fs[0])] + Funcs(fs[1..])
  }

  predicate Succeeds<R>(outcome: Outcome<R>) {
    outcome.Done? && outcome.err.None?
  }

  /** The requests that the functions see, as long as they succeed. */
  function Inputs<R>(fs: seq<R -> Outcome<R>>, req: R): (inputs: seq<R>)
    ensures |inputs| >= 1 && inputs[0] == req
  {
    if fs == [] || !Succeeds(fs[0](req)) then [req] else [req] + Inputs(fs[1..], fs[0](req).req)
  }

  /** One function that succeeds, in front of the others. */
  lemma InputsStep<R(!new)>(fs: seq<R -> Outcome<R>>, req: R)
    requires fs != [] && Succeeds(fs[0](req))
    ensures var next := fs[0](req).req;
            && Inputs(fs, req) == [req] + Inputs(fs[1..], next)
            && Fold(Funcs(fs), Nothing, req) == Fold(Funcs(fs[1..]), Nothing, next)
  {
    assert Funcs(fs)[1..] == Funcs(fs[1..]);
  }

  lemma {:induction false} FoldOfFuncs<R(!new)>(fs: seq<R -> Outcome<R>>, req: R)
    ensures var inputs, outcome := Inputs(fs, req), Fold(Funcs(fs), Nothing, req);
            && |inputs| <= |fs| + 1
            && (forall i :: 0 <= i < |inputs| - 1 ==>
                  Succeeds(fs[i](inputs[i])) && inputs[i + 1] == fs[i](inputs[i]).req)
            && if |inputs| == |fs| + 1 then outcome == Done(inputs[|fs|], None)
               else outcome == fs[|inputs| - 1](inputs[|inputs| - 1]) && !Succeeds(outcome)
  {
    if fs != [] && Succeeds(fs[0](req)) {
      InputsStep(fs, req);
      var next := fs[0](req).req;
      var inputs, rest := Inputs(fs, req), Inputs(fs[1..], next);
      hide Fold, Funcs, Inputs, Succeeds, Nothing;
      FoldOfFuncs(fs[1..], next);
      forall i | 0 <= i < |inputs| - 1
        ensures Succeeds(fs[i](inputs[i])) && inputs[i + 1] == fs[i](inputs[i]).req
      {
        if i > 0 { assert fs[i] == fs[1..][i - 1] && inputs[i] == rest[i - 1]; }
      }
    }
  }

  /** In a composite, plain functions run in order, each on the request the one before
      left; the first that does not succeed ends the chain with its outcome, and the ones
      behind it do not run. */
  lemma FuncsRunInOrder<R(!new)>(fs: seq<R -> Outcome<R>>, req: R, next: Next<R>)
    ensures var inputs, outcome := Inputs(fs, req), Handle(Composite(Funcs(fs)), req, next);
            && |inputs| <= |fs| + 1
            && (forall i :: 0 <= i < |inputs| - 1 ==>
                  Succeeds(fs[i](inputs[i])) && inputs[i + 1] == fs[i](inputs[i]).req)
            && if |inputs| == |fs| + 1 then outcome == Done(inputs[|fs|], None)
               else outcome == fs[|inputs| - 1](inputs[|inputs| - 1]) && !Succeeds(outcome)
  {
    FoldOfFuncs(fs, req);
    CompositeIsFold(Funcs(fs), req, next);
  }

  /** The functions fs, in their order, with nils anywhere between them. */
  ghost predicate FuncsAndNils<R(!new)>(mw: seq<Option<Middleware<R>>>, fs: seq<R -> Outcome<R>>) {
    if mw == [] then fs == []
    else if mw[0].None? then FuncsAndNils(mw[1..], fs)
    else fs != [] && mw[0] == Some(Func(fs[0])) && FuncsAndNils(mw[1..], fs[1..])
  }

  lemma {:induction false} NonNilFuncs<R(!new)>(mw: seq<Option<Middleware<R>>>, fs: seq<R -> Outcome<R>>)
    requires FuncsAndNils(mw, fs)
    ensures NonNil(mw) == Funcs(fs)
    decreases mw
  {
    if mw != [] {
      NonNilFuncs(mw[1..], if mw[0].None? then fs else fs[1..]);
    }
  }

  /** What ComposeMiddleware returns for them runs them in that order. */
  lemma ComposedFuncsRunInOrder<R(!new)>(
    mw: seq<Option<Middleware<R>>>, fs: seq<R -> Outcome<R>>, req: R, next: Next<R>)
    requires FuncsAndNils(mw, fs)
    ensures var inputs, outcome := Inputs(fs, req), Handle(Composite(NonNil(mw)), req, next);
            && |inputs| <= |fs| + 1 && inputs[0] == req
            && (forall i :: 0 <= i < |inputs| - 1 ==>
                  fs[i](inputs[i]) == Done(inputs[i + 1], None))
            && if |inputs| == |fs| + 1 then outcome == Done(inputs[|fs|], None)
               else outcome == fs[|inputs| - 1](inputs[|inputs| - 1]) && !Succeeds(outcome)
  {
    NonNilFuncs(mw, fs);
    FuncsRunInOrder(fs, req, next);
  }

  // ---------- single middlewares ----------

  /** A function that fails keeps its outcome; one that succeeds hands its request on, and
      without a next it is done. A nil function is the next, and panics without one. */
  lemma SingleFunctions<R>(f: R -> Outcome<R>, req: R, next: R -> Outcome<R>)
    ensures Handle(Func(f), req, None) == f(req)
    ensures f(req).Done? && f(req).err.None? ==> Handle(Func(f), req, Some(next)) == next(f(req).req)
    ensures f(req).Panicked? || f(req).err.Some? ==> Handle(Func(f), req, Some(next)) == f(req)
    ensures Handle(NilFunc, req, Some(next)) == next(req)
    ensures Handle<R>(NilFunc, req, None) == Panicked
  {
  }

  /** The calls of next that a custom middleware makes, and what they return. */
  ghost predicate Transcript<R>(
    decide: (R, seq<Outcome<R>>) -> Action<R>, req: R, next: R -> Outcome<R>, sent: seq<R>, got: seq<Outcome<R>>)
  {
    |sent| == |got|
    && forall i :: 0 <= i < |sent| ==> decide(req, got[..i]) == CallNext(sent[i]) && got[i] == next(sent[i])
  }

  /** A custom middleware calls next as often, and with such requests, as it decides from
      its own request and the results so far, and returns what it decides in the end. */
  lemma CustomReturns<R>(
    decide: (R, seq<Outcome<R>>) -> Action<R>, limit: nat, req: R, next: R -> Outcome<R>,
    sent: seq<R>, got: seq<Outcome<R>>, outcome: Outcome<R>)
    requires Transcript(decide, req, next, sent, got) && |sent| <= limit
    requires decide(req, got) == Return(outcome)
    ensures Handle(Custom(decide, limit), req, Some(next)) == outcome
  {
    CustomGoesOn(decide, limit, req, next, sent, got, 0);
    assert got[..0] == [] && got[..|got|] == got;
  }

  lemma {:induction false} CustomGoesOn<R>(
    decide: (R, seq<Outcome<R>>) -> Action<R>, limit: nat, req: R, next: R -> Outcome<R>,
    sent: seq<R>, got: seq<Outcome<R>>, i: nat)
    requires Transcript(decide, req, next, sent, got) && i <= |sent| <= limit
    ensures RunCustom(decide, limit, req, got[..i], Some(next)) == RunCustom(decide, limit, req, got, Some(next))
    decreases |sent| - i
  {
    if i == |sent| {
      assert got[..i] == got;
    } else {
      assert decide(req, got[..i]) == CallNext(sent[i]) && got[i] == next(sent[i]);
      assert got[..i] + [got[i]] == got[..i + 1];
      CustomGoesOn(decide, limit, req, next, sent, got, i + 1);
    }
  }
}
