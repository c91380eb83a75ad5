/** The reloadable handler: its methods as written, and the protocol that any number
    of concurrent calls of them run, one lock operation or field access at a time. */
module ReloadableHandler {
  import opened Text

  /** What is served: a handler the factory made, or the 503 handler. */
  datatype Http = Real(id: int) | ServiceUnavailable

  /** What the factory returns: an error, or a handler that may be nil. */
  datatype Outcome = Failed(error: string) | Gave(handler: Option<Http>)

  // ---------- one caller at a time ----------

  /** The field after once.Do has called the factory. */
  function Produced(outcome: Outcome): Option<Http> {
    match outcome
    case Failed(_) => Some(ServiceUnavailable)
    case Gave(handler) => handler
  }

  /** The field after ensureHandler. */
  function Ensured(handler: Option<Http>, once: bool, outcome: Outcome): Http {
    match if handler.None? && !once then Produced(outcome) else handler
    case Some(h) => h
    case None => ServiceUnavailable
  }

  /** Served is the handler already there; else the one the factory gives; and the 503
      handler when it fails or gives nil. */
  lemma Served(h: Http, handler: Option<Http>, once: bool, outcome: Outcome, error: string)
    ensures Ensured(Some(h), once, outcome) == h
    ensures Ensured(None, false, Gave(Some(h))) == h
    ensures Ensured(None, false, Gave(None)) == Ensured(None, false, Failed(error)) == ServiceUnavailable
    ensures Ensured(None, true, outcome) == ServiceUnavailable
  {
  }

  class Reloadable {
    var handler: Option<Http>
    var once: bool
    var lastError: Option<string>
    ghost var calls: nat

    ghost predicate Valid()
      reads this
    {
      once <==> handler.Some?
    }

    constructor ()
      ensures Valid() && handler == None && lastError == None && calls == 0
    {
      handler, once, lastError, calls := None, false, None, 0;
    }

    /** outcome is what the factory returns if it is called. */
    method EnsureHandler(outcome: Outcome) returns (h: Option<Http>)
      requires Valid()
      modifies this
      ensures Valid() && once && h == handler == Some(Ensured(old(handler), old(once), outcome))
      ensures !old(once) ==>
                h == Some(if outcome.Gave? && outcome.handler.Some? then outcome.handler.value else ServiceUnavailable)
      ensures calls == old(calls) + if old(once) then 0 else 1
      ensures old(once) ==> handler == old(handler)
      ensures lastError == if !old(once) && outcome.Failed? then Some(outcome.error) else old(lastError)
    {
      if handler != None {
        return handler;
      }
      if !once {
        calls := calls + 1;
        match outcome {
          case Failed(error) =>
            lastError := Some(error);
            handler := Some(ServiceUnavailable);
          case Gave(made) => handler := made;
        }
        once := true;
      }
      if handler == None {
        handler := Some(ServiceUnavailable);
      }
      return handler;
    }

    method Invalidate()
      modifies this
      ensures Valid() && handler == None && calls == old(calls) && lastError == old(lastError)
    {
      handler := None;
      once := false;
    }
  }

  class ReloadSupport {
    var targets: seq<Reloadable>

    constructor ()
      ensures targets == []
    {
      targets := [];
    }

    /** reloadable is null when the registered handler is of another kind. */
    method Handle(reloadable: Reloadable?)
      modifies this
      ensures targets == old(targets) + if reloadable == null then [] else [reloadable]
    {
      if reloadable != null {
        targets := targets + [reloadable];
      }
    }

    /** Every target will call its factory when it next serves; see EnsureHandler. */
    method ReloadAll()
      modifies targets
      ensures forall t :: t in targets ==> t.Valid() && t.handler == None && !t.once && t.calls == old(t.calls)
    {
      for i := 0 to |targets|
        invariant forall j :: 0 <= j < i ==> targets[j].Valid() && targets[j].handler == None
        invariant forall t :: t in targets ==> t.calls == old(t.calls)
      {
        targets[i].Invalidate();
      }
    }

    /** Reload, then serve once from any target: the factory runs exactly once more. */
    method ReloadAndServe(target: Reloadable, outcome: Outcome) returns (h: Option<Http>)
      requires target in targets
      modifies targets
      ensures target.calls == old(target.calls) + 1
      ensures h == Some(if outcome.Gave? && outcome.handler.Some? then outcome.handler.value else ServiceUnavailable)
    {
      ReloadAll();
      h := target.EnsureHandler(outcome);
    }
  }

  // ---------- many callers ----------

  /** A stored handler, tagged with the epoch (the number of resets before) it was made in. */
  datatype Stored = Stored(http: Http, epoch: nat)

  /** Where a call is. begun is the epoch when the call was made. */
  datatype Pc =
    | Start(begun: nat)                              // before RLock
    | Checking(begun: nat)                           // read lock held, before the nil check
    | Seen(begun: nat, stamp: nat, seen: Stored)     // not nil; stamp counts the clears so far
    | Unseen(begun: nat)                             // nil
    | Rereading(begun: nat, stamp: nat, seen: Stored) // unlocked, before reading the field again
    | Waiting(begun: nat)                            // unlocked, before Lock
    | Entered(begun: nat)                            // write lock held, before once.Do
    | Calling(begun: nat)                            // inside the factory
    | Checked(begun: nat)                            // after once.Do
    | Returning(begun: nat)                          // after the second nil check
    | Leaving(begun: nat, result: Option<Stored>)    // result read, before Unlock
    | Returned(begun: nat, result: Option<Stored>, fast: bool)
    | InvStart | InvEntered | InvCleared | InvReset | InvDone

  type Tid = nat

  datatype State = State(
    threads: map<Tid, Pc>,
    readers: set<Tid>,
    writer: Option<Tid>,
    handler: Option<Stored>,
    once: bool,
    epoch: nat,          // resets of once
    clears: nat,         // assignments of nil to the field
    calls: seq<nat>,     // the epochs of the factory calls, in order
    outcomes: map<nat, Outcome>)  // what they gave, by epoch

  const INITIAL := State(map[], {}, None, None, false, 0, 0, [], map[])

  function At(s: State, t: Tid, pc: Pc): State {
    s.(threads := s.threads[t := pc])
  }

  function Tagged(h: Option<Http>, epoch: nat): Option<Stored> {
    match h case None => None case Some(http) => Some(Stored(http, epoch))
  }

  /** A new call, of ensureHandler or of Invalidate. */
  ghost predicate Spawn(s: State, t: Tid, s': State) {
    t !in s.threads && (s' == At(s, t, Start(s.epoch)) || s' == At(s, t, InvStart))
  }

  /** One step of the fast half of ensureHandler. */
  ghost predicate ReadStep(s: State, t: Tid, s': State) {
    t in s.threads &&
    match s.threads[t]
    case Start(e) => s.writer.None? && s' == At(s, t, Checking(e)).(readers := s.readers + {t})
    case Checking(e) =>
      s' == At(s, t, if s.handler.Some? then Seen(e, s.clears, s.handler.value) else Unseen(e))
    case Seen(e, stamp, seen) => s' == At(s, t, Rereading(e, stamp, seen)).(readers := s.readers - {t})
    case Unseen(e) => s' == At(s, t, Waiting(e)).(readers := s.readers - {t})
    case Rereading(e, _, _) => s' == At(s, t, Returned(e, s.handler, true))
    case _ => false
  }

  /** One step of the slow half. The field and the once flag are set together: nothing
      reads the flag without the lock that is held here. */
  ghost predicate WriteStep(s: State, t: Tid, s': State) {
    t in s.threads &&
    match s.threads[t]
    case Waiting(e) =>
      s.writer.None? && s.readers == {} && s' == At(s, t, Entered(e)).(writer := Some(t))
    case Entered(e) =>
      if s.once then s' == At(s, t, Checked(e))
      else s' == At(s, t, Calling(e)).(calls := s.calls + [s.epoch])
    case Calling(e) =>
      exists outcome ::
        s' == At(s, t, Checked(e)).(
          handler := Tagged(Produced(outcome), s.epoch), once := true,
          outcomes := s.outcomes[s.epoch := outcome])
    case Checked(e) =>
      s' == At(s, t, Returning(e)).(
        handler := if s.handler.None? then Some(Stored(ServiceUnavailable, s.epoch)) else s.handler)
    case Returning(e) => s' == At(s, t, Leaving(e, s.handler))
    case Leaving(e, result) => s' == At(s, t, Returned(e, result, false)).(writer := None)
    case _ => false
  }

  /** One step of Invalidate. */
  ghost predicate InvalidateStep(s: State, t: Tid, s': State) {
    t in s.threads &&
    match s.threads[t]
    case InvStart => s.writer.None? && s.readers == {} && s' == At(s, t, InvEntered).(writer := Some(t))
    case InvEntered => s' == At(s, t, InvCleared).(handler := None, clears := s.clears + 1)
    case InvCleared => s' == At(s, t, InvReset).(once := false, epoch := s.epoch + 1)
    case InvReset => s' == At(s, t, InvDone).(writer := None)
    case _ => false
  }

  ghost predicate CallStep(s: State, t: Tid, s': State) {
    ReadStep(s, t, s') || WriteStep(s, t, s') || InvalidateStep(s, t, s')
  }

  ghost predicate Next(s: State, s': State) {
    exists t :: Spawn(s, t, s') || CallStep(s, t, s')
  }

  ghost predicate Path(run: seq<State>) {
    run != [] && forall i :: 0 <= i < |run| - 1 ==> Next(run[i], run[i + 1])
  }

  /** Every interleaving of any number of calls. */
  ghost predicate Run(run: seq<State>) {
    Path(run) && run[0] == INITIAL
  }

  // ---------- the invariant ----------

  predicate HoldsRead(pc: Pc) {
    pc.Checking? || pc.Seen? || pc.Unseen?
  }

  predicate HoldsWrite(pc: Pc) {
    || pc.Entered? || pc.Calling? || pc.Checked? || pc.Returning? || pc.Leaving?
    || pc.InvEntered? || pc.InvCleared? || pc.InvReset?
  }

  ghost predicate LocksFit(s: State) {
    && (forall t :: t in s.readers ==> t in s.threads)
    && (s.writer.Some? ==> s.writer.value in s.threads && s.readers == {})
    && (forall t :: t in s.threads ==> (t in s.readers <==> HoldsRead(s.threads[t])))
    && (forall t :: t in s.threads ==> (s.writer == Some(t) <==> HoldsWrite(s.threads[t])))
  }

  /** Where the call is that holds the write lock; a finished one when nobody does. */
  function WriterPc(s: State): Pc {
    if s.writer.Some? && s.writer.value in s.threads then s.threads[s.writer.value] else InvDone
  }

  ghost predicate CallsFit(s: State) {
    && (forall i, j :: 0 <= i < j < |s.calls| ==> s.calls[i] < s.calls[j])
    && (forall i :: 0 <= i < |s.calls| ==> s.calls[i] <= s.epoch)
    && (s.epoch in s.calls <==> s.once || WriterPc(s).Calling?)
  }

  ghost predicate FieldFits(s: State) {
    && s.clears == s.epoch + (if WriterPc(s).InvCleared? then 1 else 0)
    && (s.handler.Some? ==> s.handler.value.epoch == s.epoch == s.clears && s.once)
    && (s.once && s.handler.None? ==> WriterPc(s).Checked? || WriterPc(s).InvCleared?)
    && (WriterPc(s).Calling? ==> !s.once)
    && (WriterPc(s).Checked? || WriterPc(s).Returning? ==> s.once)
    && (WriterPc(s).Returning? ==> s.handler.Some?)
  }

  ghost predicate CallFits(s: State, pc: Pc) {
    match pc
    case Seen(begun, stamp, seen) =>
      begun <= seen.epoch == stamp == s.clears && s.handler == Some(seen)
    case Rereading(begun, stamp, seen) =>
      && begun <= seen.epoch == stamp <= s.clears
      && (s.clears == stamp ==> s.handler == Some(seen))
    case Leaving(begun, result) =>
      result.Some? && result == s.handler && begun <= result.value.epoch
    case Returned(begun, result, fast) =>
      if result.None? then fast else begun <= result.value.epoch <= s.epoch
    case InvStart => true
    case InvEntered => true
    case InvCleared => true
    case InvReset => true
    case InvDone => true
    case _ => pc.begun <= s.epoch
  }

  ghost predicate Inv(s: State) {
    && LocksFit(s) && CallsFit(s) && FieldFits(s)
    && forall t :: t in s.threads ==> CallFits(s, s.threads[t])
  }

  lemma SpawnLocksFit(s: State, t: Tid, s': State)
    requires Inv(s) && Spawn(s, t, s')
    ensures LocksFit(s')
  {
  }

  lemma SpawnCallsFit(s: State, t: Tid, s': State)
    requires Inv(s) && Spawn(s, t, s')
    ensures CallsFit(s')
  {
  }

  lemma SpawnFieldFits(s: State, t: Tid, s': State)
    requires Inv(s) && Spawn(s, t, s')
    ensures FieldFits(s')
  {
  }

  lemma SpawnCallFits(s: State, t: Tid, s': State, u: Tid)
    requires Inv(s) && Spawn(s, t, s') && u in s'.threads
    ensures CallFits(s', s'.threads[u])
  {
  }

  lemma ReadStepLocksFit(s: State, t: Tid, s': State)
    requires Inv(s) && ReadStep(s, t, s')
    ensures LocksFit(s')
  {
    hide CallsFit, FieldFits, CallFits;
    forall u | u in s'.threads
      ensures u in s'.readers <==> HoldsRead(s'.threads[u])
      ensures s'.writer == Some(u) <==> HoldsWrite(s'.threads[u])
    {
      if u != t { assert s'.threads[u] == s.threads[u]; }
    }
  }

  lemma ReadStepCallsFit(s: State, t: Tid, s': State)
    requires Inv(s) && ReadStep(s, t, s')
    ensures CallsFit(s')
  {
  }

  lemma ReadStepFieldFits(s: State, t: Tid, s': State)
    requires Inv(s) && ReadStep(s, t, s')
    ensures FieldFits(s')
  {
  }

  lemma ReadStepCallFits(s: State, t: Tid, s': State, u: Tid)
    requires Inv(s) && ReadStep(s, t, s') && u in s'.threads
    ensures CallFits(s', s'.threads[u])
  {
    hide CallsFit;
    if u != t {
      assert s'.threads[u] == s.threads[u];
    }
  }

  lemma WriteStepLocksFit(s: State, t: Tid, s': State)
    requires Inv(s) && WriteStep(s, t, s')
    ensures LocksFit(s')
  {
    hide CallsFit, FieldFits, CallFits;
    forall u | u in s'.threads
      ensures u in s'.readers <==> HoldsRead(s'.threads[u])
      ensures s'.writer == Some(u) <==> HoldsWrite(s'.threads[u])
    {
      if u != t { assert s'.threads[u] == s.threads[u]; }
    }
  }

  lemma WriteStepCallsFit(s: State, t: Tid, s': State)
    requires Inv(s) && WriteStep(s, t, s')
    ensures CallsFit(s')
  {
  }

  lemma WriteStepFieldFits(s: State, t: Tid, s': State)
    requires Inv(s) && WriteStep(s, t, s')
    ensures FieldFits(s')
  {
  }

  lemma WriteStepCallFits(s: State, t: Tid, s': State, u: Tid)
    requires Inv(s) && WriteStep(s, t, s') && u in s'.threads
    ensures CallFits(s', s'.threads[u])
  {
    hide CallsFit;
    if u != t {
      assert s'.threads[u] == s.threads[u];
    }
  }

  lemma InvalidateStepLocksFit(s: State, t: Tid, s': State)
    requires Inv(s) && InvalidateStep(s, t, s')
    ensures LocksFit(s')
  {
    hide CallsFit, FieldFits, CallFits;
  }

  lemma InvalidateStepCallsFit(s: State, t: Tid, s': State)
    requires Inv(s) && InvalidateStep(s, t, s')
    ensures CallsFit(s')
  {
  }

  lemma InvalidateStepFieldFits(s: State, t: Tid, s': State)
    requires Inv(s) && InvalidateStep(s, t, s')
    ensures FieldFits(s')
  {
  }

  lemma InvalidateStepCallFits(s: State, t: Tid, s': State, u: Tid)
    requires Inv(s) && InvalidateStep(s, t, s') && u in s'.threads
    ensures CallFits(s', s'.threads[u])
  {
    hide CallsFit;
    if u != t {
      assert s'.threads[u] == s.threads[u];
    }
  }

  lemma StepKeeps(s: State, t: Tid, s': State)
    requires Inv(s) && (Spawn(s, t, s') || CallStep(s, t, s'))
    ensures Inv(s')
  {
    hide LocksFit, CallsFit, FieldFits, CallFits, Spawn, ReadStep, WriteStep, InvalidateStep;
    if Spawn(s, t, s') {
      SpawnLocksFit(s, t, s');
      SpawnCallsFit(s, t, s');
      SpawnFieldFits(s, t, s');
      forall u | u in s'.threads ensures CallFits(s', s'.threads[u]) { SpawnCallFits(s, t, s', u); }
    } else if ReadStep(s, t, s') {
      ReadStepLocksFit(s, t, s');
      ReadStepCallsFit(s, t, s');
      ReadStepFieldFits(s, t, s');
      forall u | u in s'.threads ensures CallFits(s', s'.threads[u]) { ReadStepCallFits(s, t, s', u); }
    } else if WriteStep(s, t, s') {
      WriteStepLocksFit(s, t, s');
      WriteStepCallsFit(s, t, s');
      WriteStepFieldFits(s, t, s');
      forall u | u in s'.threads ensures CallFits(s', s'.threads[u]) { WriteStepCallFits(s, t, s', u); }
    } else {
      InvalidateStepLocksFit(s, t, s');
      InvalidateStepCallsFit(s, t, s');
      InvalidateStepFieldFits(s, t, s');
      forall u | u in s'.threads ensures CallFits(s', s'.threads[u]) { InvalidateStepCallFits(s, t, s', u); }
    }
  }

  lemma {:induction false} RunKeeps(run: seq<State>, i: nat)
    requires Run(run) && i < |run|
    ensures Inv(run[i])
  {
    if i > 0 {
      RunKeeps(run, i - 1);
      var s, s' := run[i - 1], run[i];
      assert Next(run[i - 1], run[i - 1 + 1]);
      var t :| Spawn(s, t, s') || CallStep(s, t, s');
      StepKeeps(s, t, s');
    }
  }

  // ---------- what holds in every run ----------

  /** The calls of Invalidate that have reset once. */
  function Resets(s: State): set<Tid> {
    set t | t in s.threads && (s.threads[t].InvReset? || s.threads[t].InvDone?)
  }

  lemma SameResets(s: State, t: Tid, s': State)
    requires t in s'.threads && s'.threads == s.threads[t := s'.threads[t]] && s'.epoch == s.epoch
    requires t in Resets(s) <==> s'.threads[t].InvReset? || s'.threads[t].InvDone?
    ensures Resets(s') == Resets(s)
  {
  }

  lemma ReadOrSpawnResets(s: State, t: Tid, s': State)
    requires Spawn(s, t, s') || ReadStep(s, t, s')
    ensures Resets(s') == Resets(s) && s'.epoch == s.epoch
  {
    SameResets(s, t, s');
  }

  lemma WriteResets(s: State, t: Tid, s': State)
    requires WriteStep(s, t, s')
    ensures Resets(s') == Resets(s) && s'.epoch == s.epoch
  {
    SameResets(s, t, s');
  }

  lemma ResetsStep(s: State, t: Tid, s': State)
    requires Spawn(s, t, s') || CallStep(s, t, s')
    requires |Resets(s)| == s.epoch
    ensures |Resets(s')| == s'.epoch
  {
    if Spawn(s, t, s') || ReadStep(s, t, s') {
      ReadOrSpawnResets(s, t, s');
    } else if WriteStep(s, t, s') {
      WriteResets(s, t, s');
    } else if s.threads[t].InvCleared? {
      assert Resets(s') == Resets(s) + {t};
    } else {
      SameResets(s, t, s');
    }
  }

  lemma {:induction false} EpochCountsResets(run: seq<State>, i: nat)
    requires Run(run) && i < |run|
    ensures |Resets(run[i])| == run[i].epoch
  {
    if i > 0 {
      EpochCountsResets(run, i - 1);
      var s, s' := run[i - 1], run[i];
      assert Next(run[i - 1], run[i - 1 + 1]);
      var t :| Spawn(s, t, s') || CallStep(s, t, s');
      ResetsStep(s, t, s');
    }
  }

  lemma {:induction false} IncreasingFrom(calls: seq<nat>, i: nat)
    requires forall i, j :: 0 <= i < j < |calls| ==> calls[i] < calls[j]
    requires i < |calls|
    ensures calls[i] >= i
  {
    if i > 0 {
      IncreasingFrom(calls, i - 1);
    }
  }

  /** The factory runs at most once in each epoch, so never more often than there were
      resets, plus one. */
  lemma FactoryOncePerEpoch(run: seq<State>, i: nat)
    requires Run(run) && i < |run|
    ensures var calls := run[i].calls;
            && (forall j, k :: 0 <= j < k < |calls| ==> calls[j] != calls[k])
            && |calls| <= |Resets(run[i])| + 1
  {
    RunKeeps(run, i);
    EpochCountsResets(run, i);
    var calls := run[i].calls;
    if calls != [] {
      IncreasingFrom(calls, |calls| - 1);
    }
  }

  /** Whenever nobody holds the write lock, a completed once means a handler. */
  lemma CompletedOnceHasHandler(run: seq<State>, i: nat)
    requires Run(run) && i < |run| && run[i].writer.None?
    ensures run[i].once <==> run[i].handler.Some?
  {
    RunKeeps(run, i);
  }

  /** The slow path returns a handler made in the epoch of the return, and not before the call. */
  lemma SlowPathReturns(run: seq<State>, i: nat, t: Tid, s': State)
    requires Run(run) && i < |run| && t in run[i].threads
    requires run[i].threads[t].Leaving? && WriteStep(run[i], t, s')
    ensures var pc := s'.threads[t];
            && pc.Returned? && pc.result.Some?
            && pc.begun <= pc.result.value.epoch == run[i].epoch == s'.epoch
  {
    RunKeeps(run, i);
    assert CallFits(run[i], run[i].threads[t]);
  }

  /** The step from run[i] clears the field. */
  predicate Clears(run: seq<State>, i: nat) {
    i + 1 < |run| && run[i].clears < run[i + 1].clears
  }

  /** The field was cleared from run[j], after stamp clears, and nothing has been stored
      until run[i]. */
  predicate ClearedSince(run: seq<State>, j: nat, i: nat, stamp: nat) {
    j < i < |run| && Clears(run, j) && stamp <= run[j].clears && forall m :: j < m <= i ==> run[m].handler.None?
  }

  lemma {:induction false} LastClear(run: seq<State>, i: nat, stamp: nat)
    requires Run(run) && i < |run| && stamp < run[i].clears && run[i].handler.None?
    ensures exists j :: ClearedSince(run, j, i, stamp)
  {
    if i > 0 {
      RunStep(run, i - 1);
      if run[i - 1].clears == run[i].clears {
        LastClear(run, i - 1, stamp);
        var j :| ClearedSince(run, j, i - 1, stamp);
        assert ClearedSince(run, j, i, stamp);
      } else {
        assert ClearedSince(run, i - 1, i, stamp);
      }
    }
  }

  lemma RunStep(run: seq<State>, i: nat)
    requires Run(run) && i + 1 < |run|
    ensures var s, s' := run[i], run[i + 1];
            && s.clears <= s'.clears <= s.clears + 1
            && (s'.clears == s.clears && s'.handler.None? ==> s.handler.None?)
  {
    RunKeeps(run, i);
    assert Next(run[i], run[i + 1]);
    hide *;
    ClearsStep(run[i], run[i + 1]);
  }

  /** The field becomes nil only by being cleared. */
  lemma ClearsStep(s: State, s': State)
    requires Inv(s) && Next(s, s')
    ensures s.clears <= s'.clears <= s.clears + 1
    ensures s'.clears == s.clears && s'.handler.None? ==> s.handler.None?
  {
    hide CallsFit, CallFits;
  }

  /** The fast path returns the handler it saw exactly when no Invalidate has cleared the
      field between its check and its second read. It returns nil exactly when one has and
      nothing has been stored since the last clear; and otherwise a handler of the epoch
      of the second read. */
  lemma FastPathReturns(run: seq<State>, i: nat, t: Tid, s': State)
    requires Run(run) && i < |run| && t in run[i].threads
    requires run[i].threads[t].Rereading? && ReadStep(run[i], t, s')
    ensures var before, after := run[i].threads[t], s'.threads[t];
            && after.Returned?
            && (after.result == Some(before.seen) <==> run[i].clears == before.stamp)
            && (after.result.None? <==> exists j :: ClearedSince(run, j, i, before.stamp))
            && (after.result.Some? ==> after.result.value.epoch == run[i].epoch)
  {
    RunKeeps(run, i);
    assert CallFits(run[i], run[i].threads[t]);
    if run[i].handler.None? {
      LastClear(run, i, run[i].threads[t].stamp);
    }
  }

  /** What any call returned, unless it was nil, is not older than the call: a reload that
      was finished before the call is never missed. */
  lemma ReturnsAreFresh(run: seq<State>, i: nat, t: Tid)
    requires Run(run) && i < |run| && t in run[i].threads && run[i].threads[t].Returned?
    ensures var pc := run[i].threads[t];
            if pc.result.None? then pc.fast else pc.begun <= pc.result.value.epoch <= run[i].epoch
  {
    RunKeeps(run, i);
    assert CallFits(run[i], run[i].threads[t]);
  }

  // ---------- which handler is returned ----------

  /** The handler is the one that the factory gave in its epoch; or the 503 handler, if
      that call failed or gave nil. */
  predicate Recorded(s: State, h: Stored) {
    && h.epoch in s.outcomes && h.epoch in s.calls
    && var outcome := s.outcomes[h.epoch];
       h.http == if outcome.Gave? && outcome.handler.Some? then outcome.handler.value else ServiceUnavailable
  }

  predicate ResultRecorded(s: State, pc: Pc) {
    match pc
    case Seen(_, _, h) => Recorded(s, h)
    case Rereading(_, _, h) => Recorded(s, h)
    case Leaving(_, result) => result.Some? ==> Recorded(s, result.value)
    case Returned(_, result, _) => result.Some? ==> Recorded(s, result.value)
    case _ => true
  }

  predicate OutcomesFit(s: State) {
    && (forall e :: e in s.outcomes ==> e in s.calls && (e < s.epoch || (e == s.epoch && s.once)))
    && (s.once ==> s.epoch in s.outcomes)
    && (s.once && s.handler.None? && WriterPc(s).Checked? ==> s.outcomes[s.epoch] == Gave(None))
    && (s.handler.Some? ==> Recorded(s, s.handler.value))
  }

  ghost predicate Records(s: State) {
    OutcomesFit(s) && forall t :: t in s.threads ==> ResultRecorded(s, s.threads[t])
  }

  /** What is recorded is not overwritten. */
  lemma RecordedLonger(s: State, s': State, h: Stored)
    requires Recorded(s, h)
    requires forall e :: e in s.calls ==> e in s'.calls
    requires forall e :: e in s.outcomes ==> e in s'.outcomes && s'.outcomes[e] == s.outcomes[e]
    ensures Recorded(s', h)
  {
  }

  /** The parts of a step that the records depend on. */
  lemma ThreadsRecorded(s: State, t: Tid, s': State)
    requires Records(s) && t in s'.threads && s'.threads == s.threads[t := s'.threads[t]]
    requires forall e :: e in s.calls ==> e in s'.calls
    requires forall e :: e in s.outcomes ==> e in s'.outcomes && s'.outcomes[e] == s.outcomes[e]
    requires ResultRecorded(s', s'.threads[t])
    ensures forall u :: u in s'.threads ==> ResultRecorded(s', s'.threads[u])
  {
    hide Recorded, OutcomesFit;
    forall h: Stored | Recorded(s, h) ensures Recorded(s', h) { RecordedLonger(s, s', h); }
  }

  lemma ReadRecords(s: State, t: Tid, s': State)
    requires Inv(s) && Records(s) && (Spawn(s, t, s') || ReadStep(s, t, s'))
    ensures Records(s')
  {
    hide CallsFit, LocksFit, FieldFits, CallFits;
    assert t in s'.threads && s'.threads == s.threads[t := s'.threads[t]];
    assert WriterPc(s').Checked? ==> WriterPc(s).Checked? by { ReadKeepsWriter(s, t, s'); }
    hide Spawn, ReadStep, WriterPc;
    ReadKeepsFields(s, t, s');
    ThreadsRecorded(s, t, s');
  }

  lemma ReadKeepsWriter(s: State, t: Tid, s': State)
    requires LocksFit(s) && (Spawn(s, t, s') || ReadStep(s, t, s'))
    ensures WriterPc(s').Checked? ==> WriterPc(s).Checked?
  {
  }

  lemma ReadKeepsFields(s: State, t: Tid, s': State)
    requires Records(s) && (Spawn(s, t, s') || ReadStep(s, t, s'))
    ensures t in s'.threads && ResultRecorded(s', s'.threads[t])
    ensures SameFields(s, s') && s'.outcomes == s.outcomes
  {
    hide Recorded;
    forall h: Stored | Recorded(s, h) ensures Recorded(s', h) {
      assert s'.outcomes == s.outcomes && s'.calls == s.calls;
      RecordedLonger(s, s', h);
    }
  }

  lemma WriteKeepsOutcomes(s: State, t: Tid, s': State)
    requires LocksFit(s) && CallsFit(s) && FieldFits(s) && OutcomesFit(s) && WriteStep(s, t, s')
    ensures OutcomesFit(s')
    ensures forall e :: e in s.calls ==> e in s'.calls
    ensures forall e :: e in s.outcomes ==> e in s'.outcomes && s'.outcomes[e] == s.outcomes[e]
  {
    assert WriterPc(s) == s.threads[t] || s.threads[t].Waiting?;
  }

  lemma WriteRecords(s: State, t: Tid, s': State)
    requires Inv(s) && Records(s) && WriteStep(s, t, s')
    ensures Records(s')
  {
    WriteKeepsOutcomes(s, t, s');
    hide LocksFit, CallsFit, FieldFits, CallFits, OutcomesFit;
    assert t in s'.threads && s'.threads == s.threads[t := s'.threads[t]];
    assert ResultRecorded(s', s'.threads[t]) by { WriteResult(s, t, s'); }
    hide WriteStep;
    ThreadsRecorded(s, t, s');
  }

  lemma WriteResult(s: State, t: Tid, s': State)
    requires WriteStep(s, t, s') && OutcomesFit(s) && ResultRecorded(s, s.threads[t])
    ensures t in s'.threads && ResultRecorded(s', s'.threads[t])
  {
  }

  lemma InvalidateRecords(s: State, t: Tid, s': State)
    requires Inv(s) && Records(s) && InvalidateStep(s, t, s')
    ensures Records(s')
  {
    hide CallsFit, Recorded, CallFits;
    assert t in s'.threads && s'.threads == s.threads[t := s'.threads[t]];
    ThreadsRecorded(s, t, s');
    forall h: Stored | Recorded(s, h) ensures Recorded(s', h) { RecordedLonger(s, s', h); }
  }

  lemma NextRecords(s: State, s': State)
    requires Inv(s) && Records(s) && Next(s, s')
    ensures Records(s')
  {
    var t :| Spawn(s, t, s') || CallStep(s, t, s');
    hide Inv, Records, Spawn, ReadStep, WriteStep, InvalidateStep;
    if Spawn(s, t, s') || ReadStep(s, t, s') {
      ReadRecords(s, t, s');
    } else if WriteStep(s, t, s') {
      WriteRecords(s, t, s');
    } else {
      InvalidateRecords(s, t, s');
    }
  }

  lemma NothingRecorded()
    ensures Records(INITIAL)
  {
  }

  lemma {:induction false} RunRecords(run: seq<State>, i: nat)
    requires Run(run) && i < |run|
    ensures Records(run[i])
  {
    hide Inv, Records, Next, INITIAL;
    if i > 0 {
      RunRecords(run, i - 1);
      RunKeeps(run, i - 1);
      assert Next(run[i - 1], run[i - 1 + 1]);
      NextRecords(run[i - 1], run[i]);
    } else {
      NothingRecorded();
    }
  }

  /** Whatever call returned, unless it was nil, is the handler that the factory gave in
      the epoch it is tagged with, or the 503 handler if the factory failed or gave nil
      there. The slow path never returns nil. */
  lemma ReturnsTheFactorys(run: seq<State>, i: nat, t: Tid)
    requires Run(run) && i < |run| && t in run[i].threads && run[i].threads[t].Returned?
    ensures var s, result := run[i], run[i].threads[t].result;
            && (result.None? ==> run[i].threads[t].fast)
            && (result.Some? ==>
                  var h := result.value;
                  && h.epoch in s.calls && h.epoch in s.outcomes
                  && var outcome := s.outcomes[h.epoch];
                     h.http ==
                       if outcome.Gave? && outcome.handler.Some? then outcome.handler.value else ServiceUnavailable)
  {
    RunRecords(run, i);
    ReturnsAreFresh(run, i, t);
    assert ResultRecorded(run[i], run[i].threads[t]);
  }

  predicate Finished(pc: Pc) {
    pc.Returned? || pc.InvDone?
  }

  /** As long as some call is not finished, some call can take a step. */
  lemma NoDeadlock(run: seq<State>, i: nat, t: Tid)
    requires Run(run) && i < |run| && t in run[i].threads && !Finished(run[i].threads[t])
    ensures exists u, s' :: CallStep(run[i], u, s')
  {
    RunKeeps(run, i);
    var s := run[i];
    if s.writer.Some? {
      var _ := WriterCanStep(s, s.writer.value);
    } else if s.readers != {} {
      var u :| u in s.readers;
      var _ := ReaderCanStep(s, u);
    } else {
      var _ := OutsiderCanStep(s, t);
    }
  }

  lemma WriterCanStep(s: State, t: Tid) returns (s': State)
    requires t in s.threads && HoldsWrite(s.threads[t])
    ensures CallStep(s, t, s')
  {
    match s.threads[t] {
      case Entered(e) =>
        s' := if s.once then At(s, t, Checked(e)) else At(s, t, Calling(e)).(calls := s.calls + [s.epoch]);
      case Calling(e) =>
        s' := At(s, t, Checked(e)).(
          handler := Tagged(Produced(Failed("")), s.epoch), once := true,
          outcomes := s.outcomes[s.epoch := Failed("")]);
      case Checked(e) =>
        s' := At(s, t, Returning(e)).(
          handler := if s.handler.None? then Some(Stored(ServiceUnavailable, s.epoch)) else s.handler);
      case Returning(e) => s' := At(s, t, Leaving(e, s.handler));
      case Leaving(e, result) => s' := At(s, t, Returned(e, result, false)).(writer := None);
      case InvEntered => s' := At(s, t, InvCleared).(handler := None, clears := s.clears + 1);
      case InvCleared => s' := At(s, t, InvReset).(once := false, epoch := s.epoch + 1);
      case InvReset => s' := At(s, t, InvDone).(writer := None);
    }
  }

  lemma ReaderCanStep(s: State, t: Tid) returns (s': State)
    requires t in s.threads && HoldsRead(s.threads[t])
    ensures CallStep(s, t, s')
  {
    match s.threads[t] {
      case Checking(e) =>
        s' := At(s, t, if s.handler.Some? then Seen(e, s.clears, s.handler.value) else Unseen(e));
      case Seen(e, stamp, seen) => s' := At(s, t, Rereading(e, stamp, seen)).(readers := s.readers - {t});
      case Unseen(e) => s' := At(s, t, Waiting(e)).(readers := s.readers - {t});
    }
  }

  lemma OutsiderCanStep(s: State, t: Tid) returns (s': State)
    requires t in s.threads && s.writer.None? && s.readers == {}
    requires var pc := s.threads[t]; !HoldsRead(pc) && !HoldsWrite(pc) && !Finished(pc)
    ensures CallStep(s, t, s')
  {
    match s.threads[t] {
      case Start(e) => s' := At(s, t, Checking(e)).(readers := s.readers + {t});
      case Rereading(e, _, _) => s' := At(s, t, Returned(e, s.handler, true));
      case Waiting(e) => s' := At(s, t, Entered(e)).(writer := Some(t));
      case InvStart => s' := At(s, t, InvEntered).(writer := Some(t));
    }
  }

  // ---------- every call returns ----------

  /** At most so many steps are left of a call. */
  function StepsLeft(pc: Pc): nat {
    match pc
    case Start(_) => 9
    case Checking(_) => 8
    case Unseen(_) => 7
    case Waiting(_) => 6
    case Entered(_) => 5
    case Calling(_) => 4
    case Checked(_) => 3
    case Returning(_) => 2
    case Leaving(_, _) => 1
    case Seen(_, _, _) => 2
    case Rereading(_, _, _) => 1
    case Returned(_, _, _) => 0
    case InvStart => 4
    case InvEntered => 3
    case InvCleared => 2
    case InvReset => 1
    case InvDone => 0
  }

  /** The steps left of all calls together. */
  ghost function AllStepsLeft(threads: map<Tid, Pc>): nat
    decreases |threads|
  {
    if threads == map[] then 0
    else
      var t :| t in threads;
      assert t !in threads - {t} && threads == (threads - {t})[t := threads[t]];
      StepsLeft(threads[t]) + AllStepsLeft(threads - {t})
  }

  lemma {:induction false} StepsLeftOf(threads: map<Tid, Pc>, t: Tid)
    requires t in threads
    ensures AllStepsLeft(threads) == StepsLeft(threads[t]) + AllStepsLeft(threads - {t})
    decreases |threads|
  {
    hide StepsLeft;
    var u :| u in threads && AllStepsLeft(threads) == StepsLeft(threads[u]) + AllStepsLeft(threads - {u});
    if u != t {
      assert |threads - {u}| < |threads| by { assert threads == (threads - {u})[u := threads[u]]; }
      assert |threads - {t}| < |threads| by { assert threads == (threads - {t})[t := threads[t]]; }
      StepsLeftOf(threads - {u}, t);
      StepsLeftOf(threads - {t}, u);
      assert threads - {u} - {t} == threads - {t} - {u};
    }
  }

  predicate OneStepLess(s: State, t: Tid, s': State) {
    && t in s.threads && t in s'.threads && s'.threads == s.threads[t := s'.threads[t]]
    && StepsLeft(s'.threads[t]) < StepsLeft(s.threads[t])
  }

  lemma ReadIsOneLess(s: State, t: Tid, s': State)
    requires ReadStep(s, t, s')
    ensures OneStepLess(s, t, s')
  {
  }

  lemma WriteIsOneLess(s: State, t: Tid, s': State)
    requires WriteStep(s, t, s')
    ensures OneStepLess(s, t, s')
  {
  }

  lemma InvalidateIsOneLess(s: State, t: Tid, s': State)
    requires InvalidateStep(s, t, s')
    ensures OneStepLess(s, t, s')
  {
  }

  lemma StepsDecrease(s: State, t: Tid, s': State)
    requires CallStep(s, t, s')
    ensures AllStepsLeft(s'.threads) < AllStepsLeft(s.threads)
  {
    hide AllStepsLeft, StepsLeft, ReadStep, WriteStep, InvalidateStep;
    if ReadStep(s, t, s') {
      ReadIsOneLess(s, t, s');
    } else if WriteStep(s, t, s') {
      WriteIsOneLess(s, t, s');
    } else {
      InvalidateIsOneLess(s, t, s');
    }
    StepsLeftOf(s.threads, t);
    StepsLeftOf(s'.threads, t);
    assert s.threads - {t} == s'.threads - {t};
  }

  ghost predicate CallNext(s: State, s': State) {
    exists t :: CallStep(s, t, s')
  }

  /** From run[from] on, no new call is made. */
  ghost predicate NoNewCalls(run: seq<State>, from: nat) {
    Run(run) && from < |run|
    && forall i :: from <= i < |run| - 1 ==> CallNext(run[i], run[i + 1])
  }

  lemma {:induction false} StepsAreBounded(run: seq<State>, from: nat, i: nat)
    requires NoNewCalls(run, from) && from <= i < |run|
    ensures AllStepsLeft(run[i].threads) + (i - from) <= AllStepsLeft(run[from].threads)
  {
    if i > from {
      StepsAreBounded(run, from, i - 1);
      assert CallNext(run[i - 1], run[i - 1 + 1]);
      var t :| CallStep(run[i - 1], t, run[i]);
      hide *;
      StepsDecrease(run[i - 1], t, run[i]);
    }
  }

  /** Without new calls, every run ends within the steps that are left, and where it can
      not go on, every call has returned. */
  lemma EveryCallReturns(run: seq<State>, from: nat)
    requires NoNewCalls(run, from)
    ensures |run| - 1 - from <= AllStepsLeft(run[from].threads)
    ensures var last := run[|run| - 1];
            (forall u, s' :: !CallStep(last, u, s')) ==> forall t :: t in last.threads ==> Finished(last.threads[t])
  {
    StepsAreBounded(run, from, |run| - 1);
    var last := run[|run| - 1];
    if t :| t in last.threads && !Finished(last.threads[t]) {
      NoDeadlock(run, |run| - 1, t);
    }
  }

  // ---------- particular runs ----------

  lemma Extend(run: seq<State>, t: Tid, s': State) returns (longer: seq<State>)
    requires Path(run) && (Spawn(run[|run| - 1], t, s') || CallStep(run[|run| - 1], t, s'))
    ensures Path(longer) && longer == run + [s']
  {
    longer := run + [s'];
    forall i | 0 <= i < |longer| - 1
      ensures Next(longer[i], longer[i + 1])
    {
      if i < |run| - 1 { assert Next(run[i], run[i + 1]); }
    }
  }

  /** Steps of t alone while it holds the write lock, until it has returned. */
  lemma SoloSlow(run: seq<State>, t: Tid, outcome: Outcome) returns (longer: seq<State>)
    requires Path(run)
    requires var s := run[|run| - 1];
             t in s.threads && s.threads[t].Entered? && s.handler.None? && !s.once
    ensures Path(longer) && run <= longer
    ensures var s, s' := run[|run| - 1], longer[|longer| - 1];
            var h := Some(Stored(Ensured(None, false, outcome), s.epoch));
            && s'.threads == s.threads[t := Returned(s.threads[t].begun, h, false)]
            && s'.handler == h && s'.once && s'.calls == s.calls + [s.epoch]
            && s'.writer == None && s'.readers == s.readers && s'.epoch == s.epoch
  {
    var s := run[|run| - 1];
    var e := s.threads[t].begun;
    var s1 := At(s, t, Calling(e)).(calls := s.calls + [s.epoch]);
    longer := Extend(run, t, s1);
    var s2 := At(s1, t, Checked(e)).(
      handler := Tagged(Produced(outcome), s.epoch), once := true,
      outcomes := s.outcomes[s.epoch := outcome]);
    longer := Extend(longer, t, s2);
    longer := SoloReturn(longer, t);
  }

  /** The last steps of the slow half. */
  lemma SoloReturn(run: seq<State>, t: Tid) returns (longer: seq<State>)
    requires Path(run) && t in run[|run| - 1].threads && run[|run| - 1].threads[t].Checked?
    ensures Path(longer) && run <= longer
    ensures var s, s' := run[|run| - 1], longer[|longer| - 1];
            var h := if s.handler.None? then Some(Stored(ServiceUnavailable, s.epoch)) else s.handler;
            && s'.threads == s.threads[t := Returned(s.threads[t].begun, h, false)]
            && s'.handler == h && s'.once == s.once && s'.calls == s.calls
            && s'.writer == None && s'.readers == s.readers && s'.epoch == s.epoch
  {
    var s := run[|run| - 1];
    var e := s.threads[t].begun;
    var h := if s.handler.None? then Some(Stored(ServiceUnavailable, s.epoch)) else s.handler;
    var s3 := At(s, t, Returning(e)).(handler := h);
    longer := Extend(run, t, s3);
    var s4 := At(s3, t, Leaving(e, h));
    longer := Extend(longer, t, s4);
    longer := Extend(longer, t, At(s4, t, Returned(e, h, false)).(writer := None));
  }

  function HttpOf(h: Option<Stored>): Option<Http> {
    match h case None => None case Some(stored) => Some(stored.http)
  }

  /** Without interference the protocol does what the method does: the same handler, and
      a factory call exactly when once was not done. */
  lemma SoloEnsure(run: seq<State>, t: Tid, outcome: Outcome) returns (longer: seq<State>)
    requires Run(run) && t !in run[|run| - 1].threads
    requires run[|run| - 1].writer.None? && run[|run| - 1].readers == {}
    ensures Run(longer) && run <= longer
    ensures var s, s' := run[|run| - 1], longer[|longer| - 1];
            var h := Ensured(HttpOf(s.handler), s.once, outcome);
            && s'.threads.Keys == s.threads.Keys + {t} && s'.writer.None? && s'.readers == {} && s'.epoch == s.epoch
            && s'.threads[t].Returned? && HttpOf(s'.threads[t].result) == HttpOf(s'.handler) == Some(h)
            && s'.once && |s'.calls| == |s.calls| + if s.once then 0 else 1
  {
    var s := run[|run| - 1];
    RunKeeps(run, |run| - 1);
    assert LocksFit(s) && FieldFits(s);
    hide Path, Inv;
    longer := SoloCheck(run, t);
    if s.handler.Some? {
      longer := SoloFast(longer, t);
    } else {
      longer := SoloEnter(longer, t);
      longer := SoloSlow(longer, t, outcome);
    }
  }

  // ---------- every run of one call alone ----------

  /** What the method leaves, for some outcome of the factory. */
  predicate Ensures(s: State, now: State, outcome: Outcome) {
    && HttpOf(now.handler) == Some(Ensured(HttpOf(s.handler), s.once, outcome))
    && now.once && now.epoch == s.epoch
    && now.calls == s.calls + if s.once then [] else [s.epoch]
  }

  /** How far t has got since s, when no other call has taken a step. */
  ghost predicate SoloFits(s: State, now: State, t: Tid) {
    t in now.threads &&
    match now.threads[t]
    case Start(_) => SameFields(s, now)
    case Checking(_) => SameFields(s, now)
    case Seen(_, _, _) => SameFields(s, now) && s.handler.Some?
    case Rereading(_, _, _) => SameFields(s, now) && s.handler.Some?
    case Unseen(_) => SameFields(s, now) && s.handler.None?
    case Waiting(_) => SameFields(s, now) && s.handler.None?
    case Entered(_) => SameFields(s, now) && s.handler.None?
    case Calling(_) =>
      s.handler == now.handler == None && !s.once && now.calls == s.calls + [s.epoch] && now.epoch == s.epoch
    case Checked(_) =>
      && s.handler.None? && !s.once && now.once && now.calls == s.calls + [s.epoch] && now.epoch == s.epoch
      && exists outcome :: now.handler == Tagged(Produced(outcome), s.epoch)
    case Returning(_) => exists outcome :: Ensures(s, now, outcome)
    case Leaving(_, result) => result == now.handler && exists outcome :: Ensures(s, now, outcome)
    case Returned(_, result, _) => result == now.handler && exists outcome :: Ensures(s, now, outcome)
    case _ => true
  }

  lemma SoloStart(s: State, s': State, t: Tid)
    requires Spawn(s, t, s') && s'.threads[t].Start?
    ensures SoloFits(s, s', t)
  {
  }

  lemma SoloRead(s: State, now: State, next: State, t: Tid)
    requires s.once <==> s.handler.Some?
    requires SoloFits(s, now, t) && ReadStep(now, t, next)
    ensures SoloFits(s, next, t)
  {
    if now.threads[t].Rereading? {
      assert Ensures(s, next, Failed(""));
    }
  }

  lemma SoloWrite(s: State, now: State, next: State, t: Tid)
    requires s.once <==> s.handler.Some?
    requires SoloFits(s, now, t) && WriteStep(now, t, next)
    ensures SoloFits(s, next, t)
  {
    match now.threads[t] {
      case Checked(_) =>
        var outcome :| now.handler == Tagged(Produced(outcome), s.epoch);
        assert Ensures(s, next, outcome);
      case Returning(_) =>
        var outcome :| Ensures(s, now, outcome);
        assert Ensures(s, next, outcome);
      case Leaving(_, _) =>
        var outcome :| Ensures(s, now, outcome);
        assert Ensures(s, next, outcome);
      case _ =>
    }
  }

  /** From run[from], which nobody is in the middle of, only t has taken steps. */
  ghost predicate Alone(run: seq<State>, from: nat, t: Tid) {
    && Run(run) && from + 1 < |run|
    && t !in run[from].threads && run[from].writer.None?
    && Spawn(run[from], t, run[from + 1]) && run[from + 1].threads[t].Start?
    && forall i :: from < i < |run| - 1 ==> CallStep(run[i], t, run[i + 1])
  }

  lemma {:induction false} SoloKeeps(run: seq<State>, from: nat, t: Tid, i: nat)
    requires Alone(run, from, t) && from < i < |run|
    ensures SoloFits(run[from], run[i], t)
  {
    CompletedOnceHasHandler(run, from);
    hide Run, SoloFits, Spawn, ReadStep, WriteStep;
    if i == from + 1 {
      SoloStart(run[from], run[i], t);
    } else {
      SoloKeeps(run, from, t, i - 1);
      assert CallStep(run[i - 1], t, run[i - 1 + 1]);
      if ReadStep(run[i - 1], t, run[i]) {
        SoloRead(run[from], run[i - 1], run[i], t);
      } else if WriteStep(run[i - 1], t, run[i]) {
        SoloWrite(run[from], run[i - 1], run[i], t);
      } else {
        NoInvalidate(run[from], run[i - 1], run[i], t);
      }
    }
  }

  lemma NoInvalidate(s: State, now: State, next: State, t: Tid)
    requires SoloFits(s, now, t) && InvalidateStep(now, t, next)
    ensures SoloFits(s, next, t)
  {
  }

  /** Whenever a call runs alone, it returns what the method returns, for some outcome of
      the factory, and the factory is called exactly when once was not done. */
  lemma SoloReturns(run: seq<State>, from: nat, t: Tid)
    requires Alone(run, from, t)
    requires var s' := run[|run| - 1]; t in s'.threads && s'.threads[t].Returned?
    ensures var s, s' := run[from], run[|run| - 1];
            && s'.threads[t].result == s'.handler
            && exists outcome :: Ensures(s, s', outcome)
  {
    SoloKeeps(run, from, t, |run| - 1);
  }

  predicate SameFields(s: State, s': State) {
    && s'.handler == s.handler && s'.once == s.once && s'.calls == s.calls
    && s'.epoch == s.epoch && s'.clears == s.clears
  }

  lemma SoloCheck(run: seq<State>, t: Tid) returns (longer: seq<State>)
    requires Path(run) && t !in run[|run| - 1].threads
    requires run[|run| - 1].writer.None? && run[|run| - 1].readers == {}
    ensures Path(longer) && run <= longer
    ensures var s, s' := run[|run| - 1], longer[|longer| - 1];
            && SameFields(s, s') && s'.writer.None? && s'.readers == {t}
            && s'.threads == s.threads[t := if s.handler.Some? then Seen(s.epoch, s.clears, s.handler.value)
                                            else Unseen(s.epoch)]
  {
    var s := run[|run| - 1];
    var s' := At(s, t, Start(s.epoch));
    longer := Extend(run, t, s');
    s' := At(s', t, Checking(s.epoch)).(readers := {t});
    longer := Extend(longer, t, s');
    s' := At(s', t, if s.handler.Some? then Seen(s.epoch, s.clears, s.handler.value) else Unseen(s.epoch));
    longer := Extend(longer, t, s');
  }

  lemma SoloFast(run: seq<State>, t: Tid) returns (longer: seq<State>)
    requires Path(run) && t in run[|run| - 1].threads && run[|run| - 1].threads[t].Seen?
    requires run[|run| - 1].readers == {t}
    ensures Path(longer) && run <= longer
    ensures var s, s' := run[|run| - 1], longer[|longer| - 1];
            && SameFields(s, s') && s'.writer == s.writer && s'.readers == {}
            && s'.threads == s.threads[t := Returned(s.threads[t].begun, s.handler, true)]
  {
    var s := run[|run| - 1];
    var pc := s.threads[t];
    var s' := At(s, t, Rereading(pc.begun, pc.stamp, pc.seen)).(readers := {});
    longer := Extend(run, t, s');
    longer := Extend(longer, t, At(s', t, Returned(pc.begun, s.handler, true)));
  }

  lemma SoloEnter(run: seq<State>, t: Tid) returns (longer: seq<State>)
    requires Path(run) && t in run[|run| - 1].threads && run[|run| - 1].threads[t].Unseen?
    requires run[|run| - 1].readers == {t} && run[|run| - 1].writer.None?
    ensures Path(longer) && run <= longer
    ensures var s, s' := run[|run| - 1], longer[|longer| - 1];
            && SameFields(s, s') && s'.writer == Some(t) && s'.readers == {}
            && s'.threads == s.threads[t := Entered(s.threads[t].begun)]
  {
    var s := run[|run| - 1];
    var e := s.threads[t].begun;
    var s' := At(s, t, Waiting(e)).(readers := {});
    longer := Extend(run, t, s');
    longer := Extend(longer, t, At(s', t, Entered(e)).(writer := Some(t)));
  }

  /** A run in which ensureHandler returns nil: an Invalidate clears the field after the
      fast path has let go of the read lock and before it reads the field again. */
  lemma NilIsPossible() returns (run: seq<State>)
    ensures Run(run)
    ensures var s := run[|run| - 1]; 1 in s.threads && s.threads[1] == Returned(0, None, true)
  {
    run := SoloEnsure([INITIAL], 0, Failed(""));
    run := ThenNil(run);
  }

  lemma ThenNil(run: seq<State>) returns (longer: seq<State>)
    requires Run(run)
    requires var s := run[|run| - 1];
             && s.handler.Some? && s.writer.None? && s.readers == {} && s.epoch == 0
             && 1 !in s.threads && 2 !in s.threads
    ensures Run(longer)
    ensures var s := longer[|longer| - 1]; 1 in s.threads && s.threads[1] == Returned(0, None, true)
  {
    longer := UntilReread(run);
    longer := UntilCleared(longer);
    var s := longer[|longer| - 1];
    longer := Extend(longer, 1, At(s, 1, Returned(0, None, true)));
  }

  lemma UntilReread(run: seq<State>) returns (longer: seq<State>)
    requires Run(run)
    requires var s := run[|run| - 1];
             && s.handler.Some? && s.writer.None? && s.readers == {} && s.epoch == 0
             && 1 !in s.threads && 2 !in s.threads
    ensures Run(longer)
    ensures var s := longer[|longer| - 1];
            && s.writer.None? && s.readers == {} && 2 !in s.threads
            && 1 in s.threads && s.threads[1].Rereading? && s.threads[1].begun == 0
  {
    var s := run[|run| - 1];
    var s' := At(s, 1, Start(0));
    longer := Extend(run, 1, s');
    s' := At(s', 1, Checking(0)).(readers := {1});
    longer := Extend(longer, 1, s');
    s' := At(s', 1, Seen(0, s.clears, s.handler.value));
    longer := Extend(longer, 1, s');
    s' := At(s', 1, Rereading(0, s.clears, s.handler.value)).(readers := {});
    longer := Extend(longer, 1, s');
  }

  lemma UntilCleared(run: seq<State>) returns (longer: seq<State>)
    requires Run(run)
    requires var s := run[|run| - 1];
             && s.writer.None? && s.readers == {} && 2 !in s.threads
             && 1 in s.threads && s.threads[1].Rereading? && s.threads[1].begun == 0
    ensures Run(longer)
    ensures var s := longer[|longer| - 1];
            s.handler.None? && 1 in s.threads && s.threads[1].Rereading? && s.threads[1].begun == 0
  {
    var s' := At(run[|run| - 1], 2, InvStart);
    longer := Extend(run, 2, s');
    s' := At(s', 2, InvEntered).(writer := Some(2));
    longer := Extend(longer, 2, s');
    s' := At(s', 2, InvCleared).(handler := None, clears := s'.clears + 1);
    longer := Extend(longer, 2, s');
  }
}
