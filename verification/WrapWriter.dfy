/** The proxy around a response writer: what it forwards, tees and counts. */
module WrapWriter {
  import opened Text

  const STATUS_OK := 200
  const SHORT_WRITE := "short write"

  type Error = string

  /** One write to the proxied writer: what was offered, how much it took, the error it
      gave, and the one the tee gives if it is written to. io.Writer demands
      accepted <= |data|. */
  datatype Chunk = Chunk(data: Text, accepted: nat, err: Option<Error>, teeErr: Option<Error>)

  predicate WellFormed(c: Chunk) {
    c.accepted <= |c.data|
  }

  function Taken(c: Chunk): Text
    requires WellFormed(c)
  {
    c.data[..c.accepted]
  }

  /** One call of the proxy, with what the writers around it answer. */
  datatype Op =
    | WriteHeader(code: int)
    | Write(chunk: Chunk)
    | ReadFrom(chunks: seq<Chunk>)     // the chunks the reader has to offer
    | Flush
    | Tee(to: Option<nat>)             // the identity of the tee'd writer

  predicate WellFormedOp(op: Op) {
    match op
    case Write(c) => WellFormed(c)
    case ReadFrom(cs) => forall i :: 0 <= i < |cs| ==> WellFormed(cs[i]) && cs[i].data != []
    case _ => true
  }

  /** The proxy's fields, and what has reached the writers around it. */
  datatype State = State(
    wroteHeader: bool,
    code: int,
    bytes: nat,
    tee: Option<nat>,
    headers: seq<int>,                 // codes forwarded by WriteHeader
    body: Text,                        // bytes the proxied writer took
    teed: seq<(nat, Text)>)            // writes offered to tee'd writers

  const FRESH := State(false, 0, 0, None, [], [], [])

  // ---------- the code ----------

  class BasicWriter {
    var wroteHeader: bool
    var code: int
    var bytes: nat
    var tee: Option<nat>
    var headers: seq<int>
    var body: Text
    var teed: seq<(nat, Text)>

    constructor ()
      ensures Abstract() == FRESH
    {
      wroteHeader, code, bytes, tee, headers, body, teed := false, 0, 0, None, [], [], [];
    }

    function Abstract(): State
      reads this
    {
      State(wroteHeader, code, bytes, tee, headers, body, teed)
    }

    method WriteHeader(status: int)
      modifies this
      ensures Abstract() == AfterHeader(old(Abstract()), status)
    {
      if !wroteHeader {
        code := status;
        wroteHeader := true;
        headers := headers + [status];
      }
    }

    method MaybeWriteHeader()
      modifies this
      ensures Abstract() == AfterHeader(old(Abstract()), STATUS_OK)
    {
      if !wroteHeader {
        WriteHeader(STATUS_OK);
      }
    }

    method Write(chunk: Chunk) returns (n: nat, err: Option<Error>)
      requires WellFormed(chunk)
      modifies this
      ensures n == chunk.accepted && err == WriteError(chunk, old(tee).Some?)
      ensures Abstract() == AfterWrite(old(Abstract()), chunk)
    {
      MaybeWriteHeader();
      n, err := chunk.accepted, chunk.err;
      body := body + chunk.data[..n];
      if tee != None {
        teed := teed + [(tee.value, chunk.data[..n])];
        if err == None {
          err := chunk.teeErr;
        }
      }
      bytes := bytes + n;
    }

    method Flush()
      modifies this`wroteHeader
      ensures Abstract() == old(Abstract()).(wroteHeader := true)
    {
      wroteHeader := true;
    }

    method Tee(to: Option<nat>)
      modifies this`tee
      ensures Abstract() == old(Abstract()).(tee := to)
    {
      tee := to;
    }

    /** With a tee, io.Copy writes chunk by chunk, stopping at an error or a short write,
        and the total is added once more; otherwise the proxied writer reads by itself. */
    method ReadFrom(chunks: seq<Chunk>) returns (n: nat, err: Option<Error>)
      requires WellFormedOp(Op.ReadFrom(chunks))
      modifies this
      ensures Abstract() == After(old(Abstract()), Op.ReadFrom(chunks))
      ensures n == |CopiedText(chunks, old(tee).Some?)| && err == CopyError(chunks, old(tee).Some?)
    {
      n, err := 0, None;
      if tee != None {
        assert chunks[0..] == chunks;
        for i := 0 to |chunks|
          invariant tee == old(tee) && err == None
          invariant AfterCopy(old(Abstract()), chunks) == AfterCopy(Abstract(), chunks[i..])
          invariant |CopiedText(chunks, true)| == n + |CopiedText(chunks[i..], true)|
          invariant CopyError(chunks, true) == CopyError(chunks[i..], true)
        {
          assert chunks[i..][1..] == chunks[i + 1..];
          var taken;
          taken, err := Write(chunks[i]);
          n := n + taken;
          if err == None && taken != |chunks[i].data| {
            err := Some(SHORT_WRITE);
          }
          if err != None {
            break;
          }
        }
        bytes := bytes + n;
        return;
      }
      MaybeWriteHeader();
      var text := CopiedText(chunks, false);
      body := body + text;
      n, err := |text|, CopyError(chunks, false);
      bytes := bytes + n;
    }
  }

  // ---------- the code, as functions on the state ----------

  function AfterHeader(s: State, status: int): State {
    if s.wroteHeader then s
    else s.(wroteHeader := true, code := status, headers := s.headers + [status])
  }

  function AfterWrite(s: State, c: Chunk): State
    requires WellFormed(c)
  {
    var h := AfterHeader(s, STATUS_OK);
    h.(body := h.body + Taken(c),
       teed := h.teed + (if h.tee.Some? then [(h.tee.value, Taken(c))] else []),
       bytes := h.bytes + c.accepted)
  }

  /** The error of the proxied writer comes before that of the tee. */
  function WriteError(c: Chunk, teed: bool): Option<Error> {
    if c.err.Some? || !teed then c.err else c.teeErr
  }

  predicate Stops(c: Chunk, teed: bool) {
    WriteError(c, teed).Some? || c.accepted != |c.data|
  }

  /** The error that ends a copy: the first one, or that of a short write. */
  function CopyError(chunks: seq<Chunk>, teed: bool): Option<Error> {
    if chunks == [] then None
    else if WriteError(chunks[0], teed).Some? then WriteError(chunks[0], teed)
    else if chunks[0].accepted != |chunks[0].data| then Some(SHORT_WRITE)
    else CopyError(chunks[1..], teed)
  }

  function AfterCopy(s: State, chunks: seq<Chunk>): State
    requires WellFormedOp(ReadFrom(chunks))
    decreases chunks
  {
    if chunks == [] then s
    else if Stops(chunks[0], s.tee.Some?) then AfterWrite(s, chunks[0])
    else AfterCopy(AfterWrite(s, chunks[0]), chunks[1..])
  }

  /** What the proxied writer takes of chunks, up to an error or a short write. */
  function CopiedText(chunks: seq<Chunk>, teed: bool): Text
    requires WellFormedOp(ReadFrom(chunks))
  {
    if chunks == [] then []
    else Taken(chunks[0]) + if Stops(chunks[0], teed) then [] else CopiedText(chunks[1..], teed)
  }

  function After(s: State, op: Op): State
    requires WellFormedOp(op)
  {
    match op
    case WriteHeader(code) => AfterHeader(s, code)
    case Write(c) => AfterWrite(s, c)
    case Flush => s.(wroteHeader := true)
    case Tee(to) => s.(tee := to)
    case ReadFrom(chunks) =>
      var text := CopiedText(chunks, s.tee.Some?);
      if s.tee.Some? then
        var copied := AfterCopy(s, chunks);
        copied.(bytes := copied.bytes + |text|)
      else
        var h := AfterHeader(s, STATUS_OK);
        h.(body := h.body + text, bytes := h.bytes + |text|)
  }

  predicate WellFormedRun(ops: seq<Op>) {
    forall i :: 0 <= i < |ops| ==> WellFormedOp(ops[i])
  }

  function AfterAll(s: State, ops: seq<Op>): State
    requires WellFormedRun(ops)
    decreases ops
  {
    if ops == [] then s else AfterAll(After(s, ops[0]), ops[1..])
  }

  // ---------- what a run did, read from its calls alone ----------

  /** The bytes one call passes on. */
  function Passed(op: Op, teed: bool): Text
    requires WellFormedOp(op)
  {
    match op
    case Write(c) => Taken(c)
    case ReadFrom(chunks) => CopiedText(chunks, teed)
    case _ => []
  }

  function PassedAll(tee: Option<nat>, ops: seq<Op>): Text
    requires WellFormedRun(ops)
    decreases ops
  {
    if ops == [] then [] else Passed(ops[0], tee.Some?) + PassedAll(TeeAfter(tee, ops[0]), ops[1..])
  }

  /** The tee in force after a call. */
  function TeeAfter(tee: Option<nat>, op: Op): Option<nat> {
    if op.Tee? then op.to else tee
  }

  /** The bytes passed on while the given writer was the tee. */
  function PassedWhile(tee: Option<nat>, ops: seq<Op>, id: nat): Text
    requires WellFormedRun(ops)
    decreases ops
  {
    if ops == [] then []
    else (if tee == Some(id) then Passed(ops[0], true) else []) + PassedWhile(TeeAfter(tee, ops[0]), ops[1..], id)
  }

  /** The bytes of those calls of ReadFrom that were made while some tee was set. */
  function TeedReads(tee: Option<nat>, ops: seq<Op>): nat
    requires WellFormedRun(ops)
    decreases ops
  {
    if ops == [] then 0
    else
      (if tee.Some? && ops[0].ReadFrom? then |Passed(ops[0], true)| else 0)
      + TeedReads(TeeAfter(tee, ops[0]), ops[1..])
  }

  /** A call that settles the header: with a code that is forwarded, or, for Flush, without. */
  function Settles(tee: Option<nat>, op: Op): Option<seq<int>> {
    match op
    case WriteHeader(code) => Some([code])
    case Write(_) => Some([STATUS_OK])
    case ReadFrom(chunks) => if tee.Some? && chunks == [] then None else Some([STATUS_OK])
    case Flush => Some([])
    case Tee(_) => None
  }

  /** What the first settling call forwards; nothing when there is none. */
  function Settled(tee: Option<nat>, ops: seq<Op>): seq<int>
    decreases ops
  {
    if ops == [] then []
    else match Settles(tee, ops[0]) {
      case Some(headers) => headers
      case None => Settled(TeeAfter(tee, ops[0]), ops[1..])
    }
  }

  /** The bytes that reached one tee'd writer. */
  function SeenBy(teed: seq<(nat, Text)>, id: nat): Text {
    if teed == [] then []
    else (if teed[0].0 == id then teed[0].1 else []) + SeenBy(teed[1..], id)
  }

  lemma {:induction false} SeenByAppend(teed: seq<(nat, Text)>, to: nat, text: Text, id: nat)
    ensures SeenBy(teed + [(to, text)], id) == SeenBy(teed, id) + if to == id then text else []
  {
    if teed == [] {
      var one := teed + [(to, text)];
      assert one == [(to, text)] && one[1..] == [];
      assert SeenBy(one[1..], id) == [];
    } else {
      SeenByAppend(teed[1..], to, text, id);
      var longer := teed + [(to, text)];
      assert longer[0] == teed[0] && longer[1..] == teed[1..] + [(to, text)];
      Associate(if teed[0].0 == id then teed[0].1 else [], SeenBy(teed[1..], id), if to == id then text else []);
    }
  }

  lemma WriteEffect(s: State, c: Chunk, id: nat)
    requires WellFormed(c)
    ensures var s' := AfterWrite(s, c);
            && s'.body == s.body + Taken(c) && s'.bytes == s.bytes + |Taken(c)| && s'.tee == s.tee
            && SeenBy(s'.teed, id) == SeenBy(s.teed, id) + (if s.tee == Some(id) then Taken(c) else [])
            && s'.wroteHeader
            && s'.headers == s.headers + (if s.wroteHeader then [] else [STATUS_OK])
            && s'.code == if s.wroteHeader then s.code else STATUS_OK
  {
    if s.tee.Some? {
      SeenByAppend(s.teed, s.tee.value, Taken(c), id);
    } else {
      assert s.teed + [] == s.teed;
    }
  }

  lemma {:induction false} CopyEffect(s: State, chunks: seq<Chunk>, id: nat)
    requires WellFormedOp(ReadFrom(chunks))
    ensures var s', text := AfterCopy(s, chunks), CopiedText(chunks, s.tee.Some?);
            && s'.body == s.body + text && s'.bytes == s.bytes + |text| && s'.tee == s.tee
            && SeenBy(s'.teed, id) == SeenBy(s.teed, id) + (if s.tee == Some(id) then text else [])
            && (chunks == [] ==> s' == s)
            && (chunks != [] ==>
                  && s'.wroteHeader
                  && s'.headers == s.headers + (if s.wroteHeader then [] else [STATUS_OK])
                  && s'.code == if s.wroteHeader then s.code else STATUS_OK)
    decreases chunks
  {
    if chunks != [] {
      WriteEffect(s, chunks[0], id);
      var teed := s.tee.Some?;
      if !Stops(chunks[0], teed) {
        var next := AfterWrite(s, chunks[0]);
        CopyEffect(next, chunks[1..], id);
        Associate(s.body, Taken(chunks[0]), CopiedText(chunks[1..], teed));
        if s.tee == Some(id) {
          Associate(SeenBy(s.teed, id), Taken(chunks[0]), CopiedText(chunks[1..], teed));
        }
      } else {
        assert Taken(chunks[0]) + [] == Taken(chunks[0]);
      }
    }
  }

  function Offered(chunks: seq<Chunk>): Text {
    if chunks == [] then [] else chunks[0].data + Offered(chunks[1..])
  }

  /** A copy passes on a prefix of what is offered, and all of it exactly when every chunk
      is taken whole and none but the last comes with an error; so also when it returns
      no error, which is when no chunk stops it. */
  lemma {:induction false} CopyIsComplete(chunks: seq<Chunk>, teed: bool)
    requires WellFormedOp(ReadFrom(chunks))
    ensures CopiedText(chunks, teed) <= Offered(chunks)
    ensures CopiedText(chunks, teed) == Offered(chunks) <==>
            forall i :: 0 <= i < |chunks| ==>
              chunks[i].accepted == |chunks[i].data| && (i + 1 < |chunks| ==> !Stops(chunks[i], teed))
    ensures CopyError(chunks, teed).None? <==> forall i :: 0 <= i < |chunks| ==> !Stops(chunks[i], teed)
  {
    if chunks != [] {
      var c, rest := chunks[0], chunks[1..];
      CopyIsComplete(rest, teed);
      assert forall i :: 1 <= i < |chunks| ==> chunks[i] == rest[i - 1];
      assert c.data == Taken(c) + c.data[c.accepted..];
      if Stops(c, teed) {
        assert Taken(c) + [] == Taken(c);
        Associate(Taken(c), c.data[c.accepted..], Offered(rest));
        assert rest != [] ==> |Offered(rest)| >= |rest[0].data| > 0;
      } else {
        assert Taken(c) == c.data;
        SameFront(c.data, CopiedText(rest, teed), Offered(rest));
      }
    }
  }

  /** The error of a write: that of the proxied writer; else, with a tee, that of the tee. */
  lemma ProxiedErrorFirst(c: Chunk, e: Error)
    ensures WriteError(c, false) == Some(e) <==> c.err == Some(e)
    ensures WriteError(c, true) == Some(e) <==> c.err == Some(e) || (c.err == None && c.teeErr == Some(e))
  {
  }

  /** A copy ends behind the first chunk that is written with an error or short, with that
      error or "short write". */
  lemma {:induction false} CopyStopsAt(chunks: seq<Chunk>, k: nat, teed: bool)
    requires WellFormedOp(ReadFrom(chunks)) && k < |chunks|
    requires forall i :: 0 <= i < k ==>
               chunks[i].err == None && (teed ==> chunks[i].teeErr == None) && chunks[i].accepted == |chunks[i].data|
    requires chunks[k].err != None || (teed && chunks[k].teeErr != None) || chunks[k].accepted != |chunks[k].data|
    ensures CopiedText(chunks, teed) == Offered(chunks[..k]) + chunks[k].data[..chunks[k].accepted]
    ensures CopyError(chunks, teed) ==
            if chunks[k].err != None then chunks[k].err
            else if teed && chunks[k].teeErr != None then chunks[k].teeErr
            else Some("short write")
  {
    if k > 0 {
      var rest := chunks[1..];
      assert forall i :: 0 <= i < |rest| ==> rest[i] == chunks[i + 1];
      CopyStopsAt(rest, k - 1, teed);
      assert chunks[..k][1..] == rest[..k - 1];
      assert Taken(chunks[0]) == chunks[0].data;
      Associate(chunks[0].data, Offered(rest[..k - 1]), rest[k - 1].data[..rest[k - 1].accepted]);
    } else {
      assert Taken(chunks[0]) + [] == Taken(chunks[0]) && [] + Taken(chunks[0]) == Taken(chunks[0]);
    }
  }

  lemma OpEffect(s: State, op: Op, id: nat)
    requires WellFormedOp(op)
    ensures var s', text := After(s, op), Passed(op, s.tee.Some?);
            && s'.body == s.body + text && s'.tee == TeeAfter(s.tee, op)
            && s'.bytes == s.bytes + |text| + (if s.tee.Some? && op.ReadFrom? then |text| else 0)
            && SeenBy(s'.teed, id) == SeenBy(s.teed, id) + if s.tee == Some(id) then text else []
    ensures var s', settles := After(s, op), Settles(s.tee, op);
            && s'.wroteHeader == (s.wroteHeader || settles.Some?)
            && s'.headers == s.headers + (if s.wroteHeader || settles.None? then [] else settles.value)
            && (s'.headers == s.headers ==> s'.code == s.code)
            && (s'.headers != s.headers ==> [s'.code] == settles.value)
  {
    match op {
      case Write(c) => WriteEffect(s, c, id);
      case ReadFrom(chunks) => CopyEffect(s, chunks, id);
      case _ => assert s.body + [] == s.body;
    }
  }

  lemma {:induction false} RunEffect(s: State, ops: seq<Op>, id: nat)
    requires WellFormedRun(ops)
    ensures var s' := AfterAll(s, ops);
            && s'.body == s.body + PassedAll(s.tee, ops)
            && s'.bytes == s.bytes + |PassedAll(s.tee, ops)| + TeedReads(s.tee, ops)
            && SeenBy(s'.teed, id) == SeenBy(s.teed, id) + PassedWhile(s.tee, ops, id)
    decreases ops
  {
    if ops != [] {
      OpEffect(s, ops[0], id);
      RunEffect(After(s, ops[0]), ops[1..], id);
      hide After, Passed;
      var text := Passed(ops[0], s.tee.Some?);
      Associate(s.body, text, PassedAll(TeeAfter(s.tee, ops[0]), ops[1..]));
      Associate(SeenBy(s.teed, id), if s.tee == Some(id) then text else [],
                PassedWhile(TeeAfter(s.tee, ops[0]), ops[1..], id));
    }
  }

  lemma {:induction false} RunHeaders(s: State, ops: seq<Op>)
    requires WellFormedRun(ops)
    ensures var s' := AfterAll(s, ops);
            && s'.headers == s.headers + (if s.wroteHeader then [] else Settled(s.tee, ops))
            && (s'.headers == s.headers ==> s'.code == s.code)
            && (s'.headers != s.headers ==> [s'.code] == Settled(s.tee, ops))
    decreases ops
  {
    if ops != [] {
      OpEffect(s, ops[0], 0);
      RunHeaders(After(s, ops[0]), ops[1..]);
    }
  }

  lemma {:induction false} SettledOnce(tee: Option<nat>, ops: seq<Op>)
    ensures |Settled(tee, ops)| <= 1
    decreases ops
  {
    if ops != [] {
      SettledOnce(TeeAfter(tee, ops[0]), ops[1..]);
    }
  }

  /** Over any run, at most one header is forwarded: that of the first call that settles
      it, unless that is a Flush. Status is its code, or 0. */
  lemma HeaderOnce(ops: seq<Op>)
    requires WellFormedRun(ops)
    ensures var s := AfterAll(FRESH, ops);
            && |s.headers| <= 1 && s.headers == Settled(None, ops)
            && s.code == if s.headers == [] then 0 else s.headers[0]
  {
    RunHeaders(FRESH, ops);
    SettledOnce(None, ops);
  }

  /** Over any run, the proxied writer takes what the calls passed on, in order, and each
      tee'd writer is offered exactly the part passed on while it was the tee. */
  lemma TeeSeesItsPart(ops: seq<Op>, id: nat)
    requires WellFormedRun(ops)
    ensures var s := AfterAll(FRESH, ops);
            s.body == PassedAll(None, ops) && SeenBy(s.teed, id) == PassedWhile(None, ops, id)
  {
    RunEffect(FRESH, ops, id);
  }

  /** BytesWritten is right exactly when no ReadFrom passed bytes on while a tee was set:
      that path counts its bytes twice. */
  lemma BytesWrittenIsRight(ops: seq<Op>)
    requires WellFormedRun(ops)
    ensures var s := AfterAll(FRESH, ops);
            && s.bytes == |s.body| + TeedReads(None, ops)
            && (s.bytes == |s.body| <==> TeedReads(None, ops) == 0)
  {
    RunEffect(FRESH, ops, 0);
  }

  /** One byte read while a tee is set is counted as two. */
  lemma TeedReadCountsTwice()
    ensures var ops := [Tee(Some(0)), ReadFrom([Chunk([COMMA], 1, None, None)])];
            WellFormedRun(ops) && AfterAll(FRESH, ops).bytes == 2 && AfterAll(FRESH, ops).body == [COMMA]
  {
    var chunk := Chunk([COMMA], 1, None, None);
    var ops := [Tee(Some(0)), ReadFrom([chunk])];
    assert WellFormed(chunk) && WellFormedRun(ops);
    assert ops[1..] == [ops[1]] && [ops[1]][1..] == [] && [chunk][1..] == [];
    assert Taken(chunk) == [COMMA];
    assert CopiedText([chunk], true) == [COMMA] + CopiedText([], true);
    RunEffect(FRESH, ops, 0);
    assert PassedAll(None, ops) == [] + (CopiedText([chunk], true) + PassedAll(Some(0), []));
    assert TeedReads(Some(0), [ops[1]]) == 1;
  }

  /** The header that is settled without a call of WriteHeader is 200. */
  lemma DefaultStatus(chunk: Chunk, rest: seq<Op>)
    requires WellFormed(chunk) && WellFormedRun(rest)
    ensures AfterAll(FRESH, [Write(chunk)] + rest).code == 200
    ensures AfterAll(FRESH, [ReadFrom([])] + rest).code == 200
    ensures AfterAll(FRESH, [Op.Flush] + rest).code == 0
  {
    HeaderOnce([Write(chunk)] + rest);
    HeaderOnce([ReadFrom([])] + rest);
    HeaderOnce([Op.Flush] + rest);
  }
}
