/** Responses as handlers write them and clients receive them,
    and the recorder of internal/middleware/idempotency.go. */
module Responses {
  import opened Bytes
  import opened Options

  /** One call of a handler on its response writer. */
  datatype Action = WriteHeader(code: int) | Write(data: seq<Byte>)

  datatype Response = Response(status: int, body: seq<Byte>)

  /** Codes 100 to 199, except 101, announce a response without being its status (section 15.2 of RFC 9110). */
  predicate Informational(code: int) {
    100 <= code < 200 && code != 101
  }

  /** The status that went out with the first n calls: the first final code, or 200 with the first write. */
  function HeaderAt(acts: seq<Action>, n: nat): Option<int>
    requires n <= |acts|
  {
    if n == 0 then None
    else if HeaderAt(acts, n - 1).Some? then HeaderAt(acts, n - 1)
    else match acts[n - 1]
      case WriteHeader(code) => if Informational(code) then None else Some(code)
      case Write(_) => Some(200)
  }

  /** The concatenation of all writes. */
  function BodyAt(acts: seq<Action>, n: nat): seq<Byte>
    requires n <= |acts|
  {
    if n == 0 then [] else BodyAt(acts, n - 1) + (if acts[n - 1].Write? then acts[n - 1].data else [])
  }

  /** Under a status without a body, which informational ones, 204 and 304 are, all writes are dropped. */
  predicate AllowsBody(status: int) {
    !(100 <= status < 200) && status != 204 && status != 304
  }

  /** What the client receives once the handler has returned. */
  function Received(acts: seq<Action>): Response {
    var header := HeaderAt(acts, |acts|);
    var status := if header.Some? then header.value else 200;
    Response(status, if AllowsBody(status) then BodyAt(acts, |acts|) else [])
  }

  /** What the recorder holds: the last code passed to WriteHeader, by default 200. */
  function CodeAt(acts: seq<Action>, n: nat): int
    requires n <= |acts|
  {
    if n == 0 then 200
    else if acts[n - 1].WriteHeader? then acts[n - 1].code
    else CodeAt(acts, n - 1)
  }

  function Recorded(acts: seq<Action>): Response {
    Response(CodeAt(acts, |acts|), BodyAt(acts, |acts|))
  }

  /** The calls that replay a recorded response. */
  function Replay(r: Response): seq<Action> {
    [WriteHeader(r.status), Write(r.body)]
  }

  // ----- Fidelity of the replay -----

  /** The code of the last call of WriteHeader made after the header had gone out, if there was one. */
  function LateCode(acts: seq<Action>, n: nat): Option<int>
    requires n <= |acts|
  {
    if n == 0 then None
    else if acts[n - 1].WriteHeader? && HeaderAt(acts, n - 1).Some? then Some(acts[n - 1].code)
    else LateCode(acts, n - 1)
  }

  /** The status a client gets when this code is the only one announced. */
  function Effective(code: int): int {
    if Informational(code) then 200 else code
  }

  lemma {:induction false} CodeIsHeaderUnlessLate(acts: seq<Action>, n: nat)
    requires n <= |acts|
    ensures var header, code := HeaderAt(acts, n), CodeAt(acts, n);
            match LateCode(acts, n)
            case None => Effective(code) == if header.Some? then header.value else 200
            case Some(late) => code == late && header.Some?
  {
    if n > 0 {
      CodeIsHeaderUnlessLate(acts, n - 1);
    }
  }

  lemma ReplayReceived(r: Response)
    ensures Received(Replay(r)) == Response(Effective(r.status), if AllowsBody(Effective(r.status)) then r.body else [])
  {
    var acts := Replay(r);
    assert HeaderAt(acts, 0) == None && BodyAt(acts, 0) == [];
    assert HeaderAt(acts, 1) == (if Informational(r.status) then None else Some(r.status)) && BodyAt(acts, 1) == [];
    assert BodyAt(acts, 2) == r.body;
  }

  /** A replay is what the first client received, exactly when the handler made no late call of WriteHeader
      or its last late call repeats the status already sent. The body alone is the same exactly when the status
      sent and the last code announced both allow a body, or neither does, or nothing was written. */
  lemma ReplayIsFaithfulIff(acts: seq<Action>)
    ensures Received(Replay(Recorded(acts))) == Received(acts)
       <==> match LateCode(acts, |acts|)
            case None => true
            case Some(late) => Effective(late) == Received(acts).status
    ensures Received(Replay(Recorded(acts))).body == Received(acts).body
       <==> BodyAt(acts, |acts|) == []
            || (AllowsBody(Effective(CodeAt(acts, |acts|))) <==> AllowsBody(Received(acts).status))
  {
    CodeIsHeaderUnlessLate(acts, |acts|);
    ReplayReceived(Recorded(acts));
  }

  // ----- Handlers one after the other -----

  lemma {:induction false} LaterHeader(a: seq<Action>, b: seq<Action>, n: nat)
    requires n <= |b|
    ensures HeaderAt(a + b, |a| + n) == if HeaderAt(a, |a|).Some? then HeaderAt(a, |a|) else HeaderAt(b, n)
  {
    if n == 0 {
      Earlier(a, b, |a|);
    } else {
      LaterHeader(a, b, n - 1);
    }
  }

  lemma {:induction false} LaterBody(a: seq<Action>, b: seq<Action>, n: nat)
    requires n <= |b|
    ensures BodyAt(a + b, |a| + n) == BodyAt(a, |a|) + BodyAt(b, n)
  {
    if n == 0 {
      Earlier(a, b, |a|);
    } else {
      LaterBody(a, b, n - 1);
    }
  }

  /** One of the first n calls announces a code. */
  predicate Announces(acts: seq<Action>, n: nat)
    requires n <= |acts|
  {
    exists k :: 0 <= k < n && acts[k].WriteHeader?
  }

  lemma {:induction false} LaterCode(a: seq<Action>, b: seq<Action>, n: nat)
    requires n <= |b|
    ensures CodeAt(a + b, |a| + n) == if Announces(b, n) then CodeAt(b, n) else CodeAt(a, |a|)
  {
    if n == 0 {
      Earlier(a, b, |a|);
    } else {
      LaterCode(a, b, n - 1);
      assert Announces(b, n) <==> Announces(b, n - 1) || b[n - 1].WriteHeader?;
    }
  }

  lemma {:induction false} Earlier(a: seq<Action>, b: seq<Action>, n: nat)
    requires n <= |a|
    ensures HeaderAt(a + b, n) == HeaderAt(a, n) && BodyAt(a + b, n) == BodyAt(a, n) && CodeAt(a + b, n) == CodeAt(a, n)
  {
    if n > 0 {
      Earlier(a, b, n - 1);
    }
  }

  lemma InSequence(a: seq<Action>, b: seq<Action>)
    ensures HeaderAt(a + b, |a + b|) == if HeaderAt(a, |a|).Some? then HeaderAt(a, |a|) else HeaderAt(b, |b|)
    ensures BodyAt(a + b, |a + b|) == BodyAt(a, |a|) + BodyAt(b, |b|)
    ensures CodeAt(a + b, |a + b|) == if Announces(b, |b|) then CodeAt(b, |b|) else CodeAt(a, |a|)
  {
    LaterHeader(a, b, |b|);
    LaterBody(a, b, |b|);
    LaterCode(a, b, |b|);
    assert |a + b| == |a| + |b|;
  }

  /** One handler's calls after another's: the recorder keeps all bytes in order and the last code announced. */
  lemma RecordedInSequence(a: seq<Action>, b: seq<Action>)
    ensures Recorded(a + b).body == Recorded(a).body + Recorded(b).body
    ensures Recorded(a + b).status
         == if exists k :: 0 <= k < |b| && b[k].WriteHeader? then Recorded(b).status else Recorded(a).status
  {
    InSequence(a, b);
    assert Announces(b, |b|) <==> exists k :: 0 <= k < |b| && b[k].WriteHeader?;
  }

  /** The client gets all bytes in order, and the first status settled. */
  lemma ReceivedInSequence(a: seq<Action>, b: seq<Action>)
    ensures Received(a + b).status == if HeaderAt(a, |a|).Some? then Received(a).status else Received(b).status
    ensures AllowsBody(Received(a).status) && AllowsBody(Received(b).status) ==>
              Received(a + b).body == Received(a).body + Received(b).body
  {
    InSequence(a, b);
  }

  /** Single calls, and none at all. */
  lemma SingleCalls(data: seq<Byte>, code: int)
    ensures Recorded([]) == Received([]) == Response(200, [])
    ensures Recorded([Write(data)]) == Received([Write(data)]) == Response(200, data)
    ensures Recorded([WriteHeader(code)]) == Response(code, [])
    ensures Received([WriteHeader(code)]) == Response(if 100 <= code <= 199 && code != 101 then 200 else code, [])
    ensures code in {101, 204, 304} ==> Received([WriteHeader(code), Write(data)]) == Response(code, [])
    ensures code > 199 && code !in {204, 304} ==> Received([WriteHeader(code), Write(data)]) == Response(code, data)
    ensures HeaderAt([], 0).None? && HeaderAt([Write(data)], 1).Some?
    ensures HeaderAt([WriteHeader(code)], 1).Some? <==> !(100 <= code <= 199 && code != 101)
  {
    var one, both := [WriteHeader(code)], [WriteHeader(code), Write(data)];
    assert BodyAt([Write(data)], 0) == [] && HeaderAt([Write(data)], 0) == None && CodeAt([Write(data)], 0) == 200;
    assert HeaderAt(one, 0) == None && BodyAt(one, 0) == [];
    assert HeaderAt(both, 0) == None && BodyAt(both, 0) == [] && BodyAt(both, 1) == [];
    assert HeaderAt(both, 1) == if Informational(code) then None else Some(code);
    assert BodyAt(both, 2) == data;
  }

  /** At most one call of WriteHeader, and none after a write: the discipline net/http asks for. */
  predicate Disciplined(acts: seq<Action>) {
    forall j :: 0 < j < |acts| ==> !acts[j].WriteHeader?
  }

  lemma {:induction false} DisciplinedIsNeverLate(acts: seq<Action>, n: nat)
    requires n <= |acts| && Disciplined(acts)
    ensures LateCode(acts, n) == None
  {
    if n > 0 {
      DisciplinedIsNeverLate(acts, n - 1);
    }
  }

  /** Replays of disciplined handlers are faithful. */
  lemma DisciplinedReplay(acts: seq<Action>)
    requires Disciplined(acts)
    ensures Received(Replay(Recorded(acts))) == Received(acts)
  {
    DisciplinedIsNeverLate(acts, |acts|);
    ReplayIsFaithfulIff(acts);
  }

  /** A handler that fails after its first byte sends 200 and is replayed as 500. */
  lemma LateErrorIsReplayedDifferently()
    ensures var acts := [Write([1]), WriteHeader(500)];
            Received(acts).status == 200 && Received(Replay(Recorded(acts))).status == 500
  {
    var acts := [Write([1]), WriteHeader(500)];
    assert HeaderAt(acts, 0) == None && HeaderAt(acts, 1) == Some(200);
    ReplayReceived(Recorded(acts));
  }

  // ----- The classes -----

  /** The underlying response writer: the calls it has seen. */
  class ResponseWriter {
    var calls: seq<Action>

    constructor ()
      ensures calls == []
    {
      calls := [];
    }

    method Do(a: Action)
      modifies this
      ensures calls == old(calls) + [a]
    {
      calls := calls + [a];
    }
  }

  /** Runs a handler, given as the calls it makes, directly on a writer. */
  method Handle(w: ResponseWriter, acts: seq<Action>)
    modifies w
    ensures w.calls == old(w.calls) + acts
  {
    for i := 0 to |acts|
      invariant w.calls == old(w.calls) + acts[..i]
    {
      w.Do(acts[i]);
    }
  }

  class ResponseRecorder {
    const inner: ResponseWriter
    var statusCode: int
    var body: seq<Byte>

    /** The recorder holds what the calls passed on so far amount to. */
    ghost predicate Valid()
      reads this, inner
    {
      Response(statusCode, body) == Recorded(inner.calls)
    }

    constructor (w: ResponseWriter)
      requires w.calls == []
      ensures Valid() && inner == w && statusCode == 200 && body == []
    {
      inner := w;
      statusCode := 200;
      body := [];
    }

    method WriteHeader(code: int)
      requires Valid()
      modifies this, inner
      ensures Valid() && inner.calls == old(inner.calls) + [Action.WriteHeader(code)]
      ensures statusCode == code && body == old(body)
    {
      Earlier(inner.calls, [Action.WriteHeader(code)], |inner.calls|);
      statusCode := code;
      inner.Do(Action.WriteHeader(code));
    }

    method Write(data: seq<Byte>)
      requires Valid()
      modifies this, inner
      ensures Valid() && inner.calls == old(inner.calls) + [Action.Write(data)]
      ensures statusCode == old(statusCode) && body == old(body) + data
    {
      Earlier(inner.calls, [Action.Write(data)], |inner.calls|);
      body := body + data;
      inner.Do(Action.Write(data));
    }

    /** Runs a handler on the recorder. */
    method Handle(acts: seq<Action>)
      requires Valid()
      modifies this, inner
      ensures Valid() && inner.calls == old(inner.calls) + acts
    {
      for i := 0 to |acts|
        invariant Valid() && inner.calls == old(inner.calls) + acts[..i]
      {
        match acts[i]
        case WriteHeader(code) => WriteHeader(code);
        case Write(data) => Write(data);
      }
    }
  }
}
