/** One session of the manager protocol (manager/protocol_v1.go). JSON and the requests' effects are parameters. */
module ManagerSession {
  import opened ManagerFrames
  import opened Wrappers

  const VERSION: int := 1
  const HELLO := "hello"

  import Bytes

  type Raw = seq<Bytes.Byte>

  datatype Request = Request(version: int, requestId: int, name: string, parameters: Raw)

  datatype ErrorCode = UnsupportedVersion | InvalidRequest | HelloRequired | Remote(code: string)

  /** A response carries a result or an error. */
  datatype Response = Response(version: int, requestId: int, answer: Result<Raw, ErrorCode>)

  /** `decode` and `encode` stand for JSON, `handler(k, r)` for what the k-th dispatched request answers. */
  datatype Env = Env(
    decode: Payload -> Option<Request>,
    encode: Response -> Option<Payload>,
    handler: (nat, Request) -> Result<Raw, string>)

  // ---------------------------------------------------------------- turns

  datatype State = State(helloCompleted: bool, dispatches: nat)

  const FRESH: State := State(false, 0)

  /** A request and what was done about it. */
  datatype Turn = Turn(request: Request, dispatched: bool, response: Response)

  predicate WellFormed(r: Request) { r.version == VERSION && r.requestId > 0 }

  function TurnOf(env: Env, st: State, r: Request): (Turn, State) {
    var refuse := (code: ErrorCode) => (Turn(r, false, Response(VERSION, r.requestId, Err(code))), st);
    if r.version != VERSION then refuse(UnsupportedVersion)
    else if r.requestId <= 0 then refuse(InvalidRequest)
    else if st.helloCompleted && r.name == HELLO then refuse(InvalidRequest)
    else if !st.helloCompleted && r.name != HELLO then refuse(HelloRequired)
    else
      match env.handler(st.dispatches, r)
      case Err(code) =>
        (Turn(r, true, Response(VERSION, r.requestId, Err(Remote(code)))), st.(dispatches := st.dispatches + 1))
      case Ok(result) =>
        (Turn(r, true, Response(VERSION, r.requestId, Ok(result))),
         State(st.helloCompleted || r.name == HELLO, st.dispatches + 1))
  }

  function StateAfter(env: Env, reqs: seq<Request>): State
    decreases |reqs|
  {
    if reqs == [] then FRESH
    else TurnOf(env, StateAfter(env, reqs[..|reqs| - 1]), reqs[|reqs| - 1]).1
  }

  function Turns(env: Env, reqs: seq<Request>): (ts: seq<Turn>)
    ensures |ts| == |reqs|
    decreases |reqs|
  {
    if reqs == [] then []
    else
      var before := reqs[..|reqs| - 1];
      Turns(env, before) + [TurnOf(env, StateAfter(env, before), reqs[|reqs| - 1]).0]
  }

  lemma {:induction false} TurnAt(env: Env, reqs: seq<Request>, i: nat)
    requires i < |reqs|
    ensures Turns(env, reqs)[i] == TurnOf(env, StateAfter(env, reqs[..i]), reqs[i]).0
    decreases |reqs|
  {
    hide TurnOf, StateAfter;
    var before := reqs[..|reqs| - 1];
    if i < |before| {
      TurnAt(env, before, i);
      assert before[..i] == reqs[..i];
    }
  }

  // ---------------------------------------------------------------- the rules of a session

  /** Turn i is a hello that succeeded. */
  predicate Greeted(ts: seq<Turn>, i: nat)
    requires i < |ts|
  {
    ts[i].dispatched && ts[i].request.name == HELLO && ts[i].response.answer.Ok?
  }

  ghost predicate GreetedBefore(ts: seq<Turn>, n: nat)
    requires n <= |ts|
  {
    exists i: nat :: i < n && Greeted(ts, i)
  }

  /** The flag says whether a hello has succeeded. */
  lemma {:induction false} FlagIs(env: Env, reqs: seq<Request>, n: nat)
    requires n <= |reqs|
    ensures StateAfter(env, reqs[..n]).helloCompleted <==> GreetedBefore(Turns(env, reqs), n)
    decreases n
  {
    hide Turns, StateAfter;
    if n == 0 {
      FreshIs(env);
      assert reqs[..0] == [];
    } else {
      FlagIs(env, reqs, n - 1);
      TurnAt(env, reqs, n - 1);
      StateStep(env, reqs, n - 1);
      var ts := Turns(env, reqs);
      assert Greeted(ts, n - 1) ==> GreetedBefore(ts, n);
      assert GreetedBefore(ts, n) <==> GreetedBefore(ts, n - 1) || Greeted(ts, n - 1);
    }
  }

  lemma FreshIs(env: Env)
    ensures StateAfter(env, []) == FRESH
  {
  }

  lemma {:induction false} StateStep(env: Env, reqs: seq<Request>, n: nat)
    requires n < |reqs|
    ensures StateAfter(env, reqs[..n + 1]) == TurnOf(env, StateAfter(env, reqs[..n]), reqs[n]).1
  {
    hide TurnOf;
    assert reqs[..n + 1][..n] == reqs[..n];
  }

  /** Every request is answered once, in order, under its own identifier. */
  lemma {:induction false} AnsweredInOrder(env: Env, reqs: seq<Request>)
    ensures |Turns(env, reqs)| == |reqs|
    ensures forall i | 0 <= i < |reqs| ::
              var t := Turns(env, reqs)[i];
              t.request == reqs[i] && t.response.requestId == reqs[i].requestId && t.response.version == VERSION
  {
    hide Turns, StateAfter;
    forall i | 0 <= i < |reqs|
      ensures Turns(env, reqs)[i].request == reqs[i]
      ensures Turns(env, reqs)[i].response.requestId == reqs[i].requestId && Turns(env, reqs)[i].response.version == VERSION
    {
      TurnAt(env, reqs, i);
    }
  }

  /** A request is dispatched exactly when it is well-formed and comes at its time: hello before a hello has succeeded,
      anything else after. */
  lemma {:induction false} DispatchedIff(env: Env, reqs: seq<Request>, i: nat)
    requires i < |reqs|
    ensures var ts := Turns(env, reqs);
            ts[i].dispatched <==> WellFormed(reqs[i]) && (reqs[i].name == HELLO <==> !GreetedBefore(ts, i))
  {
    hide Turns, StateAfter, GreetedBefore;
    TurnAt(env, reqs, i);
    FlagIs(env, reqs, i);
  }

  /** At most one hello succeeds: only hellos are dispatched up to it, and none after. */
  lemma {:induction false} OneHello(env: Env, reqs: seq<Request>, h: nat)
    requires h < |reqs| && Greeted(Turns(env, reqs), h)
    ensures var ts := Turns(env, reqs);
            && (forall i: nat | i < h && ts[i].dispatched :: reqs[i].name == HELLO && !Greeted(ts, i))
            && (forall i: nat | h < i < |reqs| && ts[i].dispatched :: reqs[i].name != HELLO)
  {
    hide Turns, StateAfter, Greeted, GreetedBefore;
    var ts := Turns(env, reqs);
    DispatchedHello(env, reqs, h);
    forall i: nat | i < |reqs|
      ensures i < h && ts[i].dispatched ==> reqs[i].name == HELLO && !Greeted(ts, i)
      ensures h < i && ts[i].dispatched ==> reqs[i].name != HELLO
    {
      DispatchedIff(env, reqs, i);
      if h < i { GreetedEarlier(ts, h, i); } else if i < h { GreetedEarlier(ts, i, h); }
    }
  }

  lemma {:induction false} GreetedEarlier(ts: seq<Turn>, i: nat, n: nat)
    requires i < n <= |ts|
    ensures Greeted(ts, i) ==> GreetedBefore(ts, n)
    ensures GreetedBefore(ts, i) ==> GreetedBefore(ts, n)
  {
    hide Greeted;
  }

  lemma {:induction false} DispatchedHello(env: Env, reqs: seq<Request>, h: nat)
    requires h < |reqs| && Greeted(Turns(env, reqs), h)
    ensures !GreetedBefore(Turns(env, reqs), h)
  {
    hide Turns, GreetedBefore;
    DispatchedIff(env, reqs, h);
    TurnAt(env, reqs, h);
  }

  // ---------------------------------------------------------------- what the answers say

  /** How many requests were handed to the service. */
  function Dispatches(ts: seq<Turn>): nat
    decreases |ts|
  {
    if ts == [] then 0 else Dispatches(ts[..|ts| - 1]) + if ts[|ts| - 1].dispatched then 1 else 0
  }

  lemma {:induction false} DispatchesAre(env: Env, reqs: seq<Request>, n: nat)
    requires n <= |reqs|
    ensures StateAfter(env, reqs[..n]).dispatches == Dispatches(Turns(env, reqs)[..n])
    decreases n
  {
    hide Turns, StateAfter;
    if n == 0 {
      FreshIs(env);
      assert reqs[..0] == [];
    } else {
      DispatchesAre(env, reqs, n - 1);
      TurnAt(env, reqs, n - 1);
      StateStep(env, reqs, n - 1);
      var ts := Turns(env, reqs)[..n];
      assert ts[..n - 1] == Turns(env, reqs)[..n - 1] && ts[n - 1] == Turns(env, reqs)[n - 1];
    }
  }

  /** A dispatched request is answered with what the service makes of it, as the k-th one it is given. */
  lemma {:induction false} DispatchedAnswer(env: Env, reqs: seq<Request>, i: nat)
    requires i < |reqs| && Turns(env, reqs)[i].dispatched
    ensures var ts := Turns(env, reqs);
            var answer, made := ts[i].response.answer, env.handler(Dispatches(ts[..i]), reqs[i]);
            && (forall v :: answer == Ok(v) <==> made == Ok(v))
            && (forall code :: answer == Err(Remote(code)) <==> made == Err(code))
            && (answer.Err? ==> answer.error.Remote?)
  {
    hide Turns, StateAfter;
    TurnAt(env, reqs, i);
    DispatchesAre(env, reqs, i);
  }

  /** A request that is not dispatched is refused: for its version if that is not 1, for coming before the greeting if it is
      well-formed and no hello, and as invalid otherwise. */
  lemma {:induction false} RefusedAnswer(env: Env, reqs: seq<Request>, i: nat)
    requires i < |reqs| && !Turns(env, reqs)[i].dispatched
    ensures var ts := Turns(env, reqs);
            var r, answer := reqs[i], ts[i].response.answer;
            && answer.Err?
            && (answer.error == UnsupportedVersion <==> r.version != 1)
            && (answer.error == HelloRequired
                <==> r.version == 1 && r.requestId > 0 && r.name != "hello" && !GreetedBefore(ts, i))
            && (answer.error == InvalidRequest
                <==> r.version == 1 && (r.requestId <= 0 || (r.name == "hello" && GreetedBefore(ts, i))))
  {
    hide Turns, StateAfter, GreetedBefore;
    TurnAt(env, reqs, i);
    FlagIs(env, reqs, i);
  }

  // ---------------------------------------------------------------- the program

  /** The requests of the frames up to the first that does not decode. */
  function Requests(env: Env, input: seq<Bytes.Byte>): seq<Request>
    decreases |input|
  {
    match ReadFrame(input)
    case None => []
    case Some((p, rest)) =>
      match env.decode(p)
      case None => []
      case Some(r) => [r] + Requests(env, rest)
  }

  /** The frame of a response, nothing if it cannot be encoded. */
  function Answer(env: Env, t: Turn): seq<Bytes.Byte> {
    match env.encode(t.response)
    case Some(p) => if Sendable(p) then Frame(p) else []
    case None => []
  }

  /** The frames of all responses. */
  function Answers(env: Env, ts: seq<Turn>): seq<Bytes.Byte>
    decreases |ts|
  {
    if ts == [] then [] else Answers(env, ts[..|ts| - 1]) + Answer(env, ts[|ts| - 1])
  }

  /** Serves the input until it ends, a frame is bad, or a response cannot be written. All responses but the last are
      written in full; so is the last unless writing failed. */
  method Serve(env: Env, input: seq<Bytes.Byte>, writer: Writer) returns (ghost turns: seq<Turn>, failed: bool)
    requires writer.Valid()
    modifies writer
    ensures var reqs := Requests(env, input);
            && |turns| <= |reqs| && turns == Turns(env, reqs[..|turns|])
            && (!failed ==> turns == Turns(env, reqs) && writer.out == old(writer.out) + Answers(env, turns))
            && (failed ==> |turns| > 0 && old(writer.out) + Answers(env, turns[..|turns| - 1]) <= writer.out)
    ensures writer.out <= old(writer.out) + Answers(env, turns)
  {
    hide ReadFrame, TurnOf, Turns, StateAfter, Requests, Answers, Answer;
    turns := [];
    failed := false;
    ghost var reqs := Requests(env, input);
    var rest := input;
    var st := FRESH;
    ghost var before := writer.out;
    ServeStart(env, reqs, before);
    while true
      invariant |turns| <= |reqs| && turns == Turns(env, reqs[..|turns|])
      invariant st == StateAfter(env, reqs[..|turns|])
      invariant reqs == reqs[..|turns|] + Requests(env, rest)
      invariant writer.out == before + Answers(env, turns)
      decreases |rest|
    {
      ServeEnd(env, reqs, |turns|, rest);
      var frame := ReadFrame(rest);
      if frame.None? { return; }
      var request := env.decode(frame.value.0);
      if request.None? { return; }
      ServeStep(env, reqs, |turns|, rest);
      var (turn, next) := TurnOf(env, st, request.value);
      AnswersEnd(env, turns, turn, before);
      ghost var was := before + Answers(env, turns);
      turns := turns + [turn];
      st := next;
      rest := frame.value.1;
      failed := WriteResponse(env, writer, turn, was);
      if failed { return; }
    }
  }

  lemma {:induction false} ServeStart(env: Env, reqs: seq<Request>, before: seq<Bytes.Byte>)
    ensures reqs[..0] == [] && Turns(env, []) == [] && StateAfter(env, []) == FRESH && Answers(env, []) == []
    ensures reqs == reqs[..0] + reqs && before == before + []
  {
  }

  lemma {:induction false} ServeEnd(env: Env, reqs: seq<Request>, n: nat, rest: seq<Bytes.Byte>)
    requires n <= |reqs| && reqs == reqs[..n] + Requests(env, rest)
    ensures ReadFrame(rest).None? || env.decode(ReadFrame(rest).value.0).None? ==> reqs[..n] == reqs
  {
    hide ReadFrame;
  }

  lemma {:induction false} ServeStep(env: Env, reqs: seq<Request>, n: nat, rest: seq<Bytes.Byte>)
    requires n <= |reqs| && reqs == reqs[..n] + Requests(env, rest)
    requires ReadFrame(rest).Some? && env.decode(ReadFrame(rest).value.0).Some?
    ensures n < |reqs| && reqs[n] == env.decode(ReadFrame(rest).value.0).value
    ensures reqs == reqs[..n + 1] + Requests(env, ReadFrame(rest).value.1)
    ensures var next := TurnOf(env, StateAfter(env, reqs[..n]), reqs[n]);
            Turns(env, reqs[..n + 1]) == Turns(env, reqs[..n]) + [next.0] && StateAfter(env, reqs[..n + 1]) == next.1
  {
    hide ReadFrame, TurnOf;
    var r, tail := env.decode(ReadFrame(rest).value.0).value, Requests(env, ReadFrame(rest).value.1);
    assert Requests(env, rest) == [r] + tail;
    assert reqs[..n] + ([r] + tail) == reqs[..n] + [r] + tail;
    assert reqs[..n + 1] == reqs[..n] + [r];
    assert reqs[..n + 1][..n] == reqs[..n];
  }

  lemma {:induction false} AnswersEnd(env: Env, ts: seq<Turn>, t: Turn, before: seq<Bytes.Byte>)
    ensures before + Answers(env, ts + [t]) == before + Answers(env, ts) + Answer(env, t)
    ensures (ts + [t])[..|ts|] == ts
  {
    hide Answer;
    assert (ts + [t])[..|ts|] == ts;
    assert before + (Answers(env, ts) + Answer(env, t)) == before + Answers(env, ts) + Answer(env, t);
  }

  /** Writes the response of a turn. */
  method WriteResponse(env: Env, writer: Writer, turn: Turn, ghost before: seq<Bytes.Byte>) returns (failed: bool)
    requires writer.Valid() && writer.out == before
    modifies writer
    ensures before <= writer.out <= before + Answer(env, turn)
    ensures !failed ==> writer.out == before + Answer(env, turn)
  {
    var payload := env.encode(turn.response);
    if payload.None? { return true; }
    var ok := WriteFrame(writer, payload.value);
    failed := !ok;
  }
}
