/** Length-prefixed frames (manager/protocol_v1.go), over a writer that may take less than it is given. */
module ManagerFrames {
  import opened Bytes
  import opened Wrappers

  const MAXIMUM_FRAME_LENGTH: nat := 1024 * 1024

  type Payload = seq<Byte>

  predicate Sendable(p: Payload) { 0 < |p| <= MAXIMUM_FRAME_LENGTH }

  function Frame(p: Payload): seq<Byte> { Num(|p|) + p }

  function Frames(ps: seq<Payload>): seq<Byte> {
    if ps == [] then [] else Frame(ps[0]) + Frames(ps[1..])
  }

  /** The payload of the first frame and what follows it. None is an end of input, or a length that is not accepted. */
  function ReadFrame(input: seq<Byte>): (r: Option<(Payload, seq<Byte>)>)
    ensures r.Some? ==> |r.value.1| < |input| && Sendable(r.value.0)
  {
    if |input| < 4 then None
    else
      var length := Decode(input[..4]);
      if length == 0 || length > MAXIMUM_FRAME_LENGTH || 4 + length > |input| then None
      else Some((input[4..4 + length], input[4 + length..]))
  }

  function ReadAll(input: seq<Byte>): seq<Payload>
    decreases |input|
  {
    match ReadFrame(input)
    case None => []
    case Some((p, rest)) => [p] + ReadAll(rest)
  }

  /** A frame is four bytes with the length of its payload, least significant first, and the payload: one byte at least,
      and at most a mebibyte. */
  lemma {:induction false} ReadFrameIff(input: seq<Byte>, p: Payload, rest: seq<Byte>)
    ensures ReadFrame(input) == Some((p, rest))
       <==> exists header: seq<Byte> :: IsFrame(header, p) && input == header + p + rest
  {
    hide Decode;
    if ReadFrame(input) == Some((p, rest)) {
      var header := input[..4];
      DecodeFour(header);
      assert input == input[..4] + input[4..4 + |p|] + input[4 + |p|..];
      assert IsFrame(header, p);
    }
    forall header: seq<Byte> | IsFrame(header, p) && input == header + p + rest
      ensures ReadFrame(input) == Some((p, rest))
    {
      DecodeFour(header);
      assert input[..4] == header && input[4..4 + |p|] == p && input[4 + |p|..] == rest;
    }
  }

  ghost predicate IsFrame(header: seq<Byte>, p: Payload) {
    && |header| == 4 && 1 <= |p| <= 1024 * 1024
    && |p| == header[0] as int + 0x100 * header[1] as int + 0x1_0000 * header[2] as int + 0x100_0000 * header[3] as int
  }

  lemma {:induction false} ReadWritten(p: Payload, rest: seq<Byte>)
    requires Sendable(p)
    ensures ReadFrame(Frame(p) + rest) == Some((p, rest))
  {
    hide Num, Decode;
    NumBack(|p|);
    var input := Frame(p) + rest;
    assert input[..4] == Num(|p|);
    assert input[4..4 + |p|] == p;
    assert input[4 + |p|..] == rest;
  }

  /** Frames that were written one after the other are read back as the same payloads, whatever comes after them. */
  lemma {:induction false} FramesRoundTrip(ps: seq<Payload>, rest: seq<Byte>)
    requires forall i | 0 <= i < |ps| :: Sendable(ps[i])
    ensures ReadAll(Frames(ps) + rest) == ps + ReadAll(rest)
  {
    hide Frame, ReadFrame, Sendable;
    if ps == [] {
      assert Frames(ps) + rest == rest;
      assert ps + ReadAll(rest) == ReadAll(rest);
    } else {
      assert Frames(ps) + rest == Frame(ps[0]) + (Frames(ps[1..]) + rest);
      ReadWritten(ps[0], Frames(ps[1..]) + rest);
      ReadAllSome(Frames(ps) + rest, ps[0], Frames(ps[1..]) + rest);
      FramesRoundTrip(ps[1..], rest);
      assert [ps[0]] + (ps[1..] + ReadAll(rest)) == ps + ReadAll(rest);
    }
  }

  lemma {:induction false} ReadAllSome(input: seq<Byte>, p: Payload, rest: seq<Byte>)
    requires ReadFrame(input) == Some((p, rest))
    ensures ReadAll(input) == [p] + ReadAll(rest)
  {
    hide ReadFrame;
  }

  lemma {:induction false} FramesEnd(ps: seq<Payload>, p: Payload)
    ensures Frames(ps + [p]) == Frames(ps) + Frame(p)
  {
    hide Frame;
    if ps == [] {
      assert ps + [p] == [p] && [p][1..] == [];
    } else {
      FramesEnd(ps[1..], p);
      assert (ps + [p])[1..] == ps[1..] + [p];
    }
  }

  // ---------------------------------------------------------------- writing

  /** What one call of Write does: how many bytes it took, and whether it reported an error. */
  datatype Outcome = Outcome(written: nat, failed: bool)

  /** A writer whose k-th call, given n bytes, behaves as `plan` says. */
  class Writer {
    const plan: (nat, nat) -> Outcome
    var calls: nat
    var out: seq<Byte>

    ghost predicate Valid() {
      forall k, n :: plan(k, n).written <= n
    }

    constructor (plan: (nat, nat) -> Outcome)
      requires forall k, n :: plan(k, n).written <= n
      ensures Valid() && out == [] && this.plan == plan
    {
      this.plan := plan;
      calls := 0;
      out := [];
    }

    method Write(data: seq<Byte>) returns (written: nat, failed: bool)
      requires Valid()
      modifies this
      ensures written <= |data| && out == old(out) + data[..written]
      ensures calls == old(calls) + 1 && Outcome(written, failed) == plan(old(calls), |data|)
    {
      var o := plan(calls, |data|);
      written, failed := o.written, o.failed;
      calls := calls + 1;
      out := out + data[..written];
    }
  }

  /** All of the data, however little each call takes, or part of it and an error. */
  method WriteBytes(writer: Writer, data: seq<Byte>) returns (ok: bool)
    requires writer.Valid()
    modifies writer
    ensures ok ==> writer.out == old(writer.out) + data
    ensures exists n :: 0 <= n <= |data| && writer.out == old(writer.out) + data[..n]
    ensures (forall k, n :: n > 0 ==> writer.plan(k, n).written > 0 && !writer.plan(k, n).failed) ==> ok
  {
    var rest := data;
    assert old(writer.out) == old(writer.out) + data[..0];
    while |rest| != 0
      invariant |rest| <= |data| && rest == data[|data| - |rest|..]
      invariant writer.out == old(writer.out) + data[..|data| - |rest|]
    {
      ghost var done := |data| - |rest|;
      var written, failed := writer.Write(rest);
      assert data[..done] + rest[..written] == data[..done + written];
      assert writer.out == old(writer.out) + data[..done + written];
      if failed { return false; }
      if written == 0 { return false; }
      rest := rest[written..];
    }
    assert data[..|data|] == data;
    return true;
  }

  /** One frame, or a prefix of it and an error. Nothing is written of a payload that cannot be framed. */
  method WriteFrame(writer: Writer, payload: Payload) returns (ok: bool)
    requires writer.Valid()
    modifies writer
    ensures ok ==> Sendable(payload) && writer.out == old(writer.out) + Frame(payload)
    ensures !Sendable(payload) ==> writer.out == old(writer.out)
    ensures exists n :: 0 <= n <= |Frame(payload)| && writer.out == old(writer.out) + Frame(payload)[..n]
    ensures Sendable(payload) && (forall k, n :: n > 0 ==> writer.plan(k, n).written > 0 && !writer.plan(k, n).failed)
            ==> ok
  {
    hide Num;
    var f := Frame(payload);
    if |payload| == 0 || |payload| > MAXIMUM_FRAME_LENGTH {
      assert writer.out == old(writer.out) + f[..0];
      return false;
    }
    ok := WriteBytes(writer, Num(|payload|));
    ghost var middle := writer.out;
    if !ok {
      ghost var n :| 0 <= n <= 4 && writer.out == old(writer.out) + Num(|payload|)[..n];
      assert Num(|payload|)[..n] == f[..n];
      return false;
    }
    ok := WriteBytes(writer, payload);
    ghost var n :| 0 <= n <= |payload| && writer.out == middle + payload[..n];
    assert old(writer.out) + Num(|payload|) + payload[..n] == old(writer.out) + f[..4 + n];
    assert ok ==> old(writer.out) + Num(|payload|) + payload == old(writer.out) + f;
  }
}
