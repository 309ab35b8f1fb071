/** The buffer in front of the ring that gathers runtime output into lines (ringlogger/global.go). */
module GlobalWrite {
  import opened Bytes
  import opened RingLogger

  const BUFFER_SIZE: nat := MAX_LOG_LINE_LENGTH - 1 - MAX_TAG_LENGTH - 3
  const NEWLINE: Byte := 10

  function Flat(chunks: seq<Text>): Text {
    if chunks == [] then [] else chunks[0] + Flat(chunks[1..])
  }

  /** What the ring makes of chunks written one after the other, the k-th of them at now(k). */
  function Logged(chunks: seq<Text>, trim: Text -> Text, now: nat -> int): seq<Entry> {
    if chunks == [] then []
    else
      var n := |chunks| - 1;
      var text := trim(chunks[n]);
      Logged(chunks[..n], trim, now) + if text == [] then [] else [Entry(now(n), text)]
  }

  /** A chunk is handed on when it holds a newline or when it fills the buffer. */
  predicate ChunkOk(c: Text) {
    0 < |c| <= BUFFER_SIZE && (NEWLINE in c || |c| == BUFFER_SIZE)
  }

  lemma {:induction false} FlatEnd(chunks: seq<Text>, c: Text)
    ensures Flat(chunks + [c]) == Flat(chunks) + c
  {
    if chunks == [] {
      assert [c][1..] == [];
    } else {
      FlatEnd(chunks[1..], c);
      assert (chunks + [c])[1..] == chunks[1..] + [c];
    }
  }

  /** WriteWithTimestamp keeps a text whole exactly when tag and text leave room for the brackets, the space and a NUL. */
  lemma FitsIff(tag: Text, p: Text)
    requires |tag| <= MAX_TAG_LENGTH
    ensures Fitting(tag, p) == p <==> |tag| + |p| + 4 <= 512
  {
    assert |tag| + |p| + 4 > MAX_LOG_LINE_LENGTH ==> |Fitting(tag, p)| < |p|;
  }

  /** No chunk is long enough to be cut, whatever the tag. */
  lemma {:induction false} ChunksFit(tag: Text, c: Text, trim: Text -> Text)
    requires |tag| <= MAX_TAG_LENGTH && ChunkOk(c) && |trim(c)| <= |c|
    ensures Shown(tag, trim(c)) == ['[' as int] + tag + [']' as int, ' ' as int] + trim(c)
  {
    FitsIff(tag, trim(c));
  }

  lemma {:induction false} LoggedEnd(chunks: seq<Text>, c: Text, trim: Text -> Text, now: nat -> int)
    ensures Logged(chunks + [c], trim, now)
         == Logged(chunks, trim, now) + if trim(c) == [] then [] else [Entry(now(|chunks|), trim(c))]
  {
    assert (chunks + [c])[..|chunks|] == chunks;
  }

  lemma IsChunk(c: Text)
    requires 0 < |c| <= BUFFER_SIZE && (NEWLINE in c || |c| == BUFFER_SIZE)
    ensures ChunkOk(c)
  {
  }

  lemma {:induction false} Regroup(a: Text, b: Text, c: Text)
    ensures a + (b + c) == a + b + c
  {
  }

  class GlobalWriter {
    const logger: Ringlogger
    const now: nat -> int
    const globalBuffer: array<Byte>
    var globalBufferLocation: nat
    /** How often the clock was read. */
    var ticks: nat
    /** The chunks handed to the ring, and all the bytes ever taken. */
    ghost var chunks: seq<Text>
    ghost var input: Text

    ghost predicate Separate() {
      && globalBuffer.Length == BUFFER_SIZE
      && (logger as object) != this
      && (globalBuffer as object) != (logger.lines as object)
    }

    /** What holds at every turn: nothing is lost, nothing is reordered, and the ring has every chunk. */
    ghost predicate Running(taken: Text)
      reads this, globalBuffer, logger, logger.lines
    {
      && Separate()
      && globalBufferLocation <= BUFFER_SIZE
      && Flat(chunks) + globalBuffer[..globalBufferLocation] == taken
      && NEWLINE !in globalBuffer[..globalBufferLocation]
      && (forall i | 0 <= i < |chunks| :: ChunkOk(chunks[i]))
      && logger.Valid() && !logger.readOnly
      && logger.history == Logged(chunks, logger.trim, now)
      && ticks == |chunks|
    }

    ghost predicate Valid()
      reads this, globalBuffer, logger, logger.lines
    {
      Running(input)
    }

    constructor (logger: Ringlogger, now: nat -> int)
      requires logger.Valid() && !logger.readOnly && logger.history == []
      ensures Valid() && chunks == [] && input == [] && this.logger == logger && this.now == now && fresh(globalBuffer)
    {
      this.logger := logger;
      this.now := now;
      globalBuffer := new Byte[BUFFER_SIZE](_ => 0);
      globalBufferLocation := 0;
      ticks := 0;
      chunks := [];
      input := [];
    }

    /** Takes all of p. Chunks handed on earlier stay as they are. */
    method Write(p: Text) returns (n: nat)
      requires Valid()
      modifies this, globalBuffer, logger, logger.lines
      ensures Valid()
      ensures n == |p| && input == old(input) + p
      ensures old(chunks) <= chunks
    {
      hide Flat, Logged, ChunkOk, Holds;
      var b := p;
      ghost var done: Text := [];
      assert input + [] == input;
      while |b| > 0
        invariant done + b == p && Running(input + done)
        invariant input == old(input) && old(chunks) <= chunks
        decreases |b|, globalBufferLocation
      {
        ghost var rest := b;
        b := Turn(b, input + done);
        ghost var part := rest[..|rest| - |b|];
        assert done + part + b == done + rest;
        assert input + done + part == input + (done + part);
        done := done + part;
      }
      assert done == p;
      n := |p|;
      input := input + p;
    }

    /** One turn of the loop: as much as fits is copied, then the buffer is handed on if a newline came in or more is
        to come. A turn that finds the buffer full copies nothing but empties it. */
    method Turn(b: Text, ghost taken: Text) returns (rest: Text)
      requires |b| > 0 && Running(taken)
      modifies this, globalBuffer, logger, logger.lines
      ensures |rest| <= |b| && rest == b[|b| - |rest|..]
      ensures Running(taken + b[..|b| - |rest|])
      ensures |rest| < |b| || globalBufferLocation < old(globalBufferLocation)
      ensures input == old(input) && old(chunks) <= chunks
    {
      hide Flat, Logged, ChunkOk, Holds;
      ghost var before := globalBuffer[..globalBufferLocation];
      var amountAvailable := globalBuffer.Length - globalBufferLocation;
      var amountToCopy := if |b| < amountAvailable then |b| else amountAvailable;
      var part := b[..amountToCopy];
      CopyAt(globalBuffer, globalBufferLocation, part);
      rest := b[amountToCopy..];
      globalBufferLocation := globalBufferLocation + amountToCopy;
      ghost var held := before + part;
      assert globalBuffer[..globalBufferLocation] == held;
      var foundNl := HasNewline(globalBuffer, globalBufferLocation - amountToCopy, globalBufferLocation);
      assert globalBuffer[globalBufferLocation - amountToCopy..globalBufferLocation] == part;
      Regroup(Flat(chunks), before, part);
      if foundNl || |rest| > 0 {
        IsChunk(held);
        Flush();
      }
    }

    /** Global.Write(globalBuffer[:globalBufferLocation]) and the reset after it. */
    method Flush()
      requires Separate() && 0 < globalBufferLocation <= BUFFER_SIZE && ChunkOk(globalBuffer[..globalBufferLocation])
      requires forall i | 0 <= i < |chunks| :: ChunkOk(chunks[i])
      requires logger.Valid() && !logger.readOnly && logger.history == Logged(chunks, logger.trim, now) && ticks == |chunks|
      modifies this, logger, logger.lines
      ensures Running(old(Flat(chunks) + globalBuffer[..globalBufferLocation]))
      ensures input == old(input) && globalBufferLocation == 0
      ensures chunks == old(chunks) + [old(globalBuffer[..globalBufferLocation])]
    {
      hide ChunkOk, Holds, Flat, Logged;
      var c := globalBuffer[..globalBufferLocation];
      var _ := logger.WriteWithTimestamp(c, now(ticks));
      FlatEnd(chunks, c);
      LoggedEnd(chunks, c, logger.trim, now);
      chunks := chunks + [c];
      globalBufferLocation := 0;
      ticks := ticks + 1;
    }
  }

  method HasNewline(a: array<Byte>, from: nat, to: nat) returns (found: bool)
    requires from <= to <= a.Length
    ensures found <==> NEWLINE in a[from..to]
  {
    found := false;
    for i := from to to
      invariant NEWLINE !in a[from..i]
    {
      if a[i] == NEWLINE { return true; }
    }
  }
}
