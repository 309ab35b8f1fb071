/** Walking the base relocation table of a mapped image and patching the image (performBaseRelocation of
    driver/memmod/memmod_windows.go). Addresses are offsets from the start of the image. */
module Relocation {
  import opened Wrappers
  import opened Bytes
  import Pow
  import ThumbMov

  type Memory = seq<Byte>

  const HEADER_SIZE: nat := 8

  /** Addresses and differences of addresses are 64 bits wide. */
  const WORD: nat := 0x1_0000_0000_0000_0000

  datatype RelocationError =
    | InvalidBlockSize
    | BlockExceedsDirectory
    | Thumb(why: ThumbMov.ThumbError)
    | UnsupportedType(kind: nat)

  // ---------------------------------------------------------------- the table

  const ABSOLUTE: nat := 0
  const HIGH: nat := 1
  const LOW: nat := 2
  const HIGHLOW: nat := 3
  const THUMB_MOV32: nat := 7
  const DIR64: nat := 10

  datatype Site = Site(kind: nat, address: nat)

  /** How many bytes a site of the given kind may touch. */
  function Width(kind: nat): nat {
    if kind == HIGH || kind == LOW then 2
    else if kind == HIGHLOW then 4
    else if kind == DIR64 || kind == THUMB_MOV32 then 8
    else 0
  }

  /** What a table tells the loader to do, in order. */
  datatype Plan = Stop | Fail(error: RelocationError) | Then(site: Site, rest: Plan)

  /** The upper four bits of an entry are the type, the lower twelve the offset from the base of its block. */
  function SiteOf(info: nat, base: nat): Site { Site(info / 0x1000, base + info % 0x1000) }

  /** The entries of one block. */
  function BlockPlan(t: Memory, at: nat, count: nat, base: nat, rest: Plan): Plan
    requires at + 2 * count <= |t|
    decreases count
  {
    if count == 0 then rest else Then(SiteOf(Get(t, at, 2), base), BlockPlan(t, at + 2, count - 1, base, rest))
  }

  /** The blocks from `at` up to `end`. */
  function TablePlan(t: Memory, at: nat, end: nat): Plan
    requires end <= |t|
    decreases end - at
  {
    if at + HEADER_SIZE > end || Get(t, at, 4) == 0 then Stop
    else
      var size := Get(t, at + 4, 4);
      if size < HEADER_SIZE then Fail(InvalidBlockSize)
      else if at + size > end then Fail(BlockExceedsDirectory)
      else
        BlockPlan(t, at + HEADER_SIZE, (size - HEADER_SIZE) / 2, Get(t, at, 4), TablePlan(t, at + size, end))
  }

  /** Every site that will be reached lies in the image and outside the bytes from `start` to `end`. */
  predicate Safe(plan: Plan, size: nat, start: nat, end: nat) {
    match plan
    case Then(s, rest) =>
      && s.address + Width(s.kind) <= size
      && (s.address + Width(s.kind) <= start || end <= s.address)
      && Safe(rest, size, start, end)
    case _ => true
  }

  // ---------------------------------------------------------------- patching

  /** Adds to the number of n bytes at an address, carries out of it being lost. */
  function AddAt(m: Memory, a: nat, n: nat, x: nat): (m': Memory)
    requires a + n <= |m|
    ensures |m'| == |m|
  {
    Put(m, a, n, Get(m, a, n) + x)
  }

  /** A 32-bit word as a number, and back. */
  function NumberOf(w: bv32): (n: nat)
    ensures n < 0x1_0000_0000
  {
    w as nat
  }

  function WordOf(n: nat): bv32
    requires n < 0x1_0000_0000
  {
    n as bv32
  }

  lemma NumberWord(w: bv32)
    ensures WordOf(NumberOf(w)) == w
  {
  }

  function Instruction(m: Memory, a: nat): bv32
    requires a + 4 <= |m|
  {
    DecodeBound(m[a..a + 4]);
    Limits();
    WordOf(Get(m, a, 4))
  }

  function PairAt(m: Memory, a: nat, delta: nat): ThumbMov.Patched
    requires a + 8 <= |m|
  {
    ThumbMov.PatchPair(Instruction(m, a), Instruction(m, a + 4), WordOf(delta % 0x1_0000_0000))
  }

  function PutPair(m: Memory, a: nat, p: ThumbMov.Patched): (m': Memory)
    requires a + 8 <= |m|
    ensures |m'| == |m|
  {
    Put(Put(m, a, 4, NumberOf(p.movw)), a + 4, 4, NumberOf(p.movt))
  }

  function Patch(m: Memory, s: Site, delta: nat): (r: (Memory, Option<RelocationError>))
    requires s.address + Width(s.kind) <= |m|
    ensures |r.0| == |m|
  {
    var a := s.address;
    if s.kind == ABSOLUTE then (m, None)
    else if s.kind == LOW then (AddAt(m, a, 2, delta % 0x1_0000), None)
    else if s.kind == HIGH then (AddAt(m, a, 2, delta % 0x1_0000_0000 / 0x1_0000), None)
    else if s.kind == HIGHLOW then (AddAt(m, a, 4, delta % 0x1_0000_0000), None)
    else if s.kind == DIR64 then (AddAt(m, a, 8, delta), None)
    else if s.kind == THUMB_MOV32 then
      var p := PairAt(m, a, delta);
      (PutPair(m, a, p), if p.error.Some? then Some(Thumb(p.error.value)) else None)
    else (m, Some(UnsupportedType(s.kind)))
  }

  /** Carrying out a plan, up to the first error. */
  function Execute(m: Memory, plan: Plan, delta: nat): (r: (Memory, Option<RelocationError>))
    requires Safe(plan, |m|, 0, 0)
    ensures |r.0| == |m|
    decreases plan
  {
    match plan
    case Stop => (m, None)
    case Fail(e) => (m, Some(e))
    case Then(s, rest) =>
      var (m', e) := Patch(m, s, delta);
      if e.Some? then (m', e) else Execute(m', rest, delta)
  }

  /** What relocating an image by delta does, and answers. */
  function Relocate(m: Memory, directory: nat, directorySize: nat, delta: nat)
    : (r: (Memory, Result<bool, RelocationError>))
    requires directory + directorySize <= |m|
    requires Safe(TablePlan(m, directory, directory + directorySize), |m|, directory, directory + directorySize)
    ensures |r.0| == |m|
  {
    if directorySize == 0 then (m, Ok(delta == 0))
    else
      var plan := TablePlan(m, directory, directory + directorySize);
      SafeAnywhere(plan, |m|, directory, directory + directorySize);
      var (m', e) := Execute(m, plan, delta);
      (m', if e.Some? then Err(e.value) else Ok(true))
  }

  lemma {:induction false} SafeAnywhere(plan: Plan, size: nat, start: nat, end: nat)
    requires Safe(plan, size, start, end)
    ensures Safe(plan, size, 0, 0)
    decreases plan
  {
    if plan.Then? {
      SafeAnywhere(plan.rest, size, start, end);
    }
  }

  // ---------------------------------------------------------------- the code

  /** Stores the n low bytes of a number. */
  method Store(image: array<Byte>, a: nat, n: nat, v: nat)
    requires a + n <= image.Length
    modifies image
    ensures image[..] == Put(old(image[..]), a, n, v)
  {
    ghost var before := image[..];
    var left := v;
    for k := 0 to n
      invariant image[..a] == before[..a] && image[a + k..] == before[a + k..]
      invariant image[a..a + k] + Encode(n - k, left) == Encode(n, v)
    {
      image[a + k] := left % 256;
      left := left / 256;
      assert image[a..a + k + 1] == image[a..a + k] + [image[a + k]];
    }
    assert image[..] == image[..a] + image[a..a + n] + image[a + n..];
  }

  method PatchImage(image: array<Byte>, kind: nat, a: nat, delta: nat) returns (error: Option<RelocationError>)
    requires a + Width(kind) <= image.Length
    modifies image
    ensures (image[..], error) == Patch(old(image[..]), Site(kind, a), delta)
  {
    hide Get, Put, PairAt;
    if kind == ABSOLUTE {
    } else if kind == LOW {
      Store(image, a, 2, Get(image[..], a, 2) + delta % 0x1_0000);
    } else if kind == HIGH {
      Store(image, a, 2, Get(image[..], a, 2) + delta % 0x1_0000_0000 / 0x1_0000);
    } else if kind == HIGHLOW {
      Store(image, a, 4, Get(image[..], a, 4) + delta % 0x1_0000_0000);
    } else if kind == DIR64 {
      Store(image, a, 8, Get(image[..], a, 8) + delta);
    } else if kind == THUMB_MOV32 {
      var p := PairAt(image[..], a, delta);
      Store(image, a, 4, NumberOf(p.movw));
      Store(image, a + 4, 4, NumberOf(p.movt));
      if p.error.Some? {
        return Some(Thumb(p.error.value));
      }
    } else {
      return Some(UnsupportedType(kind));
    }
    return None;
  }

  lemma {:induction false} PatchFrame(m: Memory, s: Site, delta: nat, i: nat)
    requires s.address + Width(s.kind) <= |m| && i < |m|
    requires i < s.address || s.address + Width(s.kind) <= i
    ensures Patch(m, s, delta).0[i] == m[i]
  {
    hide Get, Put, PairAt;
    var a := s.address;
    forall p: Memory, at: nat, n: nat, v: nat | |p| == |m| && at + n <= |p| && !(at <= i < at + n)
      ensures Put(p, at, n, v)[i] == p[i]
    {
      GetPut(p, at, n, v);
    }
  }

  /** What is left to do in the middle of a run: the table from `start` to `end` is still as in `t`, and carrying out
      `plan` on the present memory ends as carrying out `full` on the original one. */
  ghost predicate Pending(m: Memory, t: Memory, start: nat, end: nat, full: Plan, plan: Plan, delta: nat) {
    && |m| == |t|
    && (forall i | start <= i < end && i < |m| :: m[i] == t[i])
    && Safe(plan, |m|, start, end) && Safe(plan, |m|, 0, 0) && Safe(full, |t|, 0, 0)
    && Execute(t, full, delta) == Execute(m, plan, delta)
  }

  lemma {:induction false} PendingStep(m: Memory, t: Memory, start: nat, end: nat, full: Plan, s: Site, rest: Plan,
                                       delta: nat)
    requires Pending(m, t, start, end, full, Then(s, rest), delta)
    ensures s.address + Width(s.kind) <= |m|
    ensures var (m', e) := Patch(m, s, delta);
            if e.Some? then Execute(t, full, delta) == (m', e) else Pending(m', t, start, end, full, rest, delta)
  {
    hide Patch;
    assert s.address + Width(s.kind) <= |m|;
    var m' := Patch(m, s, delta).0;
    forall i | start <= i < end && i < |m|
      ensures m'[i] == m[i]
    {
      PatchFrame(m, s, delta, i);
    }
  }

  lemma {:induction false} PendingEnds(m: Memory, t: Memory, start: nat, end: nat, full: Plan, plan: Plan, delta: nat)
    requires Pending(m, t, start, end, full, plan, delta)
    ensures plan == Stop ==> Execute(t, full, delta) == (m, None)
    ensures plan.Fail? ==> Execute(t, full, delta) == (m, Some(plan.error))
  {
  }

  lemma {:induction false} PendingTable(m: Memory, t: Memory, start: nat, end: nat, full: Plan, plan: Plan, delta: nat)
    requires Pending(m, t, start, end, full, plan, delta) && end <= |t|
    ensures |m| == |t|
    ensures forall at: nat, n: nat | start <= at && at + n <= end :: Get(m, at, n) == Get(t, at, n)
  {
    forall at: nat, n: nat | start <= at && at + n <= end
      ensures Get(m, at, n) == Get(t, at, n)
    {
      SameNumber(m, t, at, n);
    }
  }

  lemma {:induction false} PendingSafe(m: Memory, t: Memory, start: nat, end: nat, full: Plan, plan: Plan, delta: nat)
    requires Pending(m, t, start, end, full, plan, delta)
    ensures Safe(full, |t|, 0, 0)
  {
  }

  /** Patches the sites of one block. */
  method PatchBlock(image: array<Byte>, at: nat, count: nat, base: nat, delta: nat,
                    ghost t: Memory, ghost start: nat, ghost end: nat, ghost full: Plan, ghost rest: Plan)
    returns (error: Option<RelocationError>)
    requires start <= at && at + 2 * count <= end <= |t|
    requires Pending(image[..], t, start, end, full, BlockPlan(t, at, count, base, rest), delta)
    modifies image
    ensures error == None ==> Pending(image[..], t, start, end, full, rest, delta)
    ensures error != None ==> Safe(full, |t|, 0, 0) && Execute(t, full, delta) == (image[..], error)
  {
    hide Pending, Patch, BlockPlan, Get, SiteOf, Safe, Execute;
    PendingSafe(image[..], t, start, end, full, BlockPlan(t, at, count, base, rest), delta);
    for n := 0 to count
      invariant Pending(image[..], t, start, end, full, BlockPlan(t, at + 2 * n, count - n, base, rest), delta)
    {
      BlockStep(t, at + 2 * n, count - n, base, rest);
      PendingTable(image[..], t, start, end, full, BlockPlan(t, at + 2 * n, count - n, base, rest), delta);
      var site := SiteOf(Get(image[..], at + 2 * n, 2), base);
      PendingStep(image[..], t, start, end, full, site, BlockPlan(t, at + 2 * n + 2, count - n - 1, base, rest), delta);
      error := PatchImage(image, site.kind, site.address, delta);
      if error.Some? {
        return;
      }
    }
    BlockEnd(t, at + 2 * count, base, rest);
    return None;
  }

  /** Relocates the image by delta; true means that it is now relocated. */
  method PerformBaseRelocation(image: array<Byte>, directory: nat, directorySize: nat, delta: nat)
    returns (r: Result<bool, RelocationError>)
    requires directory + directorySize <= image.Length
    requires Safe(TablePlan(image[..], directory, directory + directorySize), image.Length,
                  directory, directory + directorySize)
    modifies image
    ensures (image[..], r) == Relocate(old(image[..]), directory, directorySize, delta)
  {
    hide Pending, TablePlan, BlockPlan, Get, Safe, Execute, Relocate;
    RelocateIs(image[..], directory, directorySize, delta);
    ghost var t := image[..];
    var end := directory + directorySize;
    ghost var plan := TablePlan(t, directory, end);
    PendingStarts(t, directory, end, plan, delta);
    if directorySize == 0 {
      return Ok(delta == 0);
    }
    var header := directory;
    while header + HEADER_SIZE <= end && Get(image[..], header, 4) != 0
      invariant directory <= header <= end
      invariant Pending(image[..], t, directory, end, plan, TablePlan(t, header, end), delta)
      decreases end - header
    {
      PendingTable(image[..], t, directory, end, plan, TablePlan(t, header, end), delta);
      PendingEnds(image[..], t, directory, end, plan, TablePlan(t, header, end), delta);
      TableStep(t, header, end);
      var size := Get(image[..], header + 4, 4);
      if size < HEADER_SIZE {
        return Err(InvalidBlockSize);
      }
      if header + size > end {
        return Err(BlockExceedsDirectory);
      }
      var error := PatchBlock(image, header + HEADER_SIZE, (size - HEADER_SIZE) / 2, Get(image[..], header, 4),
                              delta, t, directory, end, plan, TablePlan(t, header + size, end));
      if error.Some? {
        return Err(error.value);
      }
      header := header + size;
    }
    PendingTable(image[..], t, directory, end, plan, TablePlan(t, header, end), delta);
    PendingEnds(image[..], t, directory, end, plan, TablePlan(t, header, end), delta);
    TableStep(t, header, end);
    return Ok(true);
  }

  lemma {:induction false} RelocateIs(m: Memory, directory: nat, directorySize: nat, delta: nat)
    requires directory + directorySize <= |m|
    requires Safe(TablePlan(m, directory, directory + directorySize), |m|, directory, directory + directorySize)
    ensures directorySize == 0 ==> Relocate(m, directory, directorySize, delta) == (m, Ok(delta == 0))
    ensures Safe(TablePlan(m, directory, directory + directorySize), |m|, 0, 0)
    ensures directorySize > 0 ==>
              var (m', e) := Execute(m, TablePlan(m, directory, directory + directorySize), delta);
              Relocate(m, directory, directorySize, delta) == (m', if e.Some? then Err(e.value) else Ok(true))
  {
    hide TablePlan, Execute;
    SafeAnywhere(TablePlan(m, directory, directory + directorySize), |m|, directory, directory + directorySize);
  }

  lemma {:induction false} PendingStarts(t: Memory, start: nat, end: nat, plan: Plan, delta: nat)
    requires Safe(plan, |t|, start, end) && Safe(plan, |t|, 0, 0)
    ensures Pending(t, t, start, end, plan, plan, delta)
  {
  }

  lemma {:induction false} TableStep(t: Memory, at: nat, end: nat)
    requires end <= |t|
    ensures TablePlan(t, at, end)
         == if at + HEADER_SIZE > end || Get(t, at, 4) == 0 then Stop
            else
              var size := Get(t, at + 4, 4);
              if size < HEADER_SIZE then Fail(InvalidBlockSize)
              else if at + size > end then Fail(BlockExceedsDirectory)
              else BlockPlan(t, at + HEADER_SIZE, (size - HEADER_SIZE) / 2, Get(t, at, 4),
                             TablePlan(t, at + size, end))
  {
    hide Get, BlockPlan;
  }

  lemma {:induction false} BlockStep(t: Memory, at: nat, count: nat, base: nat, rest: Plan)
    requires count > 0 && at + 2 * count <= |t|
    ensures BlockPlan(t, at, count, base, rest)
         == Then(SiteOf(Get(t, at, 2), base), BlockPlan(t, at + 2, count - 1, base, rest))
  {
  }

  lemma {:induction false} BlockEnd(t: Memory, at: nat, base: nat, rest: Plan)
    requires at <= |t|
    ensures BlockPlan(t, at, 0, base, rest) == rest
  {
  }

  // ---------------------------------------------------------------- what relocation does to memory

  /** Only whole words are relocated, and the table is well formed. */
  predicate Plain(plan: Plan) {
    match plan
    case Stop => true
    case Fail(_) => false
    case Then(s, rest) => IsPlain(s.kind) && Plain(rest)
  }

  predicate IsPlain(kind: nat) { kind == ABSOLUTE || kind == LOW || kind == HIGHLOW || kind == DIR64 }

  /** Only words and halves of words are relocated. A high half on its own loses the carries of its low half. */
  predicate Worded(plan: Plan) {
    match plan
    case Stop => true
    case Fail(_) => false
    case Then(s, rest) => IsWord(s.kind) && Worded(rest)
  }

  predicate IsWord(kind: nat) { IsPlain(kind) || kind == HIGH }

  predicate Covers(s: Site, i: int) { s.address <= i < s.address + Width(s.kind) }

  predicate Covered(plan: Plan, i: int) {
    plan.Then? && (Covers(plan.site, i) || Covered(plan.rest, i))
  }

  predicate Apart(s: Site, plan: Plan) {
    plan.Then? ==>
      && (Width(s.kind) == 0 || Width(plan.site.kind) == 0
          || s.address + Width(s.kind) <= plan.site.address
          || plan.site.address + Width(plan.site.kind) <= s.address)
      && Apart(s, plan.rest)
  }

  /** No two sites share a byte. */
  predicate Disjoint(plan: Plan) { plan.Then? ==> Apart(plan.site, plan.rest) && Disjoint(plan.rest) }

  /** Addition in the width of a site; to a high half, its share of delta is added. */
  function Sum(kind: nat, x: nat, delta: nat): nat {
    (x + if kind == HIGH then delta / 0x1_0000 else delta) % Limit(Width(kind))
  }

  /** The number at a site has grown by delta, modulo its width. */
  predicate MovedSite(s: Site, m: Memory, m': Memory, delta: nat)
    requires |m'| == |m| && s.address + Width(s.kind) <= |m|
  {
    var n := Width(s.kind);
    Get(m', s.address, n) == Sum(s.kind, Get(m, s.address, n), delta)
  }

  predicate Moved(plan: Plan, m: Memory, m': Memory, delta: nat)
    requires |m'| == |m| && Safe(plan, |m|, 0, 0)
  {
    plan.Then? ==> MovedSite(plan.site, m, m', delta) && Moved(plan.rest, m, m', delta)
  }

  lemma {:induction false} ApartNotCovered(s: Site, plan: Plan, i: int)
    requires Apart(s, plan) && Covers(s, i)
    ensures !Covered(plan, i)
    decreases plan
  {
    if plan.Then? {
      ApartNotCovered(s, plan.rest, i);
    }
  }

  /** What is added to the number at a site. */
  function Share(kind: nat, delta: nat): nat {
    if kind == LOW then delta % 0x1_0000
    else if kind == HIGH then delta % 0x1_0000_0000 / 0x1_0000
    else if kind == HIGHLOW then delta % 0x1_0000_0000
    else delta
  }

  lemma ShareIs(kind: nat, x: nat, delta: nat)
    requires IsWord(kind)
    ensures (x + Share(kind, delta)) % Limit(Width(kind)) == Sum(kind, x, delta)
  {
    hide Limit;
    Limits();
    if kind == LOW || kind == HIGHLOW {
      Pow.ModAdd(delta, x, Limit(Width(kind)));
    } else if kind == HIGH {
      HighShare(delta);
      Pow.ModAdd(delta / 0x1_0000, x, 0x1_0000);
    }
  }

  lemma HighShare(delta: nat)
    ensures delta % 0x1_0000_0000 / 0x1_0000 == delta / 0x1_0000 % 0x1_0000
  {
  }

  lemma {:induction false} PatchMoves(m: Memory, s: Site, delta: nat)
    requires s.address + Width(s.kind) <= |m| && IsWord(s.kind)
    ensures Patch(m, s, delta).1 == None && MovedSite(s, m, Patch(m, s, delta).0, delta)
  {
    hide Get, Put, Limit, Sum;
    var n := Width(s.kind);
    var x := Get(m, s.address, n);
    ShareIs(s.kind, x, delta);
    if s.kind == ABSOLUTE {
      EmptyNumber(m, s.address);
      EmptySum(x, delta);
    } else {
      GetPut(m, s.address, n, x + Share(s.kind, delta));
    }
  }

  lemma EmptySum(x: nat, delta: nat)
    ensures Sum(ABSOLUTE, x, delta) == 0
  {
  }

  lemma EmptyNumber(m: Memory, a: nat)
    requires a <= |m|
    ensures Get(m, a, 0) == 0 && Limit(0) == 1
  {
  }

  lemma {:induction false} MovedFrom(plan: Plan, s: Site, m: Memory, m1: Memory, m': Memory, delta: nat)
    requires |m| == |m1| == |m'| && Safe(plan, |m|, 0, 0) && Apart(s, plan)
    requires forall i | 0 <= i < |m| && !Covers(s, i) :: m1[i] == m[i]
    requires Moved(plan, m1, m', delta)
    ensures Moved(plan, m, m', delta)
    decreases plan
  {
    hide Get, Limit;
    if plan.Then? {
      var r := plan.site;
      SameNumber(m1, m, r.address, Width(r.kind));
      MovedFrom(plan.rest, s, m, m1, m', delta);
    }
  }

  /** Relocation of words, and of halves of words, at disjoint sites succeeds, adds delta to each of the words, and changes no other byte. */
  lemma {:induction false} WordsMoved(m: Memory, plan: Plan, delta: nat)
    requires Safe(plan, |m|, 0, 0) && Worded(plan) && Disjoint(plan)
    ensures var (m', e) := Execute(m, plan, delta);
            && e == None && Moved(plan, m, m', delta)
            && forall i | 0 <= i < |m| && !Covered(plan, i) :: m'[i] == m[i]
    decreases plan
  {
    hide Get, Limit, Patch;
    if plan.Then? {
      var s, rest := plan.site, plan.rest;
      var m1 := Patch(m, s, delta).0;
      PatchMoves(m, s, delta);
      WordsMoved(m1, rest, delta);
      var m' := Execute(m1, rest, delta).0;
      forall i | 0 <= i < |m| && !Covers(s, i)
        ensures m1[i] == m[i]
      {
        PatchFrame(m, s, delta, i);
      }
      MovedFrom(rest, s, m, m1, m', delta);
      forall i | s.address <= i < s.address + Width(s.kind)
        ensures m'[i] == m1[i]
      {
        ApartNotCovered(s, rest, i);
      }
      SameNumber(m', m1, s.address, Width(s.kind));
    }
  }

  lemma WidthDividesWord(kind: nat) returns (k: nat)
    requires IsPlain(kind)
    ensures k > 0 && Limit(Width(kind)) * k == WORD
  {
    hide Limit;
    Limits();
    LimitOfNothing();
    k := if kind == ABSOLUTE then WORD else if kind == LOW then 0x1_0000_0000_0000
         else if kind == HIGHLOW then 0x1_0000_0000 else 1;
  }

  lemma LimitOfNothing()
    ensures Limit(0) == 1
  {
  }

  /** Adding twice modulo a width is adding the sum, even if that is first cut to 64 bits. */
  lemma AddTwice(kind: nat, x: nat, d1: nat, d2: nat)
    requires IsPlain(kind)
    ensures Sum(kind, Sum(kind, x, d1), d2) == Sum(kind, x, (d1 + d2) % WORD)
  {
    hide Limit, Width;
    var k := WidthDividesWord(kind);
    Pow.ModAdd(x + d1, d2, Limit(Width(kind)));
    Pow.ModOfMultiple(x, d1 + d2, Limit(Width(kind)), k);
  }

  /** High halves on their own: a carry out of the low halves is lost. */
  lemma HighTwiceIff(x: nat, d1: nat, d2: nat)
    ensures Sum(HIGH, Sum(HIGH, x, d1), d2) == Sum(HIGH, x, (d1 + d2) % WORD)
       <==> d1 % 0x1_0000 + d2 % 0x1_0000 < 0x1_0000
  {
    hide Limit;
    Limits();
    var a, b := d1 / 0x1_0000, d2 / 0x1_0000;
    var c := (d1 % 0x1_0000 + d2 % 0x1_0000) / 0x1_0000;
    Pow.ModAdd(x + a, b, 0x1_0000);
    HighOf(d1 + d2);
    Pow.ModOfMultiple(x, a + b + c, 0x1_0000, 0x1_0000_0000);
    assert 0x1_0000 * 0x1_0000_0000 == 0x1_0000_0000_0000;
    assert (d1 + d2) / 0x1_0000 == a + b + c;
    assert c == 0 || c == 1;
    assert (x + a + b + 1) % 0x1_0000 != (x + a + b) % 0x1_0000;
  }

  lemma HighOf(d: nat)
    ensures d % WORD / 0x1_0000 == d / 0x1_0000 % 0x1_0000_0000_0000
  {
  }

  lemma {:induction false} SiteTwice(s: Site, m: Memory, m1: Memory, m2: Memory, m3: Memory, d1: nat, d2: nat)
    requires |m| == |m1| == |m2| == |m3| && s.address + Width(s.kind) <= |m|
    requires IsPlain(s.kind)
    requires MovedSite(s, m, m1, d1) && MovedSite(s, m1, m2, d2) && MovedSite(s, m, m3, (d1 + d2) % WORD)
    ensures forall i | Covers(s, i) :: m2[i] == m3[i]
  {
    hide Get, Limit, Width, MovedSite;
    NumbersAgree(s, m, m1, m2, m3, d1, d2);
    SameBytes(m2, m3, s.address, Width(s.kind));
  }

  lemma {:induction false} NumbersAgree(s: Site, m: Memory, m1: Memory, m2: Memory, m3: Memory, d1: nat, d2: nat)
    requires |m| == |m1| == |m2| == |m3| && s.address + Width(s.kind) <= |m|
    requires IsPlain(s.kind)
    requires MovedSite(s, m, m1, d1) && MovedSite(s, m1, m2, d2) && MovedSite(s, m, m3, (d1 + d2) % WORD)
    ensures Get(m2, s.address, Width(s.kind)) == Get(m3, s.address, Width(s.kind))
  {
    hide Get, Width, Sum;
    AddTwice(s.kind, Get(m, s.address, Width(s.kind)), d1, d2);
  }

  lemma {:induction false} SameWhereCovered(plan: Plan, m: Memory, m1: Memory, m2: Memory, m3: Memory, d1: nat, d2: nat)
    requires |m| == |m1| == |m2| == |m3| && Safe(plan, |m|, 0, 0) && Plain(plan)
    requires Moved(plan, m, m1, d1) && Moved(plan, m1, m2, d2) && Moved(plan, m, m3, (d1 + d2) % WORD)
    ensures forall i | 0 <= i < |m| && Covered(plan, i) :: m2[i] == m3[i]
    decreases plan
  {
    hide MovedSite, Covers;
    if plan.Then? {
      SiteTwice(plan.site, m, m1, m2, m3, d1, d2);
      SameWhereCovered(plan.rest, m, m1, m2, m3, d1, d2);
    }
  }

  lemma {:induction false} PlainIsWorded(plan: Plan)
    requires Plain(plan)
    ensures Worded(plan)
    decreases plan
  {
    if plan.Then? {
      PlainIsWorded(plan.rest);
    }
  }

  /** Relocating by d1 and then by d2 is relocating by d1 + d2. */
  lemma {:induction false} ExecuteTwice(m: Memory, plan: Plan, d1: nat, d2: nat)
    requires Safe(plan, |m|, 0, 0) && Plain(plan) && Disjoint(plan)
    ensures Execute(Execute(m, plan, d1).0, plan, d2) == Execute(m, plan, (d1 + d2) % WORD)
  {
    hide Moved, Covered, Plain, Worded, Disjoint, Safe, Execute;
    PlainIsWorded(plan);
    var m1 := Execute(m, plan, d1).0;
    var m2 := Execute(m1, plan, d2).0;
    var m3 := Execute(m, plan, (d1 + d2) % WORD).0;
    WordsMoved(m, plan, d1);
    WordsMoved(m1, plan, d2);
    WordsMoved(m, plan, (d1 + d2) % WORD);
    SameWhereCovered(plan, m, m1, m2, m3, d1, d2);
    assert m2 == m3;
  }

  lemma {:induction false} UncoveredTable(plan: Plan, size: nat, start: nat, end: nat, i: int)
    requires Safe(plan, size, start, end) && start <= i < end
    ensures !Covered(plan, i)
    decreases plan
  {
    if plan.Then? {
      UncoveredTable(plan.rest, size, start, end, i);
    }
  }

  lemma {:induction false} SameBlock(m: Memory, t: Memory, at: nat, count: nat, base: nat, rest: Plan)
    requires at + 2 * count <= |t| == |m| && forall i | at <= i < at + 2 * count :: m[i] == t[i]
    ensures BlockPlan(m, at, count, base, rest) == BlockPlan(t, at, count, base, rest)
    decreases count
  {
    hide SiteOf, Get;
    if count > 0 {
      SameNumber(m, t, at, 2);
      SameBlock(m, t, at + 2, count - 1, base, rest);
    }
  }

  lemma {:induction false} SamePlan(m: Memory, t: Memory, at: nat, end: nat)
    requires at <= end <= |t| == |m| && forall i | at <= i < end :: m[i] == t[i]
    ensures TablePlan(m, at, end) == TablePlan(t, at, end)
    decreases end - at
  {
    hide BlockPlan, TablePlan, Get;
    TableStep(m, at, end);
    TableStep(t, at, end);
    if at + HEADER_SIZE <= end {
      SameNumber(m, t, at, 4);
      SameNumber(m, t, at + 4, 4);
      var size := Get(t, at + 4, 4);
      if HEADER_SIZE <= size && at + size <= end {
        SamePlan(m, t, at + size, end);
        SameBlock(m, t, at + HEADER_SIZE, (size - HEADER_SIZE) / 2, Get(t, at, 4), TablePlan(t, at + size, end));
      }
    }
  }

  /** The same, for whole calls: the first run leaves the table alone, so the second one reads the same sites. */
  lemma {:induction false} RelocateTwice(m: Memory, directory: nat, directorySize: nat, d1: nat, d2: nat)
    requires directory + directorySize <= |m| && directorySize > 0
    requires var plan := TablePlan(m, directory, directory + directorySize);
             Safe(plan, |m|, directory, directory + directorySize) && Plain(plan) && Disjoint(plan)
    ensures var (m1, r1) := Relocate(m, directory, directorySize, d1);
            && r1 == Ok(true)
            && Safe(TablePlan(m1, directory, directory + directorySize), |m1|, directory, directory + directorySize)
            && Relocate(m1, directory, directorySize, d2) == Relocate(m, directory, directorySize, (d1 + d2) % WORD)
  {
    hide TablePlan, Plain, Worded, Disjoint, Safe, Execute, Moved, Covered;
    var end := directory + directorySize;
    var plan := TablePlan(m, directory, end);
    SafeAnywhere(plan, |m|, directory, end);
    PlainIsWorded(plan);
    WordsMoved(m, plan, d1);
    var m1 := Execute(m, plan, d1).0;
    forall i | directory <= i < end
      ensures m1[i] == m[i]
    {
      UncoveredTable(plan, |m|, directory, end, i);
    }
    SamePlan(m1, m, directory, end);
    ExecuteTwice(m, plan, d1, d2);
  }

  /** A relocated MOVW/MOVT pair, as it stands in memory: the old value plus delta, opcodes and registers untouched. */
  lemma {:induction false} PairMoved(m: Memory, a: nat, delta: nat)
    requires a + 8 <= |m| && Patch(m, Site(THUMB_MOV32, a), delta).1 == None
    ensures var m' := Patch(m, Site(THUMB_MOV32, a), delta).0;
            var low, high := ThumbMov.Immediate(Instruction(m, a)), ThumbMov.Immediate(Instruction(m, a + 4));
            var d := WordOf(delta % 0x1_0000_0000);
            && ThumbMov.Immediate(Instruction(m', a)) == ThumbMov.SumLow(low, high, d)
            && ThumbMov.Immediate(Instruction(m', a + 4)) == ThumbMov.SumHigh(low, high, d)
            && ThumbMov.Fixed(Instruction(m', a)) == ThumbMov.Fixed(Instruction(m, a))
            && ThumbMov.Fixed(Instruction(m', a + 4)) == ThumbMov.Fixed(Instruction(m, a + 4))
            && forall i | 0 <= i < |m| && !(a <= i < a + 8) :: m'[i] == m[i]
  {
    hide Get, Put, Instruction, WordOf, NumberOf, ThumbMov.PatchPair, ThumbMov.Immediate, ThumbMov.Fixed, ThumbMov.SumLow, ThumbMov.SumHigh;
    var p := PairAt(m, a, delta);
    ThumbMov.PatchedValue(Instruction(m, a), Instruction(m, a + 4), WordOf(delta % 0x1_0000_0000));
    var m1 := Put(m, a, 4, NumberOf(p.movw));
    var m2 := Put(m1, a + 4, 4, NumberOf(p.movt));
    ReadBack(m, a, p.movw);
    ReadBack(m1, a + 4, p.movt);
    GetPut(m, a, 4, NumberOf(p.movw));
    GetPut(m1, a + 4, 4, NumberOf(p.movt));
    SameNumber(m2, m1, a, 4);
    SameInstruction(m2, m1, a);
  }

  lemma {:induction false} SameInstruction(m: Memory, m': Memory, a: nat)
    requires a + 4 <= |m| == |m'| && Get(m, a, 4) == Get(m', a, 4)
    ensures Instruction(m, a) == Instruction(m', a)
  {
  }

  lemma {:induction false} ReadBack(m: Memory, a: nat, w: bv32)
    requires a + 4 <= |m|
    ensures Instruction(Put(m, a, 4, NumberOf(w)), a) == w
  {
    hide Get, Put, Limit, WordOf, NumberOf;
    Limits();
    GetPut(m, a, 4, NumberOf(w));
    NumberWord(w);
    assert NumberOf(w) % 0x1_0000_0000 == NumberOf(w);
  }

  // ---------------------------------------------------------------- what is read

  lemma {:induction false} PutSame(m: Memory, m': Memory, a: nat, n: nat, v: nat, i: nat)
    requires |m| == |m'| && a + n <= |m| && i < |m| && (a <= i < a + n || m[i] == m'[i])
    ensures Put(m, a, n, v)[i] == Put(m', a, n, v)[i]
  {
    hide Encode;
  }

  /** Patching a site reads no byte outside it. */
  lemma {:induction false} PatchReads(m: Memory, m': Memory, s: Site, delta: nat, i: nat)
    requires |m| == |m'| && s.address + Width(s.kind) <= |m| && i < |m|
    requires (forall j | 0 <= j < |m| && Covers(s, j) :: m[j] == m'[j]) && m[i] == m'[i]
    ensures Patch(m, s, delta).1 == Patch(m', s, delta).1 && Patch(m, s, delta).0[i] == Patch(m', s, delta).0[i]
  {
    hide Get, Put, Instruction, ThumbMov.PatchPair, NumberOf, WordOf, Limit;
    var a := s.address;
    forall n: nat, v: nat | a + n <= |m|
      ensures Put(m, a, n, v)[i] == Put(m', a, n, v)[i]
    {
      PutSame(m, m', a, n, v, i);
    }
    if s.kind == THUMB_MOV32 {
      SameNumber(m, m', a, 4);
      SameNumber(m, m', a + 4, 4);
      SameInstruction(m, m', a);
      SameInstruction(m, m', a + 4);
      var p := PairAt(m, a, delta);
      PutSame(Put(m, a, 4, NumberOf(p.movw)), Put(m', a, 4, NumberOf(p.movw)), a + 4, 4, NumberOf(p.movt), i);
    } else {
      if Width(s.kind) == 2 { SameNumber(m, m', a, 2); }
      if Width(s.kind) == 4 { SameNumber(m, m', a, 4); }
      if Width(s.kind) == 8 { SameNumber(m, m', a, 8); }
    }
  }

  /** Carrying out a plan reads its sites only. */
  lemma {:induction false} ExecuteReads(m: Memory, m': Memory, plan: Plan, delta: nat)
    requires |m| == |m'| && Safe(plan, |m|, 0, 0) && forall i | 0 <= i < |m| && Covered(plan, i) :: m[i] == m'[i]
    ensures var (r, e) := Execute(m, plan, delta);
            var (r', e') := Execute(m', plan, delta);
            e == e' && forall i | 0 <= i < |m| && m[i] == m'[i] :: r[i] == r'[i]
    decreases plan
  {
    hide Patch, Covers;
    if plan.Then? {
      var s := plan.site;
      var m1, m1' := Patch(m, s, delta).0, Patch(m', s, delta).0;
      forall i: nat | i < |m| && m[i] == m'[i]
        ensures m1[i] == m1'[i] && Patch(m, s, delta).1 == Patch(m', s, delta).1
      {
        PatchReads(m, m', s, delta, i);
      }
      PatchError(m, m', s, delta);
      if Patch(m, s, delta).1.None? {
        ExecuteReads(m1, m1', plan.rest, delta);
      }
    }
  }

  /** Also on an empty image, where there is no byte to compare. */
  lemma {:induction false} PatchError(m: Memory, m': Memory, s: Site, delta: nat)
    requires |m| == |m'| && s.address + Width(s.kind) <= |m|
    requires forall j | 0 <= j < |m| && Covers(s, j) :: m[j] == m'[j]
    ensures Patch(m, s, delta).1 == Patch(m', s, delta).1
  {
    hide Patch;
    if Width(s.kind) > 0 {
      PatchReads(m, m', s, delta, s.address);
    } else {
      NoWidth(m, s, delta);
      NoWidth(m', s, delta);
    }
  }

  lemma NoWidth(m: Memory, s: Site, delta: nat)
    requires Width(s.kind) == 0 && s.address <= |m|
    ensures Patch(m, s, delta) == (m, if s.kind == ABSOLUTE then None else Some(UnsupportedType(s.kind)))
  {
    hide Get, Put, PairAt;
  }

  /** Relocating reads nothing but the directory and the sites it lists: images that agree there get the same answer, and
      are alike afterwards wherever they were alike before. */
  lemma {:induction false} RelocateReads(m: Memory, m': Memory, directory: nat, directorySize: nat, delta: nat)
    requires |m| == |m'| && directory + directorySize <= |m|
    requires forall i | directory <= i < directory + directorySize :: m[i] == m'[i]
    requires var plan := TablePlan(m, directory, directory + directorySize);
             Safe(plan, |m|, directory, directory + directorySize)
             && forall i | 0 <= i < |m| && Covered(plan, i) :: m[i] == m'[i]
    ensures Safe(TablePlan(m', directory, directory + directorySize), |m'|, directory, directory + directorySize)
    ensures var (r, a) := Relocate(m, directory, directorySize, delta);
            var (r', a') := Relocate(m', directory, directorySize, delta);
            a == a' && forall i | 0 <= i < |m| && m[i] == m'[i] :: r[i] == r'[i]
  {
    hide TablePlan, Safe, Execute, Covered;
    var end := directory + directorySize;
    SamePlan(m, m', directory, end);
    SafeAnywhere(TablePlan(m, directory, end), |m|, directory, end);
    ExecuteReads(m, m', TablePlan(m, directory, end), delta);
  }
}
