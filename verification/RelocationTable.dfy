/** The base relocation table as a format, apart from the walk over it: blocks of entries, laid out one after the other,
    and an end. What relocating by such a table does is said here in terms of its entries. */
module RelocationTable {
  import opened Wrappers
  import opened Bytes
  import opened Relocation

  // ---------------------------------------------------------------- the format

  /** A number of four bits and one of twelve, in two bytes. */
  datatype Entry = Entry(kind: nat, offset: nat)

  /** The entries for one page of the image; a block of odd size has a byte that belongs to no entry. */
  datatype Block = Block(page: nat, entries: seq<Entry>, spare: seq<Byte>)

  predicate ValidBlock(b: Block) {
    && 0 < b.page < 0x1_0000_0000
    && |b.spare| <= 1
    && BlockSize(b) < 0x1_0000_0000
    && forall e | e in b.entries :: e.kind < 16 && e.offset < 4096
  }

  predicate Valid(blocks: seq<Block>) { forall b | b in blocks :: ValidBlock(b) }

  function BlockSize(b: Block): nat { 8 + 2 * |b.entries| + |b.spare| }

  function LaidEntries(entries: seq<Entry>): (d: Memory)
    ensures |d| == 2 * |entries|
  {
    if entries == [] then [] else Encode(2, entries[0].kind * 4096 + entries[0].offset) + LaidEntries(entries[1..])
  }

  function LaidBlock(b: Block): (d: Memory)
    ensures |d| == BlockSize(b)
  {
    Num(b.page) + Num(BlockSize(b)) + LaidEntries(b.entries) + b.spare
  }

  function Laid(blocks: seq<Block>): Memory {
    if blocks == [] then [] else LaidBlock(blocks[0]) + Laid(blocks[1..])
  }

  /** Bytes that do not begin with a block. */
  predicate IsEnd(d: Memory) {
    |d| < 8 || Decode(d[..4]) == 0 || Decode(d[4..8]) < 8 || Decode(d[4..8]) > |d|
  }

  /** What is wrong with the end of a table: nothing if there is no room for a header or its page is zero. */
  function EndError(d: Memory): Option<RelocationError> {
    if |d| < 8 || Decode(d[..4]) == 0 then None
    else if Decode(d[4..8]) < 8 then Some(InvalidBlockSize)
    else Some(BlockExceedsDirectory)
  }

  /** The places that a table names, in order. */
  function BlockSites(page: nat, entries: seq<Entry>): (r: seq<Site>)
    ensures |r| == |entries|
    ensures forall i | 0 <= i < |r| :: r[i] == Site(entries[i].kind, page + entries[i].offset)
  {
    if entries == [] then [] else [Site(entries[0].kind, page + entries[0].offset)] + BlockSites(page, entries[1..])
  }

  function TableSites(blocks: seq<Block>): seq<Site> {
    if blocks == [] then [] else BlockSites(blocks[0].page, blocks[0].entries) + TableSites(blocks[1..])
  }

  // ---------------------------------------------------------------- what the walk finds

  /** The sites of a plan, and how it ends. */
  function Sites(plan: Plan): seq<Site> { if plan.Then? then [plan.site] + Sites(plan.rest) else [] }

  function Ending(plan: Plan): Option<RelocationError> {
    match plan
    case Stop => None
    case Fail(e) => Some(e)
    case Then(_, rest) => Ending(rest)
  }

  lemma {:induction false} EntryBack(e: Entry, t: Memory, at: nat)
    requires e.kind < 16 && e.offset < 4096 && at + 2 <= |t| && t[at..at + 2] == Encode(2, e.kind * 4096 + e.offset)
    ensures Get(t, at, 2) / 0x1000 == e.kind && Get(t, at, 2) % 0x1000 == e.offset
  {
    hide Encode, Decode, Limit;
    Limits();
    DecodeEncode(2, e.kind * 4096 + e.offset);
  }

  lemma {:induction false} EntriesFound(t: Memory, at: nat, page: nat, entries: seq<Entry>, rest: Plan)
    requires forall e | e in entries :: e.kind < 16 && e.offset < 4096
    requires at + 2 * |entries| <= |t| && t[at..at + 2 * |entries|] == LaidEntries(entries)
    ensures var plan := BlockPlan(t, at, |entries|, page, rest);
            Sites(plan) == BlockSites(page, entries) + Sites(rest) && Ending(plan) == Ending(rest)
    decreases |entries|
  {
    hide Encode, Get, BlockPlan, LaidEntries, SiteOf;
    if entries == [] {
      BlockEnd(t, at, page, rest);
    } else {
      EntriesCut(t, at, entries);
      BlockStep(t, at, |entries|, page, rest);
      EntrySite(entries[0], t, at, page);
      EntriesFound(t, at + 2, page, entries[1..], rest);
      Prepend(Site(entries[0].kind, page + entries[0].offset), BlockSites(page, entries[1..]), Sites(rest));
    }
  }

  lemma {:induction false} EntriesCut(t: Memory, at: nat, entries: seq<Entry>)
    requires entries != [] && at + 2 * |entries| <= |t| && t[at..at + 2 * |entries|] == LaidEntries(entries)
    ensures t[at..at + 2] == Encode(2, entries[0].kind * 4096 + entries[0].offset)
    ensures t[at + 2..at + 2 * |entries|] == LaidEntries(entries[1..])
  {
    hide Encode;
    var n := 2 * |entries|;
    var first, more := Encode(2, entries[0].kind * 4096 + entries[0].offset), LaidEntries(entries[1..]);
    Slice(t, at, at + n, 0, 2);
    Slice(t, at, at + n, 2, n);
    assert (first + more)[0..2] == first && (first + more)[2..n] == more;
  }

  lemma {:induction false} EntrySite(e: Entry, t: Memory, at: nat, page: nat)
    requires e.kind < 16 && e.offset < 4096 && at + 2 <= |t| && t[at..at + 2] == Encode(2, e.kind * 4096 + e.offset)
    ensures SiteOf(Get(t, at, 2), page) == Site(e.kind, page + e.offset)
  {
    hide Encode, Get;
    EntryBack(e, t, at);
  }

  lemma Prepend(x: Site, y: seq<Site>, z: seq<Site>)
    ensures [x] + (y + z) == ([x] + y) + z
  {
  }

  lemma {:induction false} Slice(t: Memory, at: nat, end: nat, i: nat, j: nat)
    requires at <= end <= |t| && i <= j <= end - at
    ensures t[at..end][i..j] == t[at + i..at + j]
  {
    var a, b := t[at..end][i..j], t[at + i..at + j];
    assert |a| == |b| && forall k | 0 <= k < |a| :: a[k] == t[at + i + k] && b[k] == t[at + i + k];
  }

  lemma {:induction false} HeaderBack(t: Memory, at: nat, end: nat, b: Block, more: Memory)
    requires at <= end <= |t| && t[at..end] == LaidBlock(b) + more && ValidBlock(b)
    ensures at + BlockSize(b) <= end && t[at + BlockSize(b)..end] == more
    ensures Get(t, at, 4) == b.page && Get(t, at + 4, 4) == BlockSize(b)
    ensures t[at + 8..at + 8 + 2 * |b.entries|] == LaidEntries(b.entries)
  {
    hide Encode, Decode, Num;
    var d := t[at..end];
    var n := 8 + 2 * |b.entries|;
    NumBack(b.page);
    NumBack(BlockSize(b));
    var page, size, laid := Num(b.page), Num(BlockSize(b)), LaidEntries(b.entries);
    assert d == page + size + laid + (b.spare + more);
    Slice(t, at, end, 0, 4);
    Slice(t, at, end, 4, 8);
    Slice(t, at, end, 8, n);
    Slice(t, at, end, BlockSize(b), |d|);
    assert d[0..4] == page && d[4..8] == size && d[8..n] == laid && d[BlockSize(b)..|d|] == more;
  }

  /** The walk over a table of blocks finds the places they name, in order, none missing and none added, and ends as the
      rest of the directory says. */
  lemma {:induction false} TableFound(t: Memory, at: nat, end: nat, blocks: seq<Block>, rest: Memory)
    requires at <= end <= |t| && t[at..end] == Laid(blocks) + rest
    requires Valid(blocks) && IsEnd(rest)
    ensures Sites(TablePlan(t, at, end)) == TableSites(blocks)
    ensures Ending(TablePlan(t, at, end)) == EndError(rest)
    decreases |blocks|
  {
    hide TablePlan, ValidBlock, IsEnd, EndError, BlockSites, LaidBlock;
    if blocks == [] {
      assert t[at..end] == rest;
      EndFound(t, at, end, rest);
    } else {
      var b, more := blocks[0], Laid(blocks[1..]) + rest;
      assert t[at..end] == LaidBlock(b) + more;
      BlockFound(t, at, end, b, more);
      TableFound(t, at + BlockSize(b), end, blocks[1..], rest);
    }
  }

  lemma {:induction false} BlockFound(t: Memory, at: nat, end: nat, b: Block, more: Memory)
    requires at <= end <= |t| && t[at..end] == LaidBlock(b) + more && ValidBlock(b)
    ensures at + BlockSize(b) <= end && t[at + BlockSize(b)..end] == more
    ensures var later := TablePlan(t, at + BlockSize(b), end);
            && Sites(TablePlan(t, at, end)) == BlockSites(b.page, b.entries) + Sites(later)
            && Ending(TablePlan(t, at, end)) == Ending(later)
  {
    hide Get, BlockPlan, LaidBlock, LaidEntries, TablePlan, Sites, BlockSites;
    HeaderBack(t, at, end, b, more);
    TableStep(t, at, end);
    EntriesFound(t, at + HEADER_SIZE, b.page, b.entries, TablePlan(t, at + BlockSize(b), end));
  }

  lemma {:induction false} EndFound(t: Memory, at: nat, end: nat, rest: Memory)
    requires at <= end <= |t| && t[at..end] == rest && IsEnd(rest)
    ensures Sites(TablePlan(t, at, end)) == [] && Ending(TablePlan(t, at, end)) == EndError(rest)
  {
    hide Decode, BlockPlan;
    TableStep(t, at, end);
    if |rest| >= 8 {
      Slice(t, at, end, 0, 4);
      Slice(t, at, end, 4, 8);
    }
  }

  // ---------------------------------------------------------------- every directory is such a table

  lemma {:induction false} EntriesOf(d: Memory) returns (entries: seq<Entry>)
    requires |d| % 2 == 0
    ensures LaidEntries(entries) == d && forall e | e in entries :: e.kind < 16 && e.offset < 4096
    decreases |d|
  {
    hide Encode, Decode, Limit;
    if d == [] {
      entries := [];
    } else {
      var info := Decode(d[..2]);
      Limits();
      DecodeBound(d[..2]);
      EncodeDecode(d[..2]);
      var e := Entry(info / 4096, info % 4096);
      var more := EntriesOf(d[2..]);
      entries := [e] + more;
      assert entries[1..] == more;
      assert d == d[..2] + d[2..];
    }
  }

  lemma {:induction false} FirstBlock(d: Memory) returns (b: Block)
    requires !IsEnd(d)
    ensures ValidBlock(b) && BlockSize(b) <= |d| && d == LaidBlock(b) + d[BlockSize(b)..]
  {
    hide Encode, Decode, Limit;
    Limits();
    DecodeBound(d[..4]);
    DecodeBound(d[4..8]);
    EncodeDecode(d[..4]);
    EncodeDecode(d[4..8]);
    var size := Decode(d[4..8]);
    var n := (size - 8) / 2;
    var entries := EntriesOf(d[8..8 + 2 * n]);
    b := Block(Decode(d[..4]), entries, d[8 + 2 * n..size]);
    assert d == d[..4] + d[4..8] + d[8..8 + 2 * n] + d[8 + 2 * n..size] + d[size..];
  }

  /** Any bytes are blocks followed by an end. */
  lemma {:induction false} TableOf(d: Memory) returns (blocks: seq<Block>, rest: Memory)
    ensures Valid(blocks) && IsEnd(rest) && d == Laid(blocks) + rest
    decreases |d|
  {
    hide IsEnd, LaidBlock, ValidBlock;
    if IsEnd(d) {
      blocks, rest := [], d;
    } else {
      var b := FirstBlock(d);
      var more;
      more, rest := TableOf(d[BlockSize(b)..]);
      blocks := [b] + more;
      assert blocks[1..] == more;
      assert d == LaidBlock(b) + (Laid(more) + rest);
    }
  }

  // ---------------------------------------------------------------- what relocating does

  /** The site lies in the image and outside the bytes from `start` to `end`. */
  predicate InImage(s: Site, size: nat, start: nat, end: nat) {
    && s.address + Width(s.kind) <= size
    && (s.address + Width(s.kind) <= start || end <= s.address)
  }

  predicate AllIn(sites: seq<Site>, size: nat, start: nat, end: nat) {
    forall k | 0 <= k < |sites| :: InImage(sites[k], size, start, end)
  }

  predicate AllFit(sites: seq<Site>, size: nat) {
    forall k | 0 <= k < |sites| :: sites[k].address + Width(sites[k].kind) <= size
  }

  predicate Separate(s: Site, r: Site) {
    || Width(s.kind) == 0 || Width(r.kind) == 0
    || s.address + Width(s.kind) <= r.address || r.address + Width(r.kind) <= s.address
  }

  predicate SeparateFrom(s: Site, sites: seq<Site>) { forall k | 0 <= k < |sites| :: Separate(s, sites[k]) }

  /** No two of the sites share a byte. */
  predicate AllSeparate(sites: seq<Site>) { forall j, k | 0 <= j < k < |sites| :: Separate(sites[j], sites[k]) }

  predicate Touches(sites: seq<Site>, i: int) { exists k :: 0 <= k < |sites| && Covers(sites[k], i) }

  lemma {:induction false} SafeIff(plan: Plan, size: nat, start: nat, end: nat)
    ensures Safe(plan, size, start, end) <==> AllIn(Sites(plan), size, start, end)
    decreases plan
  {
    if plan.Then? {
      SafeIff(plan.rest, size, start, end);
      var sites, rest := Sites(plan), Sites(plan.rest);
      assert sites[0] == plan.site && forall k | 0 <= k < |rest| :: sites[k + 1] == rest[k];
    }
  }

  /** What patching does to a site depends on the bytes of the site only. */
  lemma {:induction false} PatchLocal(m: Memory, m': Memory, s: Site, delta: nat)
    requires |m| == |m'| && s.address + Width(s.kind) <= |m|
    requires forall j | 0 <= j < |m| && Covers(s, j) :: m[j] == m'[j]
    ensures Patch(m, s, delta).1 == Patch(m', s, delta).1
    ensures forall i | Covers(s, i) :: Patch(m, s, delta).0[i] == Patch(m', s, delta).0[i]
  {
    hide Patch;
    PatchError(m, m', s, delta);
    forall i | Covers(s, i)
      ensures Patch(m, s, delta).0[i] == Patch(m', s, delta).0[i]
    {
      PatchReads(m, m', s, delta, i);
    }
  }

  /** The first n sites can be patched; the one after them, if there is one, cannot. */
  ghost predicate StopsAt(m: Memory, sites: seq<Site>, delta: nat, n: nat)
    requires AllFit(sites, |m|)
  {
    && n <= |sites|
    && (forall k | 0 <= k < n :: Patch(m, sites[k], delta).1 == None)
    && (n < |sites| ==> Patch(m, sites[n], delta).1 != None)
  }

  /** The memory m' has the sites patched, each from its bytes in m, and all else as in m. */
  ghost predicate Patched(m: Memory, m': Memory, sites: seq<Site>, delta: nat)
    requires |m'| == |m| && AllFit(sites, |m|)
  {
    && (forall k, i | 0 <= k < |sites| && Covers(sites[k], i) :: m'[i] == Patch(m, sites[k], delta).0[i])
    && (forall i | 0 <= i < |m| && !Touches(sites, i) :: m'[i] == m[i])
  }

  /** The sites that are looked at if the first n can be patched. */
  function Reached(sites: seq<Site>, n: nat): seq<Site> { if n < |sites| then sites[..n + 1] else sites }

  /** After the first site the others are as they were. */
  lemma {:induction false} RestAsBefore(m: Memory, s: Site, rest: seq<Site>, delta: nat, k: nat)
    requires k < |rest| && s.address + Width(s.kind) <= |m| && rest[k].address + Width(rest[k].kind) <= |m|
    requires Separate(s, rest[k])
    ensures var m1 := Patch(m, s, delta).0;
            && Patch(m, rest[k], delta).1 == Patch(m1, rest[k], delta).1
            && forall i | Covers(rest[k], i) :: Patch(m, rest[k], delta).0[i] == Patch(m1, rest[k], delta).0[i]
  {
    hide Patch;
    var m1 := Patch(m, s, delta).0;
    forall j | 0 <= j < |m| && Covers(rest[k], j)
      ensures m[j] == m1[j]
    {
      PatchFrame(m, s, delta, j);
    }
    PatchLocal(m, m1, rest[k], delta);
  }

  lemma {:induction false} RestReached(s: Site, rest: seq<Site>, size: nat, n: nat)
    requires AllFit([s] + rest, size) && n > 0 && AllSeparate(Reached([s] + rest, n))
    ensures s.address + Width(s.kind) <= size && AllFit(rest, size) && AllFit(Reached(rest, n - 1), size)
    ensures Reached([s] + rest, n) == [s] + Reached(rest, n - 1)
    ensures SeparateFrom(s, Reached(rest, n - 1)) && AllSeparate(Reached(rest, n - 1))
  {
    hide Separate;
    var sites, all, reached := [s] + rest, Reached([s] + rest, n), Reached(rest, n - 1);
    assert sites[0] == s && forall k | 0 <= k < |rest| :: sites[k + 1] == rest[k];
    assert all == [s] + reached;
    assert all[0] == s && forall k | 0 <= k < |reached| :: all[k + 1] == reached[k];
  }

  lemma {:induction false} RestStopsAt(m: Memory, s: Site, rest: seq<Site>, delta: nat, n: nat)
    requires s.address + Width(s.kind) <= |m| && AllFit(rest, |m|) && AllFit([s] + rest, |m|)
    requires n > 0 && StopsAt(m, [s] + rest, delta, n) && SeparateFrom(s, Reached(rest, n - 1))
    ensures StopsAt(Patch(m, s, delta).0, rest, delta, n - 1)
  {
    hide Patch, Separate, Width;
    var sites, reached := [s] + rest, Reached(rest, n - 1);
    forall k | 0 <= k < |reached|
      ensures Patch(m, rest[k], delta).1 == Patch(Patch(m, s, delta).0, rest[k], delta).1
      ensures sites[k + 1] == rest[k]
    {
      assert reached[k] == rest[k];
      RestAsBefore(m, s, rest, delta, k);
    }
  }

  lemma {:induction false} NotTouched(s: Site, rest: seq<Site>, i: int)
    requires Covers(s, i) && SeparateFrom(s, rest)
    ensures !Touches(rest, i)
  {
    forall k | 0 <= k < |rest|
      ensures !Covers(rest[k], i)
    {
      assert Separate(s, rest[k]);
    }
  }

  lemma {:induction false} PatchedMore(m: Memory, m': Memory, s: Site, rest: seq<Site>, delta: nat)
    requires |m'| == |m| && s.address + Width(s.kind) <= |m| && AllFit(rest, |m|)
    requires SeparateFrom(s, rest)
    requires Patched(Patch(m, s, delta).0, m', rest, delta)
    ensures AllFit([s] + rest, |m|) && Patched(m, m', [s] + rest, delta)
  {
    hide Patch;
    var m1, sites := Patch(m, s, delta).0, [s] + rest;
    forall k, i | 0 <= k < |sites| && Covers(sites[k], i)
      ensures m'[i] == Patch(m, sites[k], delta).0[i]
    {
      if k == 0 {
        NotTouched(s, rest, i);
      } else {
        assert sites[k] == rest[k - 1];
        RestAsBefore(m, s, rest, delta, k - 1);
      }
    }
    forall i | 0 <= i < |m| && !Touches(sites, i)
      ensures m'[i] == m[i]
    {
      assert sites[0] == s && !Covers(s, i);
      assert forall k | 0 <= k < |rest| :: sites[k + 1] == rest[k];
      PatchFrame(m, s, delta, i);
    }
  }

  lemma {:induction false} PatchedNothing(m: Memory, delta: nat)
    ensures Patched(m, m, [], delta)
  {
  }

  /** Carrying out a plan whose sites are separate. */
  lemma {:induction false} ExecuteSeparate(m: Memory, plan: Plan, delta: nat, n: nat)
    requires Safe(plan, |m|, 0, 0) && AllFit(Sites(plan), |m|)
    requires StopsAt(m, Sites(plan), delta, n) && AllSeparate(Reached(Sites(plan), n))
    ensures AllFit(Reached(Sites(plan), n), |m|)
    ensures var (m', e) := Execute(m, plan, delta);
            && e == (if n < |Sites(plan)| then Patch(m, Sites(plan)[n], delta).1 else Ending(plan))
            && Patched(m, m', Reached(Sites(plan), n), delta)
    decreases plan
  {
    hide Patch, Separate, Patched;
    PatchedNothing(m, delta);
    if plan.Then? {
      var s, rest := plan.site, Sites(plan.rest);
      var m1 := Patch(m, s, delta).0;
      if n == 0 {
        assert Reached(Sites(plan), 0) == [s] + [];
        PatchedNothing(m1, delta);
        PatchedMore(m, m1, s, [], delta);
      } else {
        assert Sites(plan) == [s] + rest;
        RestReached(s, rest, |m|, n);
        RestStopsAt(m, s, rest, delta, n);
        ExecuteSeparate(m1, plan.rest, delta, n - 1);
        PatchedMore(m, Execute(m1, plan.rest, delta).0, s, Reached(rest, n - 1), delta);
        assert Sites(plan)[0] == s;
        if n <= |rest| {
          assert Sites(plan)[n] == rest[n - 1] == Reached(rest, n - 1)[n - 1];
          RestAsBefore(m, s, rest, delta, n - 1);
        }
      }
    }
  }

  /** The bytes of the directory are the given blocks followed by an end, and the places that they name lie in the image
      and outside the directory. */
  ghost predicate HoldsTable(m: Memory, directory: nat, directorySize: nat, blocks: seq<Block>, rest: Memory) {
    && 0 < directorySize && directory + directorySize <= |m|
    && m[directory..directory + directorySize] == Laid(blocks) + rest
    && Valid(blocks) && IsEnd(rest)
    && AllIn(TableSites(blocks), |m|, directory, directory + directorySize)
  }

  lemma {:induction false} TablePlanned(m: Memory, directory: nat, directorySize: nat, blocks: seq<Block>, rest: Memory)
    requires HoldsTable(m, directory, directorySize, blocks, rest)
    ensures var plan := TablePlan(m, directory, directory + directorySize);
            && Safe(plan, |m|, directory, directory + directorySize) && Safe(plan, |m|, 0, 0)
            && Sites(plan) == TableSites(blocks) && Ending(plan) == EndError(rest) && AllFit(Sites(plan), |m|)
  {
    hide TablePlan, Valid, IsEnd, Laid, TableSites, Safe, Sites, EndError;
    var end := directory + directorySize;
    TableFound(m, directory, end, blocks, rest);
    SafeIff(TablePlan(m, directory, end), |m|, directory, end);
    SafeIff(TablePlan(m, directory, end), |m|, 0, 0);
  }

  /** Relocating by a table of separate places patches each of them as it stood at first, in order, up to the first that
      cannot be patched, and changes nothing else. That place, or else the end of the table, decides the answer. */
  lemma {:induction false} RelocateUpTo(m: Memory, directory: nat, directorySize: nat, blocks: seq<Block>, rest: Memory,
                                        delta: nat, n: nat)
    requires HoldsTable(m, directory, directorySize, blocks, rest) && AllFit(TableSites(blocks), |m|)
    requires StopsAt(m, TableSites(blocks), delta, n) && AllSeparate(Reached(TableSites(blocks), n))
    ensures Safe(TablePlan(m, directory, directory + directorySize), |m|, directory, directory + directorySize)
    ensures var sites := TableSites(blocks);
            var (m', r) := Relocate(m, directory, directorySize, delta);
            var error := if n < |sites| then Patch(m, sites[n], delta).1 else EndError(rest);
            && AllFit(Reached(sites, n), |m|) && Patched(m, m', Reached(sites, n), delta)
            && r == (if error.Some? then Err(error.value) else Ok(true))
  {
    hide TablePlan, Valid, IsEnd, Laid, TableSites, Safe, Sites, EndError, Patch, Execute, Relocate, HoldsTable, StopsAt,
         AllSeparate, Reached, Patched;
    TablePlanned(m, directory, directorySize, blocks, rest);
    TableFits(m, directory, directorySize, blocks, rest);
    ExecuteSeparate(m, TablePlan(m, directory, directory + directorySize), delta, n);
    RelocateIs(m, directory, directorySize, delta);
  }

  lemma TableFits(m: Memory, directory: nat, directorySize: nat, blocks: seq<Block>, rest: Memory)
    requires HoldsTable(m, directory, directorySize, blocks, rest)
    ensures 0 < directorySize && directory + directorySize <= |m|
  {
  }

  /** Where patching goes wrong: nowhere for words and halves, at a pair of instructions if the pair says so, at any
      unknown kind. */
  lemma WhyPatchFails(m: Memory, s: Site, delta: nat)
    requires s.address + Width(s.kind) <= |m|
    ensures Patch(m, s, delta).1
         == if s.kind in {0, 1, 2, 3, 10} then None
            else if s.kind == 7 then
              match PairAt(m, s.address, delta).error { case None => None case Some(e) => Some(Thumb(e)) }
            else Some(UnsupportedType(s.kind))
  {
    hide Get, Put, PairAt;
  }

  /** The entry is one of the table's. */
  predicate Lists(blocks: seq<Block>, page: nat, e: Entry) { exists b :: b in blocks && b.page == page && e in b.entries }

  lemma {:induction false} ListedSite(blocks: seq<Block>, page: nat, e: Entry) returns (k: nat)
    requires Lists(blocks, page, e)
    ensures k < |TableSites(blocks)| && TableSites(blocks)[k] == Site(e.kind, page + e.offset)
    decreases |blocks|
  {
    var b :| b in blocks && b.page == page && e in b.entries;
    if b == blocks[0] {
      k :| 0 <= k < |b.entries| && b.entries[k] == e;
    } else {
      k := ListedSite(blocks[1..], page, e);
      k := k + |blocks[0].entries|;
    }
  }

  lemma {:induction false} SiteListed(blocks: seq<Block>, k: nat) returns (page: nat, e: Entry)
    requires k < |TableSites(blocks)|
    ensures Lists(blocks, page, e) && TableSites(blocks)[k] == Site(e.kind, page + e.offset)
    decreases |blocks|
  {
    var b := blocks[0];
    if k < |b.entries| {
      page, e := b.page, b.entries[k];
    } else {
      page, e := SiteListed(blocks[1..], k - |b.entries|);
      var c :| c in blocks[1..] && c.page == page && e in c.entries;
      assert c in blocks;
    }
  }

  /** The word that an entry of the given kind at an address stands for has grown by delta. */
  predicate Grown(kind: nat, a: nat, m: Memory, m': Memory, delta: nat)
    requires |m'| == |m| && a + Width(kind) <= |m|
  {
    && (kind == 10 ==> Get(m', a, 8) == (Get(m, a, 8) + delta) % 0x1_0000_0000_0000_0000)
    && (kind == 3 ==> Get(m', a, 4) == (Get(m, a, 4) + delta) % 0x1_0000_0000)
    && (kind == 2 ==> Get(m', a, 2) == (Get(m, a, 2) + delta) % 0x1_0000)
    && (kind == 1 ==> Get(m', a, 2) == (Get(m, a, 2) + delta / 0x1_0000) % 0x1_0000)
  }

  /** How many bytes an entry of a kind of words stands for. */
  function WordSize(kind: nat): nat {
    if kind == 10 then 8 else if kind == 3 then 4 else if kind == 1 || kind == 2 then 2 else 0
  }

  /** Relocating by a table of words at separate places, after which it is well formed: the 64-bit word of each DIR64 entry
      and the 32-bit word of each HIGHLOW entry, at the page of its block plus its offset, have grown by delta; a LOW entry
      has the low half of delta added, a HIGH entry the high half; all other bytes are as before. */
  lemma {:induction false} RelocateWords(m: Memory, directory: nat, directorySize: nat, blocks: seq<Block>, rest: Memory,
                                         delta: nat)
    requires HoldsTable(m, directory, directorySize, blocks, rest) && EndError(rest) == None
    requires forall b, e | b in blocks && e in b.entries :: e.kind in {0, 1, 2, 3, 10}
    requires AllSeparate(TableSites(blocks))
    ensures Safe(TablePlan(m, directory, directory + directorySize), |m|, directory, directory + directorySize)
    ensures var (m', r) := Relocate(m, directory, directorySize, delta);
            && r == Ok(true) && |m'| == |m|
            && (forall page: nat, e | Lists(blocks, page, e) ::
                  page + e.offset + Width(e.kind) <= |m| && Grown(e.kind, page + e.offset, m, m', delta))
            && (forall i | 0 <= i < |m| && (forall page: nat, e | Lists(blocks, page, e) ::
                                              !(page + e.offset <= i < page + e.offset + WordSize(e.kind))) ::
                  m'[i] == m[i])
  {
    hide TablePlan, Valid, IsEnd, Laid, TableSites, Safe, Sites, EndError, Patch, Execute, Relocate, HoldsTable, Separate,
         Grown, Get, Lists, Width;
    var sites, n := TableSites(blocks), |TableSites(blocks)|;
    TablePlanned(m, directory, directorySize, blocks, rest);
    forall k | 0 <= k < n
      ensures Patch(m, sites[k], delta).1 == None && IsWord(sites[k].kind)
    {
      var page, e := SiteListed(blocks, k);
      WordEntry(blocks, page, e);
      WhyPatchFails(m, sites[k], delta);
    }
    RelocateUpTo(m, directory, directorySize, blocks, rest, delta, n);
    TableFits(m, directory, directorySize, blocks, rest);
    var m' := Relocate(m, directory, directorySize, delta).0;
    forall page: nat, e | Lists(blocks, page, e)
      ensures page + e.offset + Width(e.kind) <= |m| && Grown(e.kind, page + e.offset, m, m', delta)
    {
      var k := ListedSite(blocks, page, e);
      PatchedGrown(m, m', sites, delta, k);
    }
    forall i | 0 <= i < |m| && forall page: nat, e | Lists(blocks, page, e) ::
                                 !(page + e.offset <= i < page + e.offset + WordSize(e.kind))
      ensures m'[i] == m[i]
    {
      forall k | 0 <= k < n
        ensures !Covers(sites[k], i)
      {
        var page, e := SiteListed(blocks, k);
        SameWidth(e.kind);
      }
    }
  }

  lemma SameWidth(kind: nat)
    requires IsWord(kind)
    ensures Width(kind) == WordSize(kind)
  {
  }

  lemma {:induction false} WordEntry(blocks: seq<Block>, page: nat, e: Entry)
    requires forall b, e | b in blocks && e in b.entries :: e.kind in {0, 1, 2, 3, 10}
    requires Lists(blocks, page, e)
    ensures IsWord(e.kind)
  {
  }

  lemma {:induction false} PatchedGrown(m: Memory, m': Memory, sites: seq<Site>, delta: nat, k: nat)
    requires |m'| == |m| && AllFit(sites, |m|) && Patched(m, m', sites, delta) && k < |sites| && IsWord(sites[k].kind)
    ensures Grown(sites[k].kind, sites[k].address, m, m', delta)
  {
    hide Get, Patch, Limit;
    var s := sites[k];
    Limits();
    PatchMoves(m, s, delta);
    assert forall i | Covers(s, i) :: m'[i] == Patch(m, s, delta).0[i];
    SameNumber(m', Patch(m, s, delta).0, s.address, Width(s.kind));
  }
}
