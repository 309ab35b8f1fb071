/** Setting the page protection of a mapped image (finalizeSections of driver/memmod/memmod_windows.go): neighbouring
    sections that share a page are treated as one range. */
module SectionRanges {
  import opened CInt
  import opened Pow
  import opened Wrappers

  /** Addresses and sizes are 64 bits wide. */
  const WORD: nat := 0x1_0000_0000_0000_0000

  function Wrap(x: int): nat { x % WORD }

  lemma WrapIs(x: int)
    ensures 0 <= x < WORD ==> Wrap(x) == x
  {
  }

  /** A word of characteristics, as the set of the positions of its bits. */
  type Flags = set<nat>

  const CNT_INITIALIZED_DATA: nat := 6
  const CNT_UNINITIALIZED_DATA: nat := 7
  const MEM_DISCARDABLE: nat := 25
  const MEM_NOT_CACHED: nat := 26
  const MEM_EXECUTE: nat := 29
  const MEM_READ: nat := 30
  const MEM_WRITE: nat := 31

  /** A section header; its first field holds the physical address at first, and the virtual size afterwards. */
  datatype SectionHeader = SectionHeader(physicalAddressOrVirtualSize: nat, sizeOfRawData: nat, characteristics: Flags)

  /** What the optional header contributes. The alignment of loaded images is a power of two. */
  datatype OptionalHeader = OptionalHeader(
    imageOffset: nat,
    sectionAlignment: nat,
    sizeOfInitializedData: nat,
    sizeOfUninitializedData: nat)
  {
    ghost predicate Valid() { sectionAlignment > 0 }

    /** The start of the page that holds an address. */
    function AlignDown(a: nat): nat
      requires Valid()
    {
      a / sectionAlignment * sectionAlignment
    }

    /** The size of a section in memory: its own, or else that of the data it stands for. */
    function RealSize(s: SectionHeader): nat {
      if s.sizeOfRawData != 0 then s.sizeOfRawData
      else if CNT_INITIALIZED_DATA in s.characteristics then sizeOfInitializedData
      else if CNT_UNINITIALIZED_DATA in s.characteristics then sizeOfUninitializedData
      else 0
    }

    function Address(s: SectionHeader): nat { imageOffset + s.physicalAddressOrVirtualSize }

    function End(s: SectionHeader): nat { Address(s) + RealSize(s) }
  }

  /** sectionFinalizeData. */
  datatype Range = Range(address: nat, alignedAddress: nat, size: nat, characteristics: Flags, last: bool)

  function Fresh(h: OptionalHeader, s: SectionHeader): Range
    requires h.Valid()
  {
    Range(h.Address(s), h.AlignDown(h.Address(s)), h.RealSize(s), s.characteristics, false)
  }

  /** The section begins on the first page of the range, or on a page that the range reaches into. */
  predicate SharesPage(h: OptionalHeader, r: Range, s: SectionHeader)
    requires h.Valid()
  {
    var aligned := h.AlignDown(h.Address(s));
    r.alignedAddress == aligned || Wrap(r.address + r.size) > aligned
  }

  function CombineFlags(a: Flags, b: Flags): Flags {
    if MEM_DISCARDABLE !in b || MEM_DISCARDABLE !in a then a + b - {MEM_DISCARDABLE} else a + b
  }

  function Extend(h: OptionalHeader, r: Range, s: SectionHeader): Range {
    r.(characteristics := CombineFlags(r.characteristics, s.characteristics), size := Wrap(h.End(s) - r.address))
  }

  /** Sections come in the order of their addresses, do not overlap, and end within the address space. */
  ghost predicate Sorted(h: OptionalHeader, sections: seq<SectionHeader>) {
    && (forall i, j | 0 <= i < j < |sections| :: h.End(sections[i]) <= h.Address(sections[j]))
    && (forall i | 0 <= i < |sections| :: h.End(sections[i]) < WORD)
  }

  // ---------------------------------------------------------------- ranges

  /** A range with the indices of the sections it is made of. */
  datatype Piece = Piece(range: Range, first: nat, next: nat)

  /** The ranges of the sections from i on, `current` being made of the sections before i. */
  function Pieces(h: OptionalHeader, sections: seq<SectionHeader>, i: nat, current: Piece): seq<Piece>
    requires h.Valid() && i <= |sections|
    decreases |sections| - i
  {
    if i == |sections| then [current.(range := current.range.(last := true))]
    else
      var s := sections[i];
      if SharesPage(h, current.range, s) then
        Pieces(h, sections, i + 1, Piece(Extend(h, current.range, s), current.first, i + 1))
      else
        [current] + Pieces(h, sections, i + 1, Piece(Fresh(h, s), i, i + 1))
  }

  function AllPieces(h: OptionalHeader, sections: seq<SectionHeader>): seq<Piece>
    requires h.Valid() && sections != []
  {
    Pieces(h, sections, 1, Piece(Fresh(h, sections[0]), 0, 1))
  }

  // ---------------------------------------------------------------- the partition

  predicate AllDiscardable(sections: seq<SectionHeader>) {
    forall i | 0 <= i < |sections| :: MEM_DISCARDABLE in sections[i].characteristics
  }

  /** The flags of all the sections together; discardable only if each of them is. */
  function FlagsOf(sections: seq<SectionHeader>): Flags {
    var all := set i, b | 0 <= i < |sections| && b in sections[i].characteristics :: b;
    if AllDiscardable(sections) then all else all - {MEM_DISCARDABLE}
  }

  /** Section j begins on the page where section `first` does, or on a page that the section before it reaches into. */
  ghost predicate Joined(h: OptionalHeader, sections: seq<SectionHeader>, first: nat, j: nat)
    requires h.Valid() && first < j < |sections|
  {
    || h.AlignDown(h.Address(sections[j])) == h.AlignDown(h.Address(sections[first]))
    || h.AlignDown(h.Address(sections[j])) < h.End(sections[j - 1])
  }

  /** The piece is the hull of its sections, with their flags, and each of them was joined to those before it for a page. */
  ghost predicate Hull(h: OptionalHeader, sections: seq<SectionHeader>, p: Piece) {
    && p.first < p.next <= |sections|
    && h.Valid()
    && p.range.address == h.Address(sections[p.first])
    && p.range.alignedAddress == h.AlignDown(p.range.address)
    && p.range.address + p.range.size == h.End(sections[p.next - 1])
    && p.range.characteristics == FlagsOf(sections[p.first..p.next])
    && (forall j | p.first < j < p.next :: Joined(h, sections, p.first, j))
  }

  /** Where one range ends, the next begins on a later page. */
  ghost predicate PageBetween(h: OptionalHeader, p: Piece, q: Piece) {
    && h.Valid()
    && p.range.address + p.range.size <= q.range.alignedAddress
    && p.range.alignedAddress < q.range.alignedAddress
  }

  lemma {:induction false} FlagsOfOne(s: SectionHeader)
    ensures FlagsOf([s]) == s.characteristics
  {
    assert [s][0] == s;
    assert (set i, b | 0 <= i < |[s]| && b in [s][i].characteristics :: b) == s.characteristics;
  }

  lemma {:induction false} FlagsOfMore(sections: seq<SectionHeader>, s: SectionHeader)
    requires sections != []
    ensures FlagsOf(sections + [s]) == CombineFlags(FlagsOf(sections), s.characteristics)
  {
    var more := sections + [s];
    var n := |sections|;
    assert forall i | 0 <= i < n :: more[i] == sections[i];
    assert more[n] == s;
    var all := set i, b | 0 <= i < |sections| && b in sections[i].characteristics :: b;
    assert (set i, b | 0 <= i < |more| && b in more[i].characteristics :: b) == all + s.characteristics;
    assert AllDiscardable(more) <==> AllDiscardable(sections) && MEM_DISCARDABLE in s.characteristics;
    assert AllDiscardable(sections) ==> MEM_DISCARDABLE in sections[0].characteristics;
  }

  /** For a power of two rounding down is masking, as the code does it. */
  lemma {:induction false} AlignDownIsMask(h: OptionalHeader, a: nat, k: nat)
    requires h.sectionAlignment == Pow2(k)
    ensures h.AlignDown(a) == And(a, -1 - (h.sectionAlignment - 1))
  {
    hide And;
    AndComplement(a, Pow2(k) - 1);
    AndMask(a, k);
  }

  lemma {:induction false} PageOrder(h: OptionalHeader, a: nat, b: nat)
    requires h.Valid() && a <= b
    ensures h.AlignDown(a) <= h.AlignDown(b) && h.AlignDown(a) <= a < h.AlignDown(a) + h.sectionAlignment
  {
    var n := h.sectionAlignment;
    DivMono(a, b, n);
    assert a == a / n * n + a % n;
  }

  lemma DivMono(a: nat, b: nat, n: nat)
    requires n > 0 && a <= b
    ensures a / n <= b / n && a / n * n <= b / n * n
  {
    var p, q := a / n, b / n;
    assert a == n * p + a % n && b == n * q + b % n;
    assert p > q ==> n * p >= n * (q + 1);
    assert p <= q ==> p * n <= q * n;
  }

  /** What the ranges are: hulls of consecutive groups of sections that share pages, in order, separated by page
      boundaries. */
  ghost predicate Partition(h: OptionalHeader, sections: seq<SectionHeader>, pieces: seq<Piece>, first: nat) {
    && pieces != []
    && pieces[0].first == first
    && pieces[|pieces| - 1].next == |sections|
    && (forall k | 0 <= k < |pieces| :: Hull(h, sections, pieces[k]) && (pieces[k].range.last <==> k == |pieces| - 1))
    && (forall k, l | 0 <= k < l < |pieces| && l == k + 1 ::
          pieces[k].next == pieces[l].first && PageBetween(h, pieces[k], pieces[l]))
  }

  lemma {:induction false} ExtendHull(h: OptionalHeader, sections: seq<SectionHeader>, p: Piece)
    requires h.Valid() && Sorted(h, sections) && Hull(h, sections, p) && p.next < |sections|
    requires SharesPage(h, p.range, sections[p.next])
    ensures Hull(h, sections, Piece(Extend(h, p.range, sections[p.next]), p.first, p.next + 1))
  {
    hide FlagsOf, CombineFlags, Wrap;
    assert h.End(sections[p.first]) <= h.Address(sections[p.next]);
    WrapIs(h.End(sections[p.next]) - p.range.address);
    WrapIs(p.range.address + p.range.size);
    assert sections[p.first..p.next + 1] == sections[p.first..p.next] + [sections[p.next]];
    FlagsOfMore(sections[p.first..p.next], sections[p.next]);
  }

  lemma {:induction false} FreshHull(h: OptionalHeader, sections: seq<SectionHeader>, i: nat)
    requires h.Valid() && i < |sections|
    ensures Hull(h, sections, Piece(Fresh(h, sections[i]), i, i + 1))
  {
    hide FlagsOf;
    assert sections[i..i + 1] == [sections[i]];
    FlagsOfOne(sections[i]);
  }

  lemma {:induction false} NewPage(h: OptionalHeader, sections: seq<SectionHeader>, p: Piece)
    requires h.Valid() && Sorted(h, sections) && Hull(h, sections, p) && p.next < |sections|
    requires !SharesPage(h, p.range, sections[p.next])
    ensures PageBetween(h, p, Piece(Fresh(h, sections[p.next]), p.next, p.next + 1))
  {
    hide FlagsOf, Wrap;
    assert h.End(sections[p.first]) <= h.Address(sections[p.next]);
    WrapIs(p.range.address + p.range.size);
    PageOrder(h, p.range.address, h.Address(sections[p.next]));
  }

  lemma {:induction false} OnePiece(h: OptionalHeader, sections: seq<SectionHeader>, p: Piece)
    requires Hull(h, sections, p) && p.next == |sections|
    ensures Partition(h, sections, [p.(range := p.range.(last := true))], p.first)
  {
    hide FlagsOf;
  }

  lemma {:induction false} MorePieces(h: OptionalHeader, sections: seq<SectionHeader>, p: Piece, rest: seq<Piece>)
    requires Hull(h, sections, p) && !p.range.last && Partition(h, sections, rest, p.next)
    requires PageBetween(h, p, rest[0])
    ensures Partition(h, sections, [p] + rest, p.first)
  {
    hide Hull, PageBetween;
    var pieces := [p] + rest;
    assert forall k | 0 < k < |pieces| :: pieces[k] == rest[k - 1];
    forall k, l | 0 <= k < l < |pieces| && l == k + 1
      ensures pieces[k].next == pieces[l].first && PageBetween(h, pieces[k], pieces[l])
    {
      if k > 0 {
        assert rest[k - 1].next == rest[l - 1].first && PageBetween(h, rest[k - 1], rest[l - 1]);
      }
    }
  }

  lemma {:induction false} PiecesPartition(h: OptionalHeader, sections: seq<SectionHeader>, i: nat, current: Piece)
    requires h.Valid() && i <= |sections| && Sorted(h, sections)
    requires Hull(h, sections, current) && current.next == i && !current.range.last
    ensures var pieces := Pieces(h, sections, i, current);
            && pieces != [] && Partition(h, sections, pieces, current.first)
            && pieces[0].range.alignedAddress == current.range.alignedAddress
    decreases |sections| - i
  {
    hide FlagsOf, CombineFlags, Partition, PageBetween, SharesPage, Hull;
    if i == |sections| {
      OnePiece(h, sections, current);
    } else {
      var s := sections[i];
      if SharesPage(h, current.range, s) {
        ExtendHull(h, sections, current);
        PiecesPartition(h, sections, i + 1, Piece(Extend(h, current.range, s), current.first, i + 1));
      } else {
        var next := Piece(Fresh(h, s), i, i + 1);
        FreshHull(h, sections, i);
        NewPage(h, sections, current);
        PiecesPartition(h, sections, i + 1, next);
        var rest := Pieces(h, sections, i + 1, next);
        SamePageBetween(h, current, next, rest[0]);
        MorePieces(h, sections, current, rest);
      }
    }
  }

  lemma SamePageBetween(h: OptionalHeader, p: Piece, q: Piece, r: Piece)
    requires PageBetween(h, p, q) && r.range.alignedAddress == q.range.alignedAddress
    ensures PageBetween(h, p, r)
  {
  }

  /** Finalizing sorted sections partitions them into ranges, each with the flags of its members. */
  lemma {:induction false} AllPiecesPartition(h: OptionalHeader, sections: seq<SectionHeader>)
    requires h.Valid() && sections != [] && Sorted(h, sections)
    ensures Partition(h, sections, AllPieces(h, sections), 0)
  {
    hide Partition, Pieces, Hull;
    FreshHull(h, sections, 0);
    PiecesPartition(h, sections, 1, Piece(Fresh(h, sections[0]), 0, 1));
  }

  lemma {:induction false} LaterPiece(h: OptionalHeader, sections: seq<SectionHeader>, pieces: seq<Piece>, k: nat, l: nat)
    requires Partition(h, sections, pieces, 0) && k < l < |pieces| && h.Valid() && Sorted(h, sections)
    ensures pieces[k].range.address + pieces[k].range.size <= pieces[l].range.alignedAddress
    ensures pieces[k].range.alignedAddress < pieces[l].range.alignedAddress
    decreases l
  {
    hide FlagsOf;
    assert PageBetween(h, pieces[l - 1], pieces[l]);
    if k < l - 1 {
      LaterPiece(h, sections, pieces, k, l - 1);
      var q := pieces[l - 1];
      assert Hull(h, sections, q);
      PageOrder(h, q.range.address, q.range.address);
      assert q.range.alignedAddress <= q.range.address;
    }
  }

  /** No page holds bytes of two ranges. */
  lemma {:induction false} PagesApart(h: OptionalHeader, sections: seq<SectionHeader>, k: nat, l: nat, x: nat, y: nat)
    requires h.Valid() && sections != [] && Sorted(h, sections)
    requires k < l < |AllPieces(h, sections)|
    requires var r := AllPieces(h, sections)[k].range; r.address <= x < r.address + r.size
    requires var r := AllPieces(h, sections)[l].range; r.address <= y < r.address + r.size
    ensures h.AlignDown(x) < h.AlignDown(y)
  {
    hide Pieces, FlagsOf;
    var pieces := AllPieces(h, sections);
    AllPiecesPartition(h, sections);
    LaterPiece(h, sections, pieces, k, l);
    assert Hull(h, sections, pieces[l]);
    PageOrder(h, pieces[l].range.address, y);
    PageOrder(h, x, x);
  }

  lemma {:induction false} PieceOf(h: OptionalHeader, sections: seq<SectionHeader>, pieces: seq<Piece>, i: nat) returns (k: nat)
    requires Partition(h, sections, pieces, 0) && i < |sections|
    ensures k < |pieces| && pieces[k].first <= i < pieces[k].next
  {
    hide FlagsOf, PageBetween;
    k := 0;
    while i >= pieces[k].next
      invariant k < |pieces| && pieces[k].first <= i
      decreases |pieces| - k
    {
      assert Hull(h, sections, pieces[k]);
      assert pieces[k].next == pieces[k + 1].first;
      k := k + 1;
    }
  }

  /** The sections of a range lie in it and give it their flags. */
  lemma {:induction false} MemberWithin(h: OptionalHeader, sections: seq<SectionHeader>, k: nat, i: nat)
    requires h.Valid() && sections != [] && Sorted(h, sections) && k < |AllPieces(h, sections)|
    requires AllPieces(h, sections)[k].first <= i < AllPieces(h, sections)[k].next
    ensures i < |sections|
    ensures var r := AllPieces(h, sections)[k].range;
            && r.address <= h.Address(sections[i]) && h.End(sections[i]) <= r.address + r.size
            && sections[i].characteristics - {MEM_DISCARDABLE} <= r.characteristics
            && (MEM_DISCARDABLE in r.characteristics ==> MEM_DISCARDABLE in sections[i].characteristics)
  {
    hide Pieces, AllPieces, Partition, FlagsOf;
    var pieces := AllPieces(h, sections);
    AllPiecesPartition(h, sections);
    PieceIsHull(h, sections, pieces, k);
    var p := pieces[k];
    assert p.first < i ==> h.End(sections[p.first]) <= h.Address(sections[i]);
    assert i < p.next - 1 ==> h.End(sections[i]) <= h.Address(sections[p.next - 1]);
    MemberFlags(sections[p.first..p.next], i - p.first);
  }

  /** Every section lies within the range it was put in, and the range has all its access flags. */
  lemma {:induction false} SectionCovered(h: OptionalHeader, sections: seq<SectionHeader>, i: nat)
    requires h.Valid() && sections != [] && Sorted(h, sections) && i < |sections|
    ensures exists k ::
              && 0 <= k < |AllPieces(h, sections)|
              && var p := AllPieces(h, sections)[k];
                 && p.first <= i < p.next
                 && p.range.address <= h.Address(sections[i])
                 && h.End(sections[i]) <= p.range.address + p.range.size
                 && sections[i].characteristics - {MEM_DISCARDABLE} <= p.range.characteristics
                 && (MEM_DISCARDABLE in p.range.characteristics ==> MEM_DISCARDABLE in sections[i].characteristics)
  {
    hide Pieces, AllPieces, Partition, FlagsOf;
    var pieces := AllPieces(h, sections);
    AllPiecesPartition(h, sections);
    var k := PieceOf(h, sections, pieces, i);
    MemberWithin(h, sections, k, i);
  }

  lemma {:induction false} PieceIsHull(h: OptionalHeader, sections: seq<SectionHeader>, pieces: seq<Piece>, k: nat)
    requires Partition(h, sections, pieces, 0) && k < |pieces|
    ensures Hull(h, sections, pieces[k])
  {
  }

  lemma {:induction false} MemberFlags(group: seq<SectionHeader>, i: nat)
    requires i < |group|
    ensures group[i].characteristics - {MEM_DISCARDABLE} <= FlagsOf(group)
    ensures MEM_DISCARDABLE in FlagsOf(group) ==> MEM_DISCARDABLE in group[i].characteristics
  {
  }

  // ---------------------------------------------------------------- what is done to each range

  datatype PageOp =
    | Decommit(address: nat, size: nat)
    | Protect(address: nat, size: nat, access: nat, noCache: bool)

  /** The protection constant for a combination of access flags. */
  function Protection(f: Flags): nat {
    match (MEM_WRITE in f, MEM_READ in f, MEM_EXECUTE in f)
    case (false, false, false) => 0x01
    case (false, false, true) => 0x10
    case (false, true, false) => 0x02
    case (false, true, true) => 0x20
    case (true, false, false) => 0x08
    case (true, false, true) => 0x80
    case (true, true, false) => 0x04
    case (true, true, true) => 0x40
  }

  function OpOf(h: OptionalHeader, r: Range): Option<PageOp>
    requires h.Valid()
  {
    if r.size == 0 then None
    else if MEM_DISCARDABLE in r.characteristics then
      if r.address == r.alignedAddress && (r.last || r.size % h.sectionAlignment == 0) then Some(Decommit(r.address, r.size))
      else None
    else Some(Protect(r.address, r.size, Protection(r.characteristics), MEM_NOT_CACHED in r.characteristics))
  }

  /** The system calls made for a list of ranges; the first protection that is refused is the last call. */
  function CallsFor(h: OptionalHeader, pieces: seq<Piece>, allowed: PageOp -> bool): (r: (seq<PageOp>, bool))
    requires h.Valid()
  {
    if pieces == [] then ([], true)
    else
      match OpOf(h, pieces[0].range)
      case None => CallsFor(h, pieces[1..], allowed)
      case Some(op) =>
        if op.Protect? && !allowed(op) then ([op], false)
        else
          var (ops, success) := CallsFor(h, pieces[1..], allowed);
          ([op] + ops, success)
  }

  /** A range that is given back to the system consists of discardable sections only, and no page of it holds a byte of
      another range. */
  lemma {:induction false} OnlyDiscardableDecommitted(h: OptionalHeader, sections: seq<SectionHeader>, k: nat, i: nat)
    requires h.Valid() && sections != [] && Sorted(h, sections) && k < |AllPieces(h, sections)|
    requires var p := AllPieces(h, sections)[k];
             p.first <= i < p.next && OpOf(h, p.range).Some? && OpOf(h, p.range).value.Decommit?
    ensures i < |sections| && MEM_DISCARDABLE in sections[i].characteristics
    ensures h.AlignDown(AllPieces(h, sections)[k].range.address) == AllPieces(h, sections)[k].range.address
  {
    hide Pieces, AllPieces, Partition, FlagsOf;
    AllPiecesPartition(h, sections);
    PieceIsHull(h, sections, AllPieces(h, sections), k);
    var p := AllPieces(h, sections)[k];
    MemberFlags(sections[p.first..p.next], i - p.first);
  }

  // ---------------------------------------------------------------- the code

  method RealSectionSize(h: OptionalHeader, section: SectionHeader) returns (size: nat)
    ensures size == h.RealSize(section)
  {
    size := section.sizeOfRawData;
    if size != 0 {
      return size;
    }
    if CNT_INITIALIZED_DATA in section.characteristics {
      return h.sizeOfInitializedData;
    }
    if CNT_UNINITIALIZED_DATA in section.characteristics {
      return h.sizeOfUninitializedData;
    }
    return 0;
  }

  method FinalizeSection(h: OptionalHeader, data: Range, allowed: PageOp -> bool, before: seq<PageOp>)
    returns (calls: seq<PageOp>, success: bool)
    requires h.Valid()
    ensures match OpOf(h, data)
            case None => calls == before && success
            case Some(op) => calls == before + [op] && success == (op.Decommit? || allowed(op))
  {
    calls := before;
    if data.size == 0 {
      return calls, true;
    }
    if MEM_DISCARDABLE in data.characteristics {
      if data.address == data.alignedAddress && (data.last || data.size % h.sectionAlignment == 0) {
        calls := calls + [Decommit(data.address, data.size)];
      }
      return calls, true;
    }
    var protect := Protect(data.address, data.size, Protection(data.characteristics),
                           MEM_NOT_CACHED in data.characteristics);
    return calls + [protect], allowed(protect);
  }

  function Sized(h: OptionalHeader, s: SectionHeader): SectionHeader {
    s.(physicalAddressOrVirtualSize := h.RealSize(s) % 0x1_0000_0000)
  }

  method FinalizeSections(h: OptionalHeader, sections: array<SectionHeader>, allowed: PageOp -> bool)
    returns (calls: seq<PageOp>, success: bool)
    requires h.Valid() && sections.Length > 0
    modifies sections
    ensures (calls, success) == CallsFor(h, AllPieces(h, old(sections[..])), allowed)
    ensures forall i | 0 <= i < sections.Length ::
              sections[i] == Sized(h, old(sections[i])) || (!success && sections[i] == old(sections[i]))
  {
    hide OpOf, Pieces, CallsFor, Wrap;
    ghost var given := sections[..];
    ghost var all := AllPieces(h, given);
    var size := RealSectionSize(h, sections[0]);
    var address := h.imageOffset + sections[0].physicalAddressOrVirtualSize;
    var data := Range(address, h.AlignDown(address), size, sections[0].characteristics, false);
    ghost var piece := Piece(data, 0, 1);
    sections[0] := sections[0].(physicalAddressOrVirtualSize := size % 0x1_0000_0000);
    calls := [];
    NoCalls(h, all, allowed);
    for i := 1 to sections.Length
      invariant forall j | 0 <= j < i :: sections[j] == Sized(h, given[j])
      invariant forall j | i <= j < sections.Length :: sections[j] == given[j]
      invariant piece.range == data && !data.last
      invariant CallsFor(h, all, allowed) == After(calls, CallsFor(h, Pieces(h, given, i, piece), allowed))
    {
      var s := sections[i];
      var sectionAddress := h.imageOffset + s.physicalAddressOrVirtualSize;
      var alignedAddress := h.AlignDown(sectionAddress);
      var sectionSize := RealSectionSize(h, s);
      sections[i] := s.(physicalAddressOrVirtualSize := sectionSize % 0x1_0000_0000);
      PiecesStep(h, given, i, piece);
      if data.alignedAddress == alignedAddress || Wrap(data.address + data.size) > alignedAddress {
        var flags := data.characteristics + s.characteristics;
        if MEM_DISCARDABLE !in s.characteristics || MEM_DISCARDABLE !in data.characteristics {
          flags := flags - {MEM_DISCARDABLE};
        }
        data := data.(characteristics := flags, size := Wrap(sectionAddress + sectionSize - data.address));
        piece := Piece(data, piece.first, i + 1);
      } else {
        ghost var next := Piece(Fresh(h, s), i, i + 1);
        CallsStep(h, piece, Pieces(h, given, i + 1, next), allowed, calls);
        calls, success := FinalizeSection(h, data, allowed, calls);
        if !success {
          return;
        }
        data := Range(sectionAddress, alignedAddress, sectionSize, s.characteristics, data.last);
        piece := next;
      }
    }
    PiecesEnd(h, given, piece);
    data := data.(last := true);
    CallsStep(h, piece.(range := data), [], allowed, calls);
    NoCalls(h, [], allowed);
    assert forall c: seq<PageOp> :: c + [] == c;
    calls, success := FinalizeSection(h, data, allowed, calls);
  }

  /** Calls already made, followed by others. */
  function After(calls: seq<PageOp>, more: (seq<PageOp>, bool)): (seq<PageOp>, bool) { (calls + more.0, more.1) }

  lemma NoCalls(h: OptionalHeader, pieces: seq<Piece>, allowed: PageOp -> bool)
    requires h.Valid()
    ensures CallsFor(h, [], allowed) == ([], true)
    ensures CallsFor(h, pieces, allowed) == After([], CallsFor(h, pieces, allowed))
  {
    assert [] + CallsFor(h, pieces, allowed).0 == CallsFor(h, pieces, allowed).0;
  }

  lemma {:induction false} PiecesStep(h: OptionalHeader, sections: seq<SectionHeader>, i: nat, current: Piece)
    requires h.Valid() && i < |sections|
    ensures Pieces(h, sections, i, current)
         == if SharesPage(h, current.range, sections[i]) then
              Pieces(h, sections, i + 1, Piece(Extend(h, current.range, sections[i]), current.first, i + 1))
            else [current] + Pieces(h, sections, i + 1, Piece(Fresh(h, sections[i]), i, i + 1))
  {
    hide SharesPage, CombineFlags, Wrap;
  }

  lemma {:induction false} PiecesEnd(h: OptionalHeader, sections: seq<SectionHeader>, current: Piece)
    requires h.Valid()
    ensures Pieces(h, sections, |sections|, current) == [current.(range := current.range.(last := true))]
  {
  }

  lemma {:induction false} CallsStep(h: OptionalHeader, p: Piece, rest: seq<Piece>, allowed: PageOp -> bool,
                                     calls: seq<PageOp>)
    requires h.Valid()
    ensures After(calls, CallsFor(h, [p] + rest, allowed))
         == match OpOf(h, p.range)
            case None => After(calls, CallsFor(h, rest, allowed))
            case Some(op) =>
              if op.Protect? && !allowed(op) then (calls + [op], false)
              else After(calls + [op], CallsFor(h, rest, allowed))
    ensures [p] + [] == [p]
  {
    hide OpOf;
    assert ([p] + rest)[1..] == rest;
    if OpOf(h, p.range).Some? {
      var op := OpOf(h, p.range).value;
      var more := CallsFor(h, rest, allowed);
      assert calls + ([op] + more.0) == (calls + [op]) + more.0;
    }
  }
}
