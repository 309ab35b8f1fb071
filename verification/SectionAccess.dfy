/** What the page protections of Windows let a program do, and what finalizing the sections of an image asks for. */
module SectionAccess {
  import opened Pow
  import opened SectionRanges
  import opened Wrappers

  // ---------------------------------------------------------------- the meaning of the constants

  const PAGE_NOACCESS: nat := 0x01
  const PAGE_READONLY: nat := 0x02
  const PAGE_READWRITE: nat := 0x04
  const PAGE_WRITECOPY: nat := 0x08
  const PAGE_EXECUTE: nat := 0x10
  const PAGE_EXECUTE_READ: nat := 0x20
  const PAGE_EXECUTE_READWRITE: nat := 0x40
  const PAGE_EXECUTE_WRITECOPY: nat := 0x80

  /** The flags of a section header, as its format has them. */
  lemma FlagMasks()
    ensures Pow2(CNT_INITIALIZED_DATA) == 0x40 && Pow2(CNT_UNINITIALIZED_DATA) == 0x80
    ensures Pow2(MEM_DISCARDABLE) == 0x0200_0000 && Pow2(MEM_NOT_CACHED) == 0x0400_0000
    ensures Pow2(MEM_EXECUTE) == 0x2000_0000 && Pow2(MEM_READ) == 0x4000_0000 && Pow2(MEM_WRITE) == 0x8000_0000
  {
    assert Pow2(3) == 8;
    assert Pow2(6) == 8 * Pow2(3);
    assert Pow2(9) == 8 * Pow2(6);
    assert Pow2(12) == 8 * Pow2(9);
    assert Pow2(15) == 8 * Pow2(12);
    assert Pow2(18) == 8 * Pow2(15);
    assert Pow2(21) == 8 * Pow2(18);
    assert Pow2(24) == 8 * Pow2(21);
    assert Pow2(27) == 8 * Pow2(24);
    assert Pow2(30) == 8 * Pow2(27);
  }

  predicate IsAccess(access: nat) {
    access == PAGE_NOACCESS || access == PAGE_EXECUTE || CanRead(access)
  }

  predicate CanRead(access: nat) {
    access in {PAGE_READONLY, PAGE_READWRITE, PAGE_WRITECOPY, PAGE_EXECUTE_READ, PAGE_EXECUTE_READWRITE,
               PAGE_EXECUTE_WRITECOPY}
  }

  predicate CanWrite(access: nat) {
    access in {PAGE_READWRITE, PAGE_WRITECOPY, PAGE_EXECUTE_READWRITE, PAGE_EXECUTE_WRITECOPY}
  }

  /** What is written goes to a copy of one's own. */
  predicate Copies(access: nat) { access in {PAGE_WRITECOPY, PAGE_EXECUTE_WRITECOPY} }

  predicate CanExecute(access: nat) {
    access in {PAGE_EXECUTE, PAGE_EXECUTE_READ, PAGE_EXECUTE_READWRITE, PAGE_EXECUTE_WRITECOPY}
  }

  /** The access lets a program do what the flags say and no more; writing without reading means writing to a copy, which
      can be read. */
  predicate Matches(access: nat, flags: Flags) {
    && IsAccess(access)
    && (CanWrite(access) <==> MEM_WRITE in flags)
    && (CanExecute(access) <==> MEM_EXECUTE in flags)
    && (CanRead(access) <==> MEM_READ in flags || MEM_WRITE in flags)
    && (Copies(access) <==> MEM_WRITE in flags && MEM_READ !in flags)
  }

  lemma ProtectionMatches(flags: Flags)
    ensures Matches(Protection(flags), flags)
  {
  }

  /** No two of the constants let a program do the same. */
  lemma AccessUnique(a: nat, b: nat, flags: Flags)
    requires Matches(a, flags) && Matches(b, flags)
    ensures a == b
  {
  }

  // ---------------------------------------------------------------- the calls

  /** A section lies in the pages that a call is about. */
  predicate Within(h: OptionalHeader, s: SectionHeader, op: PageOp) {
    op.address <= h.Address(s) && h.End(s) <= op.address + op.size
  }

  /** The call lets a program do with its pages what the flags of one section say. */
  predicate Grants(op: PageOp, flags: Flags)
    requires op.Protect?
  {
    && (MEM_WRITE in flags ==> CanWrite(op.access))
    && (MEM_EXECUTE in flags ==> CanExecute(op.access))
    && (MEM_READ in flags ==> CanRead(op.access))
    && (MEM_NOT_CACHED in flags ==> op.noCache)
  }

  ghost predicate Asked(h: OptionalHeader, sections: seq<SectionHeader>, op: PageOp, flag: nat) {
    exists i :: 0 <= i < |sections| && flag in sections[i].characteristics && Within(h, sections[i], op)
  }

  /** Nothing is let a program do that no section of the call asks for. */
  ghost predicate Warranted(h: OptionalHeader, sections: seq<SectionHeader>, op: PageOp)
    requires op.Protect?
  {
    && IsAccess(op.access)
    && (CanWrite(op.access) ==> Asked(h, sections, op, MEM_WRITE))
    && (CanExecute(op.access) ==> Asked(h, sections, op, MEM_EXECUTE))
    && (CanRead(op.access) ==> Asked(h, sections, op, MEM_READ) || Asked(h, sections, op, MEM_WRITE))
    && (op.noCache ==> Asked(h, sections, op, MEM_NOT_CACHED))
  }

  /** The ranges that calls come from. */
  lemma {:induction false} CallFrom(h: OptionalHeader, pieces: seq<Piece>, allowed: PageOp -> bool, op: PageOp)
    returns (k: nat)
    requires h.Valid() && op in CallsFor(h, pieces, allowed).0
    ensures k < |pieces| && OpOf(h, pieces[k].range).Some? && OpOf(h, pieces[k].range).value == op
    decreases |pieces|
  {
    hide OpOf;
    var mine := OpOf(h, pieces[0].range);
    if mine.Some? && mine.value == op {
      k := 0;
    } else {
      k := CallFrom(h, pieces[1..], allowed, op);
      k := k + 1;
    }
  }

  /** When no call is refused, every range has its call. */
  lemma {:induction false} CallOf(h: OptionalHeader, pieces: seq<Piece>, allowed: PageOp -> bool, k: nat)
    requires h.Valid() && CallsFor(h, pieces, allowed).1 && k < |pieces| && OpOf(h, pieces[k].range).Some?
    ensures OpOf(h, pieces[k].range).value in CallsFor(h, pieces, allowed).0
    decreases |pieces|
  {
    hide OpOf;
    if k > 0 {
      CallOf(h, pieces[1..], allowed, k - 1);
    }
  }

  /** Finalizing succeeds exactly when no protection it asks for is refused; a refused one is the last call. */
  lemma {:induction false} SuccessIff(h: OptionalHeader, pieces: seq<Piece>, allowed: PageOp -> bool)
    requires h.Valid()
    ensures var (calls, success) := CallsFor(h, pieces, allowed);
            && (success <==> forall op | op in calls && op.Protect? :: allowed(op))
            && (forall i | 0 <= i < |calls| && calls[i].Protect? && !allowed(calls[i]) :: i == |calls| - 1)
    decreases |pieces|
  {
    hide OpOf;
    if pieces != [] {
      SuccessIff(h, pieces[1..], allowed);
      var calls, more := CallsFor(h, pieces, allowed).0, CallsFor(h, pieces[1..], allowed).0;
      assert |calls| == |more| + 1 ==> forall i | 0 < i < |calls| :: calls[i] == more[i - 1];
    }
  }

  lemma {:induction false} PieceCall(h: OptionalHeader, r: Range)
    requires h.Valid() && r.size > 0 && MEM_DISCARDABLE !in r.characteristics
    ensures OpOf(h, r)
         == Some(Protect(r.address, r.size, Protection(r.characteristics), MEM_NOT_CACHED in r.characteristics))
  {
  }

  /** When nothing is refused, every section that is to stay and has bytes is given the access that its flags ask for. */
  lemma {:induction false} GrantedAsAsked(h: OptionalHeader, sections: seq<SectionHeader>, allowed: PageOp -> bool, i: nat)
    requires h.Valid() && sections != [] && Sorted(h, sections) && CallsFor(h, AllPieces(h, sections), allowed).1
    requires i < |sections| && MEM_DISCARDABLE !in sections[i].characteristics && h.RealSize(sections[i]) > 0
    ensures exists op ::
              && op in CallsFor(h, AllPieces(h, sections), allowed).0
              && op.Protect? && Within(h, sections[i], op) && Grants(op, sections[i].characteristics)
  {
    hide AllPieces, CallsFor, Protection, OpOf, Matches;
    AllPiecesPartition(h, sections);
    var k := SomePiece(h, sections, i);
    var r := AllPieces(h, sections)[k].range;
    MemberWithin(h, sections, k, i);
    PieceCall(h, r);
    CallOf(h, AllPieces(h, sections), allowed, k);
    var op := OpOf(h, r).value;
    ProtectionMatches(r.characteristics);
    MatchGrants(op, r.characteristics, sections[i].characteristics);
    assert op in CallsFor(h, AllPieces(h, sections), allowed).0;
  }

  lemma MatchGrants(op: PageOp, all: Flags, flags: Flags)
    requires op.Protect? && Matches(op.access, all) && op.noCache == (MEM_NOT_CACHED in all)
    requires flags - {MEM_DISCARDABLE} <= all && MEM_DISCARDABLE !in flags
    ensures Grants(op, flags)
  {
  }

  lemma {:induction false} SomePiece(h: OptionalHeader, sections: seq<SectionHeader>, i: nat) returns (k: nat)
    requires h.Valid() && sections != [] && Sorted(h, sections) && i < |sections|
    ensures k < |AllPieces(h, sections)| && AllPieces(h, sections)[k].first <= i < AllPieces(h, sections)[k].next
  {
    hide AllPieces, Partition;
    AllPiecesPartition(h, sections);
    k := PieceOf(h, sections, AllPieces(h, sections), i);
  }

  lemma {:induction false} SomeMember(group: seq<SectionHeader>, flag: nat) returns (i: nat)
    requires flag in FlagsOf(group)
    ensures i < |group| && flag in group[i].characteristics
  {
    i :| 0 <= i < |group| && flag in group[i].characteristics;
  }

  /** A flag of a range is the flag of a section in it. */
  lemma {:induction false} FlagAsked(h: OptionalHeader, sections: seq<SectionHeader>, k: nat, op: PageOp, flag: nat)
    requires h.Valid() && sections != [] && Sorted(h, sections) && k < |AllPieces(h, sections)|
    requires var r := AllPieces(h, sections)[k].range;
             flag in r.characteristics && op.address == r.address && op.size == r.size
    ensures Asked(h, sections, op, flag)
  {
    hide AllPieces, Partition, FlagsOf;
    AllPiecesPartition(h, sections);
    PieceIsHull(h, sections, AllPieces(h, sections), k);
    var p := AllPieces(h, sections)[k];
    var i := SomeMember(sections[p.first..p.next], flag);
    MemberWithin(h, sections, k, p.first + i);
    assert flag in sections[p.first + i].characteristics && Within(h, sections[p.first + i], op);
  }

  /** Nothing is granted that no section of the range asks for. */
  lemma {:induction false} OnlyWarranted(h: OptionalHeader, sections: seq<SectionHeader>, allowed: PageOp -> bool,
                                         op: PageOp)
    requires h.Valid() && sections != [] && Sorted(h, sections)
    requires op in CallsFor(h, AllPieces(h, sections), allowed).0 && op.Protect?
    ensures Warranted(h, sections, op)
  {
    hide AllPieces, CallsFor, Protection, Asked, CanWrite, CanRead, CanExecute, IsAccess;
    var k := CallFrom(h, AllPieces(h, sections), allowed, op);
    var r := AllPieces(h, sections)[k].range;
    ProtectionMatches(r.characteristics);
    forall flag: nat | flag in r.characteristics
      ensures Asked(h, sections, op, flag)
    {
      FlagAsked(h, sections, k, op, flag);
    }
  }

  /** A page that a call is about holds no byte of a section that does not lie in the range of the call: the pages of a
      section are protected by one call, and pages given back to the system held discardable sections only. */
  lemma {:induction false} PageMates(h: OptionalHeader, sections: seq<SectionHeader>, allowed: PageOp -> bool, op: PageOp,
                                     j: nat, x: nat, y: nat)
    requires h.Valid() && sections != [] && Sorted(h, sections) && j < |sections|
    requires op in CallsFor(h, AllPieces(h, sections), allowed).0
    requires op.address <= x < op.address + op.size && h.Address(sections[j]) <= y < h.End(sections[j])
    requires h.AlignDown(x) == h.AlignDown(y)
    ensures Within(h, sections[j], op)
    ensures op.Decommit? ==> MEM_DISCARDABLE in sections[j].characteristics
  {
    hide AllPieces, CallsFor, Protection;
    var k := CallFrom(h, AllPieces(h, sections), allowed, op);
    var l := SomePiece(h, sections, j);
    MemberWithin(h, sections, l, j);
    if k < l {
      PagesApart(h, sections, k, l, x, y);
    } else if l < k {
      PagesApart(h, sections, l, k, y, x);
    }
  }

  /** When nothing is refused, a range of discardable sections that covers whole pages, or is the last one and begins on a
      page, is given back. */
  lemma {:induction false} GivenBack(h: OptionalHeader, sections: seq<SectionHeader>, allowed: PageOp -> bool, k: nat)
    requires h.Valid() && sections != [] && Sorted(h, sections) && CallsFor(h, AllPieces(h, sections), allowed).1
    requires k < |AllPieces(h, sections)|
    requires var p := AllPieces(h, sections)[k];
             && p.range.size > 0 && p.range.address % h.sectionAlignment == 0
             && (k == |AllPieces(h, sections)| - 1 || p.range.size % h.sectionAlignment == 0)
             && forall i | p.first <= i < p.next && i < |sections| :: MEM_DISCARDABLE in sections[i].characteristics
    ensures var r := AllPieces(h, sections)[k].range;
            Decommit(r.address, r.size) in CallsFor(h, AllPieces(h, sections), allowed).0
  {
    hide AllPieces, CallsFor, Partition, FlagsOf, OpOf;
    AllPiecesPartition(h, sections);
    PieceIsHull(h, sections, AllPieces(h, sections), k);
    PieceIsLast(h, sections, AllPieces(h, sections), k);
    var p := AllPieces(h, sections)[k];
    AllAreDiscardable(sections, p.first, p.next);
    DecommitCall(h, p.range);
    CallOf(h, AllPieces(h, sections), allowed, k);
  }

  lemma {:induction false} AllAreDiscardable(sections: seq<SectionHeader>, first: nat, next: nat)
    requires first < next <= |sections|
    requires forall i | first <= i < next :: MEM_DISCARDABLE in sections[i].characteristics
    ensures MEM_DISCARDABLE in FlagsOf(sections[first..next])
  {
    var group := sections[first..next];
    assert forall i | 0 <= i < |group| :: group[i] == sections[first + i];
    assert MEM_DISCARDABLE in group[0].characteristics;
  }

  lemma DecommitCall(h: OptionalHeader, r: Range)
    requires h.Valid() && r.size > 0 && MEM_DISCARDABLE in r.characteristics
    requires r.address % h.sectionAlignment == 0 && r.alignedAddress == h.AlignDown(r.address)
    requires r.last || r.size % h.sectionAlignment == 0
    ensures OpOf(h, r) == Some(Decommit(r.address, r.size))
  {
  }

  lemma {:induction false} PieceIsLast(h: OptionalHeader, sections: seq<SectionHeader>, pieces: seq<Piece>, k: nat)
    requires Partition(h, sections, pieces, 0) && k < |pieces|
    ensures pieces[k].range.last <==> k == |pieces| - 1
  {
  }
}
