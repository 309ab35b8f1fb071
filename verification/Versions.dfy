/** Dotted version numbers: the updater's comparison (updater/versions.go) and the fetcher's packing into 64 bits
    (installer/fetcher/filelist.c). */
module Versions {
  import opened CInt
  import opened Pow
  import opened Text
  import opened Wrappers

  const PART_LIMIT: nat := 0x1_0000
  const ULONG_MAX: nat := 0xffff_ffff

  datatype Error = EmptyVersionPart | InvalidVersionPart

  // ---------------------------------------------------------------- the updater

  /** Part i, parts that are missing counting as zero. */
  function Part(parts: seq<string>, i: nat): Result<nat, Error> {
    if i >= |parts| then Ok(0)
    else if parts[i] == "" then Err(EmptyVersionPart)
    else
      match ParseUint(parts[i], PART_LIMIT)
      case Some(v) => Ok(v)
      case None => Err(InvalidVersionPart)
  }

  function Max(a: nat, b: nat): nat { if a < b then b else a }

  function NewerFrom(cs: seq<string>, os: seq<string>, i: nat): Result<bool, Error>
    decreases Max(|cs|, |os|) - i
  {
    if i >= Max(|cs|, |os|) then Ok(false)
    else
      match (Part(cs, i), Part(os, i))
      case (Err(e), _) => Err(e)
      case (_, Err(e)) => Err(e)
      case (Ok(cP), Ok(oP)) => if cP == oP then NewerFrom(cs, os, i + 1) else Ok(cP > oP)
  }

  method VersionNewerThanUs(candidate: string, ours: string) returns (r: Result<bool, Error>)
    ensures r == NewerFrom(Split(candidate, '.'), Split(ours, '.'), 0)
  {
    hide Split, ParseUint;
    var candidateParts, ourParts := Split(candidate, '.'), Split(ours, '.');
    for i := 0 to Max(|ourParts|, |candidateParts|)
      invariant NewerFrom(candidateParts, ourParts, 0) == NewerFrom(candidateParts, ourParts, i)
    {
      var cP, oP := 0, 0;
      if i < |candidateParts| {
        if candidateParts[i] == "" { return Err(EmptyVersionPart); }
        var v := ParseUint(candidateParts[i], PART_LIMIT);
        if v.None? { return Err(InvalidVersionPart); }
        cP := v.value;
      }
      if i < |ourParts| {
        if ourParts[i] == "" { return Err(EmptyVersionPart); }
        var v := ParseUint(ourParts[i], PART_LIMIT);
        if v.None? { return Err(InvalidVersionPart); }
        oP := v.value;
      }
      if cP == oP { continue; }
      return Ok(cP > oP);
    }
    return Ok(false);
  }

  /** All parts are numbers below 2^16. */
  predicate Numeric(parts: seq<string>) { forall i | 0 <= i < |parts| :: Part(parts, i).Ok? }

  function Values(parts: seq<string>): (vs: seq<nat>)
    requires Numeric(parts)
    ensures |vs| == |parts| && forall i | 0 <= i < |vs| :: vs[i] == Part(parts, i).value
  {
    seq(|parts|, i requires 0 <= i < |parts| => Part(parts, i).value)
  }

  function At(vs: seq<nat>, i: nat): nat { if i < |vs| then vs[i] else 0 }

  /** The parts agree up to some point, where those of the first are larger. */
  ghost predicate Newer(a: seq<nat>, b: seq<nat>) {
    exists k: nat :: At(a, k) > At(b, k) && forall j: nat | j < k :: At(a, j) == At(b, j)
  }

  lemma {:induction false} NewerFromIs(cs: seq<string>, os: seq<string>, i: nat)
    requires Numeric(cs) && Numeric(os)
    requires i <= Max(|cs|, |os|) && forall j: nat | j < i :: At(Values(cs), j) == At(Values(os), j)
    ensures NewerFrom(cs, os, i) == Ok(Newer(Values(cs), Values(os)))
    decreases Max(|cs|, |os|) - i
  {
    hide ParseUint;
    var a, b := Values(cs), Values(os);
    if i < Max(|cs|, |os|) {
      assert Part(cs, i) == Ok(At(a, i)) && Part(os, i) == Ok(At(b, i));
      if At(a, i) == At(b, i) {
        NewerFromIs(cs, os, i + 1);
      } else if At(a, i) < At(b, i) {
        forall k: nat | At(a, k) > At(b, k)
          ensures exists j: nat :: j < k && At(a, j) != At(b, j)
        {
          assert k > i;
        }
      }
    }
  }

  /** The comparison is the lexicographic order of the parts, missing parts being zero. */
  lemma {:induction false} ComparisonIsOrder(candidate: string, ours: string)
    requires Numeric(Split(candidate, '.')) && Numeric(Split(ours, '.'))
    ensures NewerFrom(Split(candidate, '.'), Split(ours, '.'), 0)
            == Ok(Newer(Values(Split(candidate, '.')), Values(Split(ours, '.'))))
  {
    hide Split, ParseUint, NewerFrom, Newer;
    NewerFromIs(Split(candidate, '.'), Split(ours, '.'), 0);
  }

  // ---------------------------------------------------------------- the fetcher

  predicate IsCSpace(c: char) { c == ' ' || '\t' <= c <= '\r' }

  function SkipSpace(s: string, p: nat): (q: nat)
    requires p <= |s|
    ensures p <= q <= |s|
    decreases |s| - p
  {
    if p < |s| && IsCSpace(s[p]) then SkipSpace(s, p + 1) else p
  }

  function SkipDigits(s: string, p: nat): (q: nat)
    requires p <= |s|
    ensures p <= q <= |s| && AllDigits(s[p..q])
    ensures q < |s| ==> !IsDigit(s[q])
    decreases |s| - p
  {
    if p < |s| && IsDigit(s[p]) then SkipDigits(s, p + 1) else p
  }

  /** strtoul in base 10 where an unsigned long has 32 bits: the value and where reading stopped. */
  function Strtoul(s: string, p: nat): (r: (nat, nat))
    requires p <= |s|
    ensures r.0 <= ULONG_MAX && p <= r.1 <= |s|
  {
    var q := SkipSpace(s, p);
    var signed := q < |s| && (s[q] == '-' || s[q] == '+');
    var from := if signed then q + 1 else q;
    var end := SkipDigits(s, from);
    if end == from then (0, p)
    else
      var v := DigitsValue(s[from..end]);
      if v > ULONG_MAX then (ULONG_MAX, end)
      else if signed && s[q] == '-' && v > 0 then (ULONG_MAX + 1 - v, end)
      else (v, end)
  }

  /** White space and a sign are read over, and the digits that follow are the number: at most 2^32 - 1, and a negative
      one modulo 2^32. */
  lemma {:induction false} StrtoulIs(before: string, space: string, sign: string, digits: string, rest: string)
    requires (forall i | 0 <= i < |space| :: space[i] in {' ', '\t', '\n', '\U{0b}', '\U{0c}', '\r'})
    requires sign in {"", "+", "-"} && digits != "" && AllDigits(digits) && (rest != "" ==> !IsDigit(rest[0]))
    ensures var v := DigitsValue(digits);
            Strtoul(before + space + sign + digits + rest, |before|)
            == (if v >= 0x1_0000_0000 then 0xffff_ffff
                else if sign == "-" && v != 0 then 0x1_0000_0000 - v else v,
                |before + space + sign + digits|)
  {
    hide DigitsValue, SkipSpace, SkipDigits, Strtoul, IsCSpace;
    var s := before + space + sign + digits + rest;
    var p := |before|;
    var q := p + |space|;
    var from := q + |sign|;
    Laid(before, space, sign, digits, rest);
    forall i | p <= i < q
      ensures IsCSpace(s[i])
    {
      CSpaces(space[i - p]);
    }
    CSpaces(s[q]);
    SpaceSkipped(s, p, q);
    DigitsSkipped(s, from, from + |digits|);
    StrtoulAt(s, p, q, from, from + |digits|, sign);
  }

  lemma CSpaces(c: char)
    ensures IsCSpace(c) <==> c in {' ', '\t', '\n', '\U{0b}', '\U{0c}', '\r'}
  {
  }

  lemma {:induction false} Laid(before: string, space: string, sign: string, digits: string, rest: string)
    requires sign in {"", "+", "-"} && digits != "" && AllDigits(digits)
    ensures var s := before + space + sign + digits + rest;
            var q := |before| + |space|;
            var from := q + |sign|;
            && (forall i | |before| <= i < q :: s[i] == space[i - |before|])
            && (sign != "" ==> s[q] == sign[0]) && (sign == "" ==> IsDigit(s[q]))
            && s[from..from + |digits|] == digits && (forall i | from <= i < from + |digits| :: IsDigit(s[i]))
            && (rest != "" ==> s[from + |digits|] == rest[0])
  {
    var s, from := before + space + sign + digits + rest, |before| + |space| + |sign|;
    assert forall i | 0 <= i < |digits| :: s[from + i] == digits[i] && IsDigit(digits[i]);
    assert s[from..from + |digits|] == digits;
    forall i | from <= i < from + |digits|
      ensures IsDigit(s[i])
    {
      assert s[i] == digits[i - from];
    }
  }

  lemma StrtoulAt(s: string, p: nat, q: nat, from: nat, end: nat, sign: string)
    requires p <= q < |s| && SkipSpace(s, p) == q && sign in {"", "+", "-"}
    requires if sign == "" then from == q && IsDigit(s[q]) else from == q + 1 && s[q] == sign[0]
    requires from < end <= |s| && SkipDigits(s, from) == end && AllDigits(s[from..end])
    ensures var v := DigitsValue(s[from..end]);
            Strtoul(s, p) == (if v >= 0x1_0000_0000 then 0xffff_ffff
                              else if sign == "-" && v != 0 then 0x1_0000_0000 - v else v, end)
  {
    hide DigitsValue, SkipSpace, SkipDigits;
  }

  lemma SpaceSkipped(s: string, p: nat, q: nat)
    requires p <= q < |s| && !IsCSpace(s[q]) && forall i | p <= i < q :: IsCSpace(s[i])
    ensures SkipSpace(s, p) == q
    decreases q - p
  {
    if p < q { SpaceSkipped(s, p + 1, q); }
  }

  lemma DigitsSkipped(s: string, p: nat, q: nat)
    requires p <= q <= |s| && (q < |s| ==> !IsDigit(s[q])) && forall i | p <= i < q :: IsDigit(s[i])
    ensures SkipDigits(s, p) == q
    decreases q - p
  {
    if p < q { DigitsSkipped(s, p + 1, q); }
  }

  function Shift(k: nat): nat
    requires k < 4
  {
    if k == 0 then 0x1_0000_0000_0000 else if k == 1 then 0x1_0000_0000 else if k == 2 then 0x1_0000 else 1
  }

  /** The loop of parse_version, at component k. */
  function ParseFrom(s: string, p: nat, limit: nat, k: nat, version: nat): nat
    requires p <= limit < |s| && k < 4
    decreases 4 - k
  {
    if s[p] == '-' || s[p] == '+' then 0
    else
      var (nibble, end) := Strtoul(s, p);
      if nibble >= PART_LIMIT then 0
      else
        var version' := version + nibble * Shift(k);
        if end >= limit then version'
        else if s[end] != '.' then 0
        else if k == 3 then version'
        else ParseFrom(s, end + 1, limit, k + 1, version')
  }

  function ParseVersion(s: string, limit: nat): nat
    requires limit < |s|
  {
    ParseFrom(s, 0, limit, 0, 0)
  }

  /** Setting bits below all the bits set so far. */
  lemma {:induction false} OrComponent(version: nat, nibble: nat, k: nat)
    requires k < 4 && nibble < PART_LIMIT && version % (Shift(k) * PART_LIMIT) == 0
    ensures Or(version, nibble * Shift(k)) == version + nibble * Shift(k)
  {
    hide Or, Pow2;
    ShiftPower(k);
    OrSum(version, nibble * Shift(k));
    OrFree(version, nibble * Shift(k), 64 - 16 * k);
  }

  lemma {:induction false} OrFree(version: nat, low: nat, p: nat)
    requires low < Pow2(p) && version % Pow2(p) == 0
    ensures And(version, low) == 0
  {
    hide And, Pow2;
    Whole(version, Pow2(p));
    AndApart(version / Pow2(p), low, p);
  }

  lemma Whole(v: nat, m: nat)
    requires m > 0 && v % m == 0
    ensures v == m * (v / m)
  {
  }

  lemma ShiftPower(k: nat)
    requires k < 4
    ensures Pow2(64 - 16 * k) == Shift(k) * PART_LIMIT
  {
    hide Pow2;
    Pow16(0);
    Pow16(16);
    Pow16(32);
    Pow16(48);
    PowZero();
  }

  lemma PowZero()
    ensures Pow2(0) == 1
  {
  }

  lemma Pow16(k: nat)
    ensures Pow2(k + 16) == 0x1_0000 * Pow2(k)
  {
    hide Pow2;
    Pow4(k);
    Pow4(k + 4);
    Pow4(k + 8);
    Pow4(k + 12);
  }

  lemma Pow4(k: nat)
    ensures Pow2(k + 4) == 16 * Pow2(k)
  {
    assert Pow2(k + 2) == 4 * Pow2(k);
  }

  /** parse_version on memory that holds the version up to `limit` and a character that ends it. */
  method ParseVersionLoop(s: string, limit: nat) returns (version: nat)
    requires limit < |s|
    ensures version == ParseVersion(s, limit)
  {
    hide Strtoul, Or;
    version := 0;
    var str := 0;
    for k := 0 to 4
      invariant 0 <= str <= limit
      invariant k < 4 ==> ParseVersion(s, limit) == ParseFrom(s, str, limit, k, version)
      invariant k == 4 ==> version == ParseVersion(s, limit)
      invariant k < 4 ==> version % (Shift(k) * PART_LIMIT) == 0
    {
      if s[str] == '-' || s[str] == '+' { return 0; }
      var (nibble, end) := Strtoul(s, str);
      if nibble >= PART_LIMIT { return 0; }
      OrComponent(version, nibble, k);
      Aligned(version, nibble, k);
      version := Or(version, nibble * Shift(k));
      if end >= limit { return; }
      if s[end] != '.' { return 0; }
      str := end + 1;
    }
  }

  lemma Aligned(version: nat, nibble: nat, k: nat)
    requires k < 4 && version % (Shift(k) * PART_LIMIT) == 0
    ensures k < 3 ==> (version + nibble * Shift(k)) % (Shift(k + 1) * PART_LIMIT) == 0
  {
    assert k < 3 ==> Shift(k) == Shift(k + 1) * PART_LIMIT;
    var h := version / (Shift(k) * PART_LIMIT);
    assert version == Shift(k) * (PART_LIMIT * h);
    Multiple(Shift(k), PART_LIMIT * h + nibble);
  }

  lemma Multiple(m: nat, x: nat)
    requires m > 0
    ensures (m * x) % m == 0
  {
    ModUnique(m * x, m, x, 0);
  }

  // ---------------------------------------------------------------- the two agree

  /** The value of components k to 3 of a packed version. */
  function PackFrom(vs: seq<nat>, k: nat): nat
    requires k <= 4 && |vs| <= 4 - k
  {
    if vs == [] then 0 else vs[0] * Shift(k) + PackFrom(vs[1..], k + 1)
  }

  lemma {:induction false} StrtoulDigits(s: string, p: nat, n: nat)
    requires p + n < |s| && n > 0 && AllDigits(s[p..p + n]) && s[p + n] == '.' && DigitsValue(s[p..p + n]) <= ULONG_MAX
    ensures Strtoul(s, p) == (DigitsValue(s[p..p + n]), p + n) && IsDigit(s[p])
  {
    hide DigitsValue;
    assert s[p] == s[p..p + n][0];
    SkipDigitsTo(s, p, p + n);
  }

  lemma {:induction false} SkipDigitsTo(s: string, p: nat, e: nat)
    requires p <= e < |s| && AllDigits(s[p..e]) && !IsDigit(s[e])
    ensures SkipDigits(s, p) == e
    decreases e - p
  {
    if p < e {
      assert s[p] == s[p..e][0];
      assert s[p + 1..e] == s[p..e][1..];
      SkipDigitsTo(s, p + 1, e);
    }
  }

  /** Reading a dotted version that fits in the components left. */
  lemma {:induction false} ParseFromIs(s: string, p: nat, limit: nat, k: nat, version: nat)
    requires p <= limit < |s| && s[limit] == '.'
    requires var parts := Split(s[p..limit], '.'); Numeric(parts) && |parts| + k <= 4
    ensures k < 4 && ParseFrom(s, p, limit, k, version) == version + PackFrom(Values(Split(s[p..limit], '.')), k)
    decreases limit - p
  {
    hide DigitsValue, Strtoul, Split, ParseFrom, Part, AllDigits, PackFrom;
    var v := s[p..limit];
    var parts := Split(v, '.');
    var i := SplitFirst(v);
    assert Part(parts, 0).Ok?;
    PartOk(parts);
    assert v[..i] == s[p..p + i];
    assert s[p + i] == '.' by { if i < |v| { assert v[i] == s[p + i]; } }
    var nibble := Part(parts, 0).value;
    StrtoulDigits(s, p, i);
    NumericTail(parts);
    ParseStep(s, p, limit, k, version, nibble, p + i);
    PackFirst(Values(parts), k);
    if i < |v| {
      assert v[i + 1..] == s[p + i + 1..limit];
      ParseFromIs(s, p + i + 1, limit, k + 1, version + nibble * Shift(k));
    } else {
      PackNothing(k + 1);
    }
  }

  lemma {:induction false} SplitFirst(v: string) returns (i: nat)
    ensures i <= |v| && Split(v, '.')[0] == v[..i] && (i < |v| ==> v[i] == '.')
    ensures Split(v, '.')[1..] == if i < |v| then Split(v[i + 1..], '.') else []
  {
    i := Find(v, '.');
  }

  lemma {:induction false} PartOk(parts: seq<string>)
    requires parts != [] && Part(parts, 0).Ok?
    ensures parts[0] != "" && AllDigits(parts[0]) && DigitsValue(parts[0]) == Part(parts, 0).value < PART_LIMIT
  {
    hide DigitsValue, AllDigits;
  }

  lemma {:induction false} ParseStep(s: string, p: nat, limit: nat, k: nat, version: nat, nibble: nat, end: nat)
    requires p <= end <= limit < |s| && k < 4 && Strtoul(s, p) == (nibble, end) && nibble < PART_LIMIT
    requires IsDigit(s[p]) && s[end] == '.' && (k == 3 ==> end == limit)
    ensures ParseFrom(s, p, limit, k, version)
         == if end == limit then version + nibble * Shift(k)
            else ParseFrom(s, end + 1, limit, k + 1, version + nibble * Shift(k))
  {
    hide Strtoul;
  }

  lemma PackFirst(vs: seq<nat>, k: nat)
    requires k < 4 && 0 < |vs| <= 4 - k
    ensures PackFrom(vs, k) == vs[0] * Shift(k) + PackFrom(vs[1..], k + 1)
  {
  }

  lemma PackNothing(k: nat)
    requires k <= 4
    ensures PackFrom([], k) == 0
  {
  }

  lemma {:induction false} NumericTail(parts: seq<string>)
    requires parts != [] && Numeric(parts)
    ensures Numeric(parts[1..]) && Values(parts) == [Part(parts, 0).value] + Values(parts[1..])
  {
    hide ParseUint;
    forall i | 0 <= i < |parts| - 1
      ensures Part(parts[1..], i) == Part(parts, i + 1)
    {
    }
  }

  /** parse_version packs a version of one to four numbers below 2^16. */
  lemma {:induction false} ParseVersionPacks(s: string, limit: nat)
    requires limit < |s| && s[limit] == '.'
    requires var parts := Split(s[..limit], '.'); Numeric(parts) && |parts| <= 4
    ensures ParseVersion(s, limit) == PackFrom(Values(Split(s[..limit], '.')), 0)
    ensures var vs := Values(Split(s[..limit], '.'));
            ParseVersion(s, limit)
            == At(vs, 0) * 0x1_0000_0000_0000 + At(vs, 1) * 0x1_0000_0000 + At(vs, 2) * 0x1_0000 + At(vs, 3)
  {
    hide Split, PackFrom, ParseVersion, Part, At;
    assert s[0..limit] == s[..limit];
    PackedFrom(s, limit);
    ValuesSmall(Split(s[..limit], '.'));
    PackIs(Values(Split(s[..limit], '.')));
  }

  lemma {:induction false} PackedFrom(s: string, limit: nat)
    requires limit < |s| && s[limit] == '.' && s[0..limit] == s[..limit]
    requires var parts := Split(s[..limit], '.'); Numeric(parts) && |parts| <= 4
    ensures ParseVersion(s, limit) == PackFrom(Values(Split(s[..limit], '.')), 0)
  {
    ParseFromIs(s, 0, limit, 0, 0);
  }

  ghost predicate Small(vs: seq<nat>) { |vs| <= 4 && forall i | 0 <= i < |vs| :: vs[i] < PART_LIMIT }

  lemma {:induction false} PackIs(vs: seq<nat>)
    requires Small(vs)
    ensures PackFrom(vs, 0) == ((At(vs, 0) * 0x1_0000 + At(vs, 1)) * 0x1_0000 + At(vs, 2)) * 0x1_0000 + At(vs, 3)
  {
    assert |vs| > 0 ==> PackFrom(vs, 0) == vs[0] * Shift(0) + PackFrom(vs[1..], 1);
    assert |vs| > 1 ==> PackFrom(vs[1..], 1) == vs[1] * Shift(1) + PackFrom(vs[2..], 2) by {
      if |vs| > 1 { assert vs[1..][1..] == vs[2..]; }
    }
    assert |vs| > 2 ==> PackFrom(vs[2..], 2) == vs[2] * Shift(2) + PackFrom(vs[3..], 3) by {
      if |vs| > 2 { assert vs[2..][1..] == vs[3..]; }
    }
    assert |vs| > 3 ==> PackFrom(vs[3..], 3) == vs[3] by {
      if |vs| > 3 { assert vs[3..][1..] == []; }
    }
  }

  /** Packed versions are ordered as the versions are. */
  lemma {:induction false} PackOrder(a: seq<nat>, b: seq<nat>)
    requires Small(a) && Small(b)
    ensures PackFrom(a, 0) > PackFrom(b, 0) <==> Newer(a, b)
  {
    hide PackFrom, Newer;
    PackIs(a);
    PackIs(b);
    FourOrder(At(a, 0), At(a, 1), At(a, 2), At(a, 3), At(b, 0), At(b, 1), At(b, 2), At(b, 3));
    NewerFour(a, b);
  }

  lemma FourOrder(a0: nat, a1: nat, a2: nat, a3: nat, b0: nat, b1: nat, b2: nat, b3: nat)
    requires a0 < PART_LIMIT && a1 < PART_LIMIT && a2 < PART_LIMIT && a3 < PART_LIMIT
    requires b0 < PART_LIMIT && b1 < PART_LIMIT && b2 < PART_LIMIT && b3 < PART_LIMIT
    ensures ((a0 * 0x1_0000 + a1) * 0x1_0000 + a2) * 0x1_0000 + a3 > ((b0 * 0x1_0000 + b1) * 0x1_0000 + b2) * 0x1_0000 + b3
       <==> a0 > b0 || (a0 == b0 && (a1 > b1 || (a1 == b1 && (a2 > b2 || (a2 == b2 && a3 > b3)))))
  {
  }

  lemma {:induction false} NewerFour(a: seq<nat>, b: seq<nat>)
    requires Small(a) && Small(b)
    ensures Newer(a, b) <==>
            || At(a, 0) > At(b, 0)
            || (At(a, 0) == At(b, 0)
                && (At(a, 1) > At(b, 1)
                    || (At(a, 1) == At(b, 1)
                        && (At(a, 2) > At(b, 2) || (At(a, 2) == At(b, 2) && At(a, 3) > At(b, 3))))))
  {
    if Newer(a, b) {
      var k: nat :| At(a, k) > At(b, k) && forall j: nat | j < k :: At(a, j) == At(b, j);
      assert k < 4;
    }
    NewerAt(a, b, 0);
    NewerAt(a, b, 1);
    NewerAt(a, b, 2);
    NewerAt(a, b, 3);
  }

  lemma NewerAt(a: seq<nat>, b: seq<nat>, k: nat)
    ensures At(a, k) > At(b, k) && (forall j: nat | j < k :: At(a, j) == At(b, j)) ==> Newer(a, b)
  {
  }

  /** On versions of one to four numbers below 2^16 the fetcher's order is the updater's. */
  lemma {:induction false} FetcherAgreesWithUpdater(s: string, m: nat, t: string, n: nat)
    requires m < |s| && s[m] == '.' && n < |t| && t[n] == '.'
    requires var c, o := Split(s[..m], '.'), Split(t[..n], '.'); Numeric(c) && Numeric(o) && |c| <= 4 && |o| <= 4
    ensures NewerFrom(Split(s[..m], '.'), Split(t[..n], '.'), 0) == Ok(ParseVersion(s, m) > ParseVersion(t, n))
  {
    hide Split, NewerFrom, ParseVersion, PackFrom, Newer, Values;
    ComparisonIsOrder(s[..m], t[..n]);
    ParseVersionPacks(s, m);
    ParseVersionPacks(t, n);
    ValuesSmall(Split(s[..m], '.'));
    ValuesSmall(Split(t[..n], '.'));
    PackOrder(Values(Split(s[..m], '.')), Values(Split(t[..n], '.')));
  }

  lemma {:induction false} ValuesSmall(parts: seq<string>)
    requires Numeric(parts) && |parts| <= 4
    ensures Small(Values(parts))
  {
  }
}
