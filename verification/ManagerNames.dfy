/** Allocating a Windows tunnel name for a profile (manager/protocol_v1.go). `isSpace` and `isPunct` stand for the
    predicates of Go's package unicode. */
module ManagerNames {
  import opened Text
  import opened TunnelName
  import opened Wrappers

  const FIRST_INDEX: nat := 2
  const END_INDEX: nat := 100000
  const FALLBACK := "WireRoute"

  datatype Error = InvalidProfileName | ProfileNameConflict | ListFailed

  predicate DotOrDash(c: char) { c == '.' || c == '-' }

  /** strings.Trim and strings.TrimRight with the cut set ".-". */
  function TrimEnd(s: string): string { TrimRight(s, DotOrDash) }

  function TrimBoth(s: string): string { TrimEnd(TrimLeft(s, DotOrDash)) }

  function Cut32(s: string): string { if |s| > MAXIMUM_LENGTH then TrimEnd(s[..MAXIMUM_LENGTH]) else s }

  /** A text of more than 32 characters is cut to 32, and back to its last character that is neither dot nor dash. */
  lemma {:induction false} CutIs(s: string)
    ensures var r := Cut32(s);
            && r <= s && |r| <= 32 && (|s| <= 32 ==> r == s)
            && (|s| > 32 && r != "" ==> !DotOrDash(r[|r| - 1]))
            && forall j | |r| <= j < |s| && j < 32 :: DotOrDash(s[j])
  {
    if |s| > MAXIMUM_LENGTH {
      assert forall j | 0 <= j < 32 :: s[..MAXIMUM_LENGTH][j] == s[j];
    }
  }

  /** Trimming takes the dots and dashes from both ends. */
  lemma {:induction false} TrimBothIs(pre: string, s: string, post: string)
    requires forall i | 0 <= i < |pre| :: pre[i] == '.' || pre[i] == '-'
    requires forall i | 0 <= i < |post| :: post[i] == '.' || post[i] == '-'
    requires s != "" && s[0] !in {'.', '-'} && s[|s| - 1] !in {'.', '-'}
    ensures TrimBoth(pre + s + post) == s
  {
    hide TrimLeft, TrimRight;
    assert pre + s + post == pre + (s + post);
    TrimLeftOf(pre, s + post, DotOrDash);
    TrimRightOf(s, post, DotOrDash);
  }

  // ---------------------------------------------------------------- the base name

  /** The builder and whether it just got a separator. */
  function Kept(name: string, isGap: char -> bool, built: string, lastSeparator: bool): string
    decreases |name|
  {
    if name == "" then built
    else if IsNameChar(name[0]) then Kept(name[1..], isGap, built + [name[0]], false)
    else if isGap(name[0]) && built != "" && !lastSeparator then Kept(name[1..], isGap, built + "-", true)
    else Kept(name[1..], isGap, built, lastSeparator)
  }

  function Trimmed32(displayName: string, isGap: char -> bool): string {
    var base := Cut32(TrimBoth(Kept(displayName, isGap, "", false)));
    if base == "" then FALLBACK else base
  }

  function Base(displayName: string, isGap: char -> bool): string {
    var base := Trimmed32(displayName, isGap);
    if IsValid(base) then base else Cut32(FALLBACK + "-" + base)
  }

  predicate AllNameChars(s: string) { forall i | 0 <= i < |s| :: IsNameChar(s[i]) }

  /** A text that can begin a tunnel name, and be one if it is not reserved. */
  predicate Clean(s: string) {
    && 1 <= |s| <= MAXIMUM_LENGTH && AllNameChars(s)
    && !DotOrDash(s[0]) && !DotOrDash(s[|s| - 1])
  }

  lemma {:induction false} KeptChars(name: string, isGap: char -> bool, built: string, lastSeparator: bool)
    requires AllNameChars(built)
    ensures AllNameChars(Kept(name, isGap, built, lastSeparator))
    decreases |name|
  {
    if name == "" {
    } else if IsNameChar(name[0]) {
      KeptChars(name[1..], isGap, built + [name[0]], false);
    } else if isGap(name[0]) && built != "" && !lastSeparator {
      KeptChars(name[1..], isGap, built + "-", true);
    } else {
      KeptChars(name[1..], isGap, built, lastSeparator);
    }
  }

  /** Cutting to 32 characters and trimming keeps a text clean, if it began clean. */
  lemma {:induction false} CutClean(s: string)
    requires s != "" && AllNameChars(s) && !DotOrDash(s[0]) && !DotOrDash(s[|s| - 1])
    ensures Clean(Cut32(s)) && Cut32(s)[0] == s[0]
  {
    if |s| > MAXIMUM_LENGTH {
      TrimEndKeeps(s[..MAXIMUM_LENGTH]);
    }
  }

  lemma {:induction false} TrimEndKeeps(s: string)
    requires s != "" && !DotOrDash(s[0])
    ensures var r := TrimEnd(s); r != "" && |r| <= |s| && r == s[..|r|] && !DotOrDash(r[|r| - 1])
    ensures forall j | |TrimEnd(s)| <= j < |s| :: DotOrDash(s[j])
  {
    hide IsNameChar;
  }

  lemma {:induction false} TrimmedIsClean(displayName: string, isGap: char -> bool)
    ensures Clean(Trimmed32(displayName, isGap))
  {
    hide Kept, IsNameChar;
    KeptChars(displayName, isGap, "", false);
    var built := Kept(displayName, isGap, "", false);
    var left := TrimLeft(built, DotOrDash);
    assert AllNameChars(left) by { forall i | 0 <= i < |left| ensures IsNameChar(left[i]) { assert left[i] == built[|built| - |left| + i]; } }
    if left != "" {
      TrimEndKeeps(left);
      var both := TrimEnd(left);
      assert AllNameChars(both);
      assert both[0] == left[0];
      CutClean(both);
    } else {
      assert TrimEnd(left) == "";
    }
    FallbackIsClean();
  }

  lemma FallbackIsClean()
    ensures Clean(FALLBACK)
  {
  }

  /** A clean text is a valid name unless Windows reserves it. */
  lemma {:induction false} CleanValid(s: string)
    requires Clean(s)
    ensures IsValid(s) <==> !IsReserved(s)
  {
    hide IsReserved;
    forall i | 0 <= i < |s|
      ensures !IsSpecialChar(s[i])
    {
      assert IsNameChar(s[i]);
    }
  }

  /** Reserved names are short and have no dash. */
  lemma ReservedShort(name: string)
    ensures IsReserved(name) ==> '-' !in name[..Find(name, '.')]
  {
    var cut := name[..Find(name, '.')];
    var f := Fold(cut);
    assert f in RESERVED_NAMES ==> '-' !in f;
    if '-' !in f {
      forall i | 0 <= i < |cut|
        ensures cut[i] != '-'
      {
        assert f[i] in f;
      }
    }
  }

  /** The fallback prefix makes every clean text a valid name: no name can fail to be derived. */
  lemma {:induction false} BaseIsValid(displayName: string, isGap: char -> bool)
    ensures Clean(Base(displayName, isGap)) && IsValid(Base(displayName, isGap))
  {
    hide Trimmed32, Clean, IsValid;
    TrimmedIsClean(displayName, isGap);
    var base := Trimmed32(displayName, isGap);
    CleanValid(base);
    if !IsValid(base) { PrefixedIsValid(base); }
  }

  lemma {:induction false} PrefixedIsValid(base: string)
    requires Clean(base)
    ensures Clean(Cut32(FALLBACK + "-" + base)) && IsValid(Cut32(FALLBACK + "-" + base))
  {
    hide IsValid, IsNameChar, IsReserved;
    var s := FALLBACK + "-" + base;
    FallbackIsClean();
    DashIsNameChar();
    assert s[0] == FALLBACK[0] && s[|s| - 1] == base[|base| - 1];
    CutClean(s);
    var r := Cut32(s);
    CleanValid(r);
    CutKeeps(s, |FALLBACK|);
    assert r[|FALLBACK|] == '-' && r[..|FALLBACK|] == FALLBACK;
    if IsReserved(r) { NotReserved(r, |FALLBACK|); }
  }

  lemma DashIsNameChar()
    ensures IsNameChar('-')
  {
  }

  /** Trimming stops at the last character that is neither dot nor dash. */
  lemma {:induction false} CutKeeps(s: string, n: nat)
    requires n + 1 < MAXIMUM_LENGTH && n + 1 < |s| && !DotOrDash(s[n + 1])
    ensures |Cut32(s)| > n + 1 && Cut32(s)[..n + 1] == s[..n + 1]
  {
    if |s| > MAXIMUM_LENGTH {
      assert s[..MAXIMUM_LENGTH][n + 1] == s[n + 1];
    }
  }

  /** A name with a dash before its first dot, or none, is not reserved. */
  lemma {:induction false} NotReserved(s: string, n: nat)
    requires n < |s| && s[n] == '-' && '.' !in s[..n]
    ensures !IsReserved(s)
  {
    hide IsReserved;
    var e := Find(s, '.');
    assert forall j | 0 <= j < n :: s[..n][j] == s[j];
    assert e > n;
    ReservedShort(s);
    assert s[..e][n] == '-';
  }

  /** A display name that is a valid tunnel name without a dash at either end is taken as it is. */
  lemma {:induction false} ValidNameKept(name: string, isGap: char -> bool)
    requires IsValid(name) && name[0] != '-' && name[|name| - 1] != '-'
    ensures Base(name, isGap) == name
  {
    hide IsReserved, IsNameChar, IsSpecialChar;
    KeptAll(name, isGap, "");
    assert "" + name == name && name + "" == name;
    TrimLeftOf("", name, DotOrDash);
    TrimRightOf(name, "", DotOrDash);
  }

  lemma {:induction false} KeptAll(name: string, isGap: char -> bool, built: string)
    requires AllNameChars(name)
    ensures Kept(name, isGap, built, false) == built + name
    decreases |name|
  {
    hide IsNameChar;
    if name == "" {
      assert built + name == built;
    } else {
      KeptAll(name[1..], isGap, built + [name[0]]);
      assert built + [name[0]] + name[1..] == built + name;
    }
  }

  /** What separates words: no character of a name, but white space or punctuation. */
  predicate Separates(s: string, isGap: char -> bool) {
    (forall i | 0 <= i < |s| :: !IsNameChar(s[i])) && exists i :: 0 <= i < |s| && isGap(s[i])
  }

  predicate NameWord(s: string) { s != "" && AllNameChars(s) }

  /** Words with separators between them. */
  function Spaced(words: seq<string>, gaps: seq<string>): string
    requires |words| == |gaps| + 1
    decreases |gaps|
  {
    if gaps == [] then words[0] else words[0] + (gaps[0] + Spaced(words[1..], gaps[1..]))
  }

  lemma {:induction false} KeptWord(w: string, rest: string, isGap: char -> bool, built: string, lastSeparator: bool)
    requires NameWord(w)
    ensures Kept(w + rest, isGap, built, lastSeparator) == Kept(rest, isGap, built + w, false)
    decreases |w|
  {
    hide IsNameChar;
    assert (w + rest)[0] == w[0] && (w + rest)[1..] == w[1..] + rest;
    if |w| > 1 {
      KeptWord(w[1..], rest, isGap, built + [w[0]], false);
      assert built + [w[0]] + w[1..] == built + w;
    } else {
      assert w[1..] + rest == rest && built + [w[0]] == built + w;
    }
  }

  lemma {:induction false} KeptGap(g: string, rest: string, isGap: char -> bool, built: string)
    requires Separates(g, isGap) && built != ""
    ensures Kept(g + rest, isGap, built, false) == Kept(rest, isGap, built + "-", true)
    decreases |g|
  {
    hide IsNameChar;
    assert (g + rest)[0] == g[0] && (g + rest)[1..] == g[1..] + rest;
    if isGap(g[0]) {
      KeptNothing(g[1..], rest, isGap, built + "-");
    } else {
      var i :| 0 <= i < |g| && isGap(g[i]);
      assert g[1..][i - 1] == g[i];
      KeptGap(g[1..], rest, isGap, built);
    }
  }

  lemma {:induction false} KeptNothing(g: string, rest: string, isGap: char -> bool, built: string)
    requires forall i | 0 <= i < |g| :: !IsNameChar(g[i])
    ensures Kept(g + rest, isGap, built, true) == Kept(rest, isGap, built, true)
    decreases |g|
  {
    hide IsNameChar;
    if g == "" {
      assert g + rest == rest;
    } else {
      assert (g + rest)[0] == g[0] && (g + rest)[1..] == g[1..] + rest;
      KeptNothing(g[1..], rest, isGap, built);
    }
  }

  /** Whatever stands between words becomes one dash. */
  lemma {:induction false} KeptSpaced(words: seq<string>, gaps: seq<string>, isGap: char -> bool, built: string,
                                      lastSeparator: bool)
    requires |words| == |gaps| + 1
    requires (forall w | w in words :: NameWord(w)) && forall g | g in gaps :: Separates(g, isGap)
    ensures Kept(Spaced(words, gaps), isGap, built, lastSeparator) == built + Join(words, "-")
    decreases |gaps|
  {
    hide NameWord, Separates;
    if gaps == [] {
      KeptWord(words[0], "", isGap, built, lastSeparator);
      assert words[0] + "" == words[0];
    } else {
      var rest := Spaced(words[1..], gaps[1..]);
      WordNotEmpty(words[0]);
      KeptWord(words[0], gaps[0] + rest, isGap, built, lastSeparator);
      KeptGap(gaps[0], rest, isGap, built + words[0]);
      KeptSpaced(words[1..], gaps[1..], isGap, built + words[0] + "-", true);
      assert built + words[0] + "-" + Join(words[1..], "-") == built + (words[0] + "-" + Join(words[1..], "-"));
    }
  }

  lemma WordNotEmpty(w: string)
    requires NameWord(w)
    ensures w != ""
  {
  }

  /** The name of several words is their spelling with dashes, if that can be a name as it is. */
  lemma {:induction false} SpacedBase(words: seq<string>, gaps: seq<string>, isGap: char -> bool)
    requires |words| == |gaps| + 1
    requires (forall w | w in words :: NameWord(w)) && forall g | g in gaps :: Separates(g, isGap)
    requires var name := Join(words, "-"); IsValid(name) && name[0] != '-' && name[|name| - 1] != '-'
    ensures Base(Spaced(words, gaps), isGap) == Join(words, "-")
  {
    hide IsValid, NameWord, Separates, Kept, Spaced, Join, TrimBoth, Cut32;
    var name := Join(words, "-");
    KeptSpaced(words, gaps, isGap, "", false);
    assert "" + name == name;
    ValidEnds(name);
    TrimmedAlone(name);
  }

  lemma ValidEnds(name: string)
    requires IsValid(name)
    ensures 1 <= |name| <= 32 && name[0] != '.' && name[|name| - 1] != '.'
  {
    hide IsReserved, IsNameChar, IsSpecialChar;
  }

  lemma {:induction false} TrimmedAlone(name: string)
    requires 1 <= |name| <= 32 && !DotOrDash(name[0]) && !DotOrDash(name[|name| - 1])
    ensures Cut32(TrimBoth(name)) == name
  {
    hide TrimLeft, TrimRight, DotOrDash;
    assert "" + name == name && name + "" == name;
    TrimLeftOf("", name, DotOrDash);
    TrimRightOf(name, "", DotOrDash);
  }

  /** A display name with no character of a name gives the fallback. */
  lemma {:induction false} NothingKept(displayName: string, isGap: char -> bool)
    requires forall i | 0 <= i < |displayName| :: !IsNameChar(displayName[i])
    ensures Base(displayName, isGap) == "WireRoute"
  {
    hide IsNameChar, IsReserved;
    KeptFromNothing(displayName, isGap);
    FallbackIsValid();
  }

  lemma {:induction false} KeptFromNothing(name: string, isGap: char -> bool)
    requires forall i | 0 <= i < |name| :: !IsNameChar(name[i])
    ensures Kept(name, isGap, "", false) == ""
    decreases |name|
  {
    hide IsNameChar;
    if name != "" {
      KeptFromNothing(name[1..], isGap);
    }
  }

  lemma FallbackIsValid()
    ensures IsValid(FALLBACK)
  {
    hide IsReserved;
    FallbackIsClean();
    CleanValid(FALLBACK);
    NotDevice();
  }

  lemma NotDevice()
    ensures !IsReserved(FALLBACK)
  {
    hide Find;
    ReservedStem(FALLBACK);
    assert FALLBACK[4] == 'R' && FALLBACK[0] == 'W';
  }

  /** No reserved name has more than four characters before its first dot. */
  lemma ReservedStem(name: string)
    ensures IsReserved(name) ==> Find(name, '.') <= 4
  {
    hide Find;
    assert forall r | r in RESERVED_NAMES :: |r| <= 4;
  }

  /** A reserved name is put behind the fallback. */
  lemma {:induction false} ReservedBase(name: string, isGap: char -> bool)
    requires Clean(name) && IsReserved(name) && |name| <= 22
    ensures Base(name, isGap) == "WireRoute-" + name
  {
    hide Kept, TrimBoth, Cut32, IsReserved, IsNameChar;
    KeptAll(name, isGap, "");
    assert "" + name == name;
    TrimmedAlone(name);
    CleanValid(name);
    assert FALLBACK + "-" + name == "WireRoute-" + name;
    ShortUncut("WireRoute-" + name);
  }

  lemma ShortUncut(s: string)
    requires |s| <= 32
    ensures Cut32(s) == s
  {
  }

  // ---------------------------------------------------------------- numbered candidates

  function Pow10(k: nat): nat { if k == 0 then 1 else 10 * Pow10(k - 1) }

  lemma {:induction false} DecimalLength(n: nat, k: nat)
    requires n < Pow10(k) && k > 0
    ensures |Decimal(n)| <= k
    decreases k
  {
    if n >= 10 { DecimalLength(n / 10, k - 1); }
  }

  lemma {:induction false} IndexLength(index: Index)
    ensures |Decimal(index)| <= 5
  {
    assert Pow10(2) == 100;
    assert Pow10(4) == 10000;
    assert Pow10(5) == 100000;
    DecimalLength(index, 5);
  }

  type Index = n: nat | n < END_INDEX

  function Suffix(index: Index): (s: string)
    ensures 2 <= |s| <= 6
  {
    IndexLength(index);
    "-" + Decimal(index)
  }

  function Candidate(base: string, index: Index): string {
    var suffix := Suffix(index);
    if |base| + |suffix| > MAXIMUM_LENGTH then TrimEnd(base[..MAXIMUM_LENGTH - |suffix|]) + suffix else base + suffix
  }

  /** A candidate is the base, a dash and the number; if that is longer than 32, the base is cut to what leaves room, and
      back to its last character that is neither dot nor dash. */
  lemma {:induction false} CandidateShape(base: string, index: nat) returns (n: nat)
    requires Clean(base) && index < END_INDEX
    ensures 0 < n <= |base| && Candidate(base, index) == base[..n] + "-" + Decimal(index)
    ensures |Candidate(base, index)| <= 32 && !DotOrDash(base[n - 1])
    ensures forall j | n <= j < |base| && j + 1 + |Decimal(index)| < 32 :: DotOrDash(base[j])
  {
    hide Decimal, IsNameChar, DotOrDash, TrimEnd, AllNameChars;
    var suffix := Suffix(index);
    if |base| + |suffix| > MAXIMUM_LENGTH {
      var prefix := base[..MAXIMUM_LENGTH - |suffix|];
      TrimEndKeeps(prefix);
      n := |TrimEnd(prefix)|;
      assert TrimEnd(prefix) == base[..n] && base[n - 1] == prefix[n - 1];
      assert forall j | n <= j < |prefix| :: base[j] == prefix[j];
    } else {
      n := |base|;
      assert base[..n] == base;
    }
    assert base[..n] + suffix == base[..n] + "-" + Decimal(index);
  }

  /** Every candidate is a valid name. */
  lemma {:induction false} CandidateIsValid(base: string, index: nat)
    requires Clean(base) && IsValid(base) && index < END_INDEX
    ensures IsValid(Candidate(base, index))
  {
    hide Decimal, IsReserved, Candidate, IsNameChar;
    var n := CandidateShape(base, index);
    var c := Candidate(base, index);
    DigitsAreNameChars(Decimal(index));
    DashIsNameChar();
    CleanAppend(base, n, Decimal(index));
    CleanValid(c);
    var e := Find(base, '.');
    if e < n {
      SameCut(base, n, "-" + Decimal(index));
      assert base[..n] + ("-" + Decimal(index)) == c;
      ReservedByCut(base, c);
    } else {
      assert '.' !in c[..n] by { assert c[..n] == base[..n]; NoDotBefore(base, n); }
      NotReserved(c, n);
    }
  }

  lemma {:induction false} NoDotBefore(s: string, n: nat)
    requires n <= |s| && n <= Find(s, '.')
    ensures '.' !in s[..n]
  {
  }

  lemma {:induction false} ReservedByCut(a: string, b: string)
    requires a[..Find(a, '.')] == b[..Find(b, '.')]
    ensures IsReserved(a) <==> IsReserved(b)
  {
  }

  /** Text after the first dot does not matter. */
  lemma {:induction false} SameCut(base: string, n: nat, tail: string)
    requires Find(base, '.') < n <= |base|
    ensures Find(base[..n] + tail, '.') == Find(base, '.')
    ensures (base[..n] + tail)[..Find(base, '.')] == base[..Find(base, '.')]
  {
    var e := Find(base, '.');
    var a, b := base[..e], base[e + 1..n] + tail;
    assert base[..n] + tail == a + ['.'] + b;
    FindAt(a, '.', b);
  }

  lemma {:induction false} DigitsAreNameChars(s: string)
    requires AllDigits(s)
    ensures AllNameChars(s)
  {
    forall i | 0 <= i < |s|
      ensures IsNameChar(s[i])
    {
      assert IsDigit(s[i]);
    }
  }

  lemma {:induction false} CleanAppend(base: string, n: nat, digits: string)
    requires Clean(base) && 0 < n <= |base| && AllNameChars(digits) && digits != "" && AllDigits(digits)
    requires n + 1 + |digits| <= MAXIMUM_LENGTH
    ensures Clean(base[..n] + "-" + digits)
  {
    hide IsNameChar;
    DashIsNameChar();
    var s := base[..n] + "-" + digits;
    assert IsDigit(digits[|digits| - 1]);
    assert s[|s| - 1] == digits[|digits| - 1];
    assert s[0] == base[0];
  }

  /** Folding leaves the dash and the digits of a candidate alone, so its number can be read off. */
  lemma {:induction false} CandidatesDiffer(base: string, i: nat, j: nat)
    requires Clean(base) && i < END_INDEX && j < END_INDEX && EqualFold(Candidate(base, i), Candidate(base, j))
    ensures i == j
  {
    hide Decimal, Candidate, Clean;
    var m := CandidateShape(base, i);
    var n := CandidateShape(base, j);
    FoldNumbered(base[..m], Decimal(i));
    FoldNumbered(base[..n], Decimal(j));
    DecimalClean(i, '-');
    DecimalClean(j, '-');
    FindLastAt(Fold(base[..m]), '-', Decimal(i));
    FindLastAt(Fold(base[..n]), '-', Decimal(j));
    DecimalInjective(i, j);
  }

  lemma {:induction false} FoldNumbered(prefix: string, digits: string)
    requires AllDigits(digits)
    ensures Fold(prefix + "-" + digits) == Fold(prefix) + ['-'] + digits
  {
    var s := prefix + "-" + digits;
    forall i | 0 <= i < |digits|
      ensures FoldChar(digits[i]) == digits[i]
    {
      assert IsDigit(digits[i]);
    }
  }

  // ---------------------------------------------------------------- counting

  predicate Contains(existing: seq<string>, candidate: string) {
    exists i :: 0 <= i < |existing| && EqualFold(existing[i], candidate)
  }

  ghost function Folds(names: seq<string>): (s: set<string>)
    ensures |s| <= |names|
    ensures forall i | 0 <= i < |names| :: Fold(names[i]) in s
  {
    if names == [] then {} else Folds(names[1..]) + {Fold(names[0])}
  }

  ghost function CandidateFolds(base: string, n: nat): set<string>
    requires FIRST_INDEX + n <= END_INDEX
  {
    set i: nat | FIRST_INDEX <= i < FIRST_INDEX + n :: Fold(Candidate(base, i))
  }

  lemma {:induction false} CandidateCount(base: string, n: nat)
    requires Clean(base) && FIRST_INDEX + n <= END_INDEX
    ensures |CandidateFolds(base, n)| == n
  {
    hide Candidate, Clean, Fold;
    if n == 0 {
      assert CandidateFolds(base, 0) == {};
    } else {
      CandidateCount(base, n - 1);
      var last := Fold(Candidate(base, FIRST_INDEX + n - 1));
      NewFold(base, n - 1);
      assert CandidateFolds(base, n) == CandidateFolds(base, n - 1) + {last};
    }
  }

  lemma {:induction false} NewFold(base: string, n: nat)
    requires Clean(base) && FIRST_INDEX + n < END_INDEX
    ensures Fold(Candidate(base, FIRST_INDEX + n)) !in CandidateFolds(base, n)
  {
    hide Candidate, Clean, Fold;
    forall i: nat | FIRST_INDEX <= i < FIRST_INDEX + n
      ensures Fold(Candidate(base, i)) != Fold(Candidate(base, FIRST_INDEX + n))
    {
      if EqualFold(Candidate(base, i), Candidate(base, FIRST_INDEX + n)) {
        CandidatesDiffer(base, i, FIRST_INDEX + n);
      }
    }
  }

  lemma {:induction false} SubsetSize<T(!new)>(a: set<T>, b: set<T>)
    requires a <= b
    ensures |a| <= |b|
  {
    assert b == a + (b - a);
    assert a !! (b - a);
  }

  /** There are 99998 candidates and no two clash, so fewer names than that leave one free. */
  lemma {:induction false} SomeCandidateIsFree(base: string, existing: seq<string>)
    requires Clean(base) && |existing| < END_INDEX - FIRST_INDEX
    ensures exists i: nat :: FIRST_INDEX <= i < END_INDEX && !Contains(existing, Candidate(base, i))
  {
    hide Candidate, Clean, Fold;
    var n := END_INDEX - FIRST_INDEX;
    CandidateCount(base, n);
    if forall i: nat :: FIRST_INDEX <= i < END_INDEX ==> Contains(existing, Candidate(base, i)) {
      forall f | f in CandidateFolds(base, n)
        ensures f in Folds(existing)
      {
        var i: nat :| FIRST_INDEX <= i < FIRST_INDEX + n && f == Fold(Candidate(base, i));
        assert Contains(existing, Candidate(base, i));
      }
      SubsetSize(CandidateFolds(base, n), Folds(existing));
    }
  }

  // ---------------------------------------------------------------- the program

  ghost predicate AllTaken(base: string, existing: seq<string>) {
    Contains(existing, base) && forall i: nat | 2 <= i < 100000 :: Contains(existing, Candidate(base, i))
  }

  /** The first numbered candidate that is free. */
  ghost predicate FirstFree(base: string, existing: seq<string>, index: nat, name: string) {
    && 2 <= index < 100000
    && name == Candidate(base, index) && !Contains(existing, name)
    && forall i: nat | 2 <= i < index :: Contains(existing, Candidate(base, i))
  }

  method AvailableName(displayName: string, isSpace: char -> bool, isPunct: char -> bool, listing: Option<seq<string>>)
    returns (r: Result<string, Error>)
    ensures r.Ok? ==> listing.Some? && IsValid(r.value) && forall name | name in listing.value :: !EqualFold(name, r.value)
    ensures r == Err(ListFailed) <==> listing.None?
    ensures r != Err(InvalidProfileName)
    ensures var base := Base(displayName, (c: char) => isSpace(c) || isPunct(c));
            && (r == Err(ProfileNameConflict) <==> listing.Some? && AllTaken(base, listing.value))
            && (listing.Some? && !Contains(listing.value, base) ==> r == Ok(base))
            && (listing.Some? && Contains(listing.value, base) && r.Ok? ==>
                  exists index: nat :: FirstFree(base, listing.value, index, r.value))
    ensures listing.Some? && |listing.value| < END_INDEX - FIRST_INDEX ==> r.Ok?
  {
    hide Kept, Cut32, TrimBoth, IsValid, Decimal, Clean, EqualFold, Candidate, Contains;
    var isGap := (c: char) => isSpace(c) || isPunct(c);
    ghost var goal := Base(displayName, isGap);
    BaseIsValid(displayName, isGap);
    var base := Build(displayName, isSpace, isPunct, isGap);
    base := Cut32(TrimBoth(base));
    if base == "" { base := FALLBACK; }
    if !IsValid(base) { base := Cut32(FALLBACK + "-" + base); }
    assert base == goal;
    if !IsValid(base) { return Err(InvalidProfileName); }
    if listing.None? { return Err(ListFailed); }
    var existing := listing.value;
    var taken := IsTaken(existing, base);
    if !taken {
      ContainsNot(existing, base);
      return Ok(base);
    }
    r := NumberedName(base, existing);
    if r.Ok? { ContainsNot(existing, r.value); }
  }

  lemma ContainsNot(existing: seq<string>, candidate: string)
    requires !Contains(existing, candidate)
    ensures forall name | name in existing :: !EqualFold(name, candidate)
  {
    hide EqualFold;
  }

  method IsTaken(existing: seq<string>, candidate: string) returns (taken: bool)
    ensures taken == Contains(existing, candidate)
  {
    hide EqualFold;
    for i := 0 to |existing|
      invariant forall j | 0 <= j < i :: !EqualFold(existing[j], candidate)
    {
      if EqualFold(existing[i], candidate) {
        return true;
      }
    }
    return false;
  }

  /** The loop over the numbers. */
  method NumberedName(base: string, existing: seq<string>) returns (r: Result<string, Error>)
    requires Clean(base) && IsValid(base) && Contains(existing, base)
    ensures r.Ok? ==> IsValid(r.value) && !Contains(existing, r.value)
    ensures r.Err? ==> r == Err(ProfileNameConflict)
    ensures r.Err? <==> AllTaken(base, existing)
    ensures r.Ok? ==> exists index: nat :: FirstFree(base, existing, index, r.value)
    ensures |existing| < END_INDEX - FIRST_INDEX ==> r.Ok?
  {
    hide IsValid, Clean, EqualFold, Candidate, Contains;
    if |existing| < END_INDEX - FIRST_INDEX { SomeCandidateIsFree(base, existing); }
    for index := FIRST_INDEX to END_INDEX
      invariant forall i: nat | FIRST_INDEX <= i < index :: Contains(existing, Candidate(base, i))
    {
      var candidate := Candidate(base, index);
      CandidateIsValid(base, index);
      var taken := IsTaken(existing, candidate);
      if IsValid(candidate) && !taken {
        assert FirstFree(base, existing, index, candidate);
        return Ok(candidate);
      }
    }
    return Err(ProfileNameConflict);
  }

  /** The loop over the display name. */
  method Build(displayName: string, isSpace: char -> bool, isPunct: char -> bool, ghost isGap: char -> bool)
    returns (built: string)
    requires forall c: char :: isGap(c) == (isSpace(c) || isPunct(c))
    ensures built == Kept(displayName, isGap, "", false)
  {
    built := "";
    var lastSeparator := false;
    assert displayName[0..] == displayName;
    for i := 0 to |displayName|
      invariant Kept(displayName, isGap, "", false) == Kept(displayName[i..], isGap, built, lastSeparator)
    {
      var r := displayName[i];
      assert displayName[i..][0] == r && displayName[i..][1..] == displayName[i + 1..];
      if IsNameChar(r) {
        built := built + [r];
        lastSeparator := false;
      } else if isSpace(r) || isPunct(r) {
        if built != "" && !lastSeparator {
          built := built + "-";
          lastSeparator := true;
        }
      }
    }
  }
}
