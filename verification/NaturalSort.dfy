/** The natural order of tunnel names (conf/name.go). Lower-casing of single characters is a parameter. */
module NaturalSort {
  import opened Wrappers
  import opened Text

  /** A run of digits that fits an integer, or any other run as text. */
  datatype Token = Token(maybeString: string, maybeNumber: int)

  /** Tokens as they are built: a text token has no number. */
  predicate WellFormed(ts: seq<Token>) {
    forall i | 0 <= i < |ts| :: ts[i].maybeString != "" ==> ts[i].maybeNumber == 0
  }

  // ---------------------------------------------------------------- tokens

  /** strings.Fields: the maximal runs of characters that are not white space. */
  function Fields(s: string): seq<string>
    decreases |s|
  {
    var t := TrimLeft(s, IsSpace);
    if t == "" then []
    else
      var n := WordLength(t);
      [t[..n]] + Fields(t[n..])
  }

  function WordLength(s: string): (n: nat)
    ensures n <= |s| && (s != "" && !IsSpace(s[0]) ==> n > 0)
  {
    if s == "" || IsSpace(s[0]) then 0 else 1 + WordLength(s[1..])
  }

  function Normalize(lower: char -> char, s: string): string {
    var joined := Join(Fields(s), " ");
    seq(|joined|, i requires 0 <= i < |joined| => lower(joined[i]))
  }

  /** Length of the longest prefix whose characters are all digits, or all not. */
  function RunLength(s: string): (n: nat)
    requires s != ""
    ensures 1 <= n <= |s|
    ensures forall i | 0 <= i < n :: IsDigit(s[i]) == IsDigit(s[0])
    ensures n < |s| ==> IsDigit(s[n]) != IsDigit(s[0])
  {
    if |s| == 1 || IsDigit(s[1]) != IsDigit(s[0]) then 1 else 1 + RunLength(s[1..])
  }

  /** What the expression \d+|\D+ finds. */
  function Runs(s: string): seq<string>
    decreases |s|
  {
    if s == "" then [] else [s[..RunLength(s)]] + Runs(s[RunLength(s)..])
  }

  function TokenOf(run: string): (t: Token) {
    match Atoi(run)
    case Some(n) => Token("", n)
    case None => Token(run, 0)
  }

  function TokensOf(runs: seq<string>): (ts: seq<Token>)
    ensures |ts| == |runs|
    ensures forall i | 0 <= i < |ts| :: ts[i] == TokenOf(runs[i])
  {
    seq(|runs|, i requires 0 <= i < |runs| => TokenOf(runs[i]))
  }

  function Tokens(lower: char -> char, s: string): (ts: seq<Token>)
    ensures WellFormed(ts)
  {
    TokensOf(Runs(Normalize(lower, s)))
  }

  function Concat(parts: seq<string>): string {
    if parts == [] then "" else parts[0] + Concat(parts[1..])
  }

  predicate OneKind(s: string) {
    s != "" && forall j | 0 <= j < |s| :: IsDigit(s[j]) == IsDigit(s[0])
  }

  /** Non-empty pieces of one kind each, neighbours differing in kind. */
  predicate Alternating(parts: seq<string>) {
    parts != [] ==>
      && OneKind(parts[0])
      && Alternating(parts[1..])
      && (|parts| > 1 ==> parts[1] != "" && IsDigit(parts[0][0]) != IsDigit(parts[1][0]))
  }

  lemma {:induction false} RunsPartition(s: string)
    ensures Concat(Runs(s)) == s && Alternating(Runs(s))
    decreases |s|
  {
    if s != "" {
      var n := RunLength(s);
      var p, rest := s[..n], s[n..];
      RunsPartition(rest);
      assert Runs(s) == [p] + Runs(rest);
      assert s == p + rest;
      if rest != "" {
        assert Runs(rest)[0] == rest[..RunLength(rest)];
      }
    }
  }

  lemma RunLengthOf(p: string, rest: string)
    requires OneKind(p) && (rest != "" ==> IsDigit(rest[0]) != IsDigit(p[0]))
    ensures RunLength(p + rest) == |p|
  {
    var s := p + rest;
    assert forall j | 0 <= j < |p| :: s[j] == p[j];
    assert rest != "" ==> s[|p|] == rest[0];
  }

  /** The runs are the only way to cut a text like that. */
  lemma {:induction false} RunsMaximal(parts: seq<string>)
    requires Alternating(parts)
    ensures Runs(Concat(parts)) == parts
  {
    if parts != [] {
      var p, rest := parts[0], Concat(parts[1..]);
      RunsMaximal(parts[1..]);
      if |parts| > 1 {
        assert rest == parts[1] + Concat(parts[1..][1..]);
      }
      RunLengthOf(p, rest);
      assert (p + rest)[..|p|] == p && (p + rest)[|p|..] == rest;
    }
  }

  // ---------------------------------------------------------------- order

  /** Go's < on strings. */
  predicate StringLess(s: string, t: string) {
    t != "" && (s == "" || s[0] < t[0] || (s[0] == t[0] && StringLess(s[1..], t[1..])))
  }

  function Cmp(f1: Token, f2: Token): int {
    if f1.maybeString == "" then
      if f2.maybeString != "" || f1.maybeNumber < f2.maybeNumber then -1
      else if f1.maybeNumber > f2.maybeNumber then 1
      else 0
    else if f2.maybeString == "" || StringLess(f2.maybeString, f1.maybeString) then 1
    else if StringLess(f1.maybeString, f2.maybeString) then -1
    else 0
  }

  /** Lexicographic order of token lists, a proper prefix coming first. */
  predicate Less(a: seq<Token>, b: seq<Token>) {
    b != [] && (a == [] || Cmp(a[0], b[0]) == -1 || (Cmp(a[0], b[0]) == 0 && Less(a[1..], b[1..])))
  }

  lemma StringTrichotomy(s: string, t: string)
    ensures !(StringLess(s, t) && StringLess(t, s))
    ensures StringLess(s, t) || StringLess(t, s) || s == t
    ensures s == t ==> !StringLess(s, t)
  {
    if s != "" && t != "" && s[0] == t[0] {
      StringTrichotomy(s[1..], t[1..]);
      assert s == [s[0]] + s[1..] && t == [t[0]] + t[1..];
    }
  }

  lemma StringTransitive(s: string, t: string, u: string)
    requires StringLess(s, t) && StringLess(t, u)
    ensures StringLess(s, u)
  {
    if s != "" && s[0] == t[0] && t[0] == u[0] {
      StringTransitive(s[1..], t[1..], u[1..]);
    }
  }

  lemma CmpTrichotomy(a: Token, b: Token)
    requires WellFormed([a, b])
    ensures Cmp(a, b) == -Cmp(b, a)
    ensures Cmp(a, b) == 0 <==> a == b
  {
    assert [a, b][0] == a && [a, b][1] == b;
    StringTrichotomy(a.maybeString, b.maybeString);
  }

  lemma CmpTransitive(a: Token, b: Token, c: Token)
    requires Cmp(a, b) == -1 && Cmp(b, c) == -1
    ensures Cmp(a, c) == -1
  {
    StringTrichotomy(a.maybeString, c.maybeString);
    if a.maybeString != "" && b.maybeString != "" && c.maybeString != "" {
      StringTransitive(a.maybeString, b.maybeString, c.maybeString);
    }
  }

  /** On token lists the order is a strict total order. */
  lemma {:induction false} LessTrichotomy(a: seq<Token>, b: seq<Token>)
    requires WellFormed(a) && WellFormed(b)
    ensures !(Less(a, b) && Less(b, a))
    ensures !Less(a, b) && !Less(b, a) <==> a == b
  {
    if a != [] && b != [] {
      assert [a[0], b[0]][0] == a[0] && [a[0], b[0]][1] == b[0];
      CmpTrichotomy(a[0], b[0]);
      LessTrichotomy(a[1..], b[1..]);
      assert a == [a[0]] + a[1..] && b == [b[0]] + b[1..];
    }
  }

  lemma {:induction false} LessTransitive(a: seq<Token>, b: seq<Token>, c: seq<Token>)
    requires WellFormed(a) && WellFormed(b) && WellFormed(c)
    requires Less(a, b) && Less(b, c)
    ensures Less(a, c)
  {
    if a != [] {
      CmpTrichotomy(a[0], b[0]);
      CmpTrichotomy(b[0], c[0]);
      if Cmp(a[0], b[0]) == -1 && Cmp(b[0], c[0]) == -1 {
        CmpTransitive(a[0], b[0], c[0]);
      } else if Cmp(a[0], b[0]) == 0 && Cmp(b[0], c[0]) == 0 {
        LessTransitive(a[1..], b[1..], c[1..]);
      }
    }
  }

  /** Texts are ordered by their first difference; a beginning comes before what goes on. */
  lemma {:induction false} StringLessIff(s: string, t: string)
    ensures StringLess(s, t) <==> (s < t || exists k :: 0 <= k < |s| && k < |t| && s[..k] == t[..k] && s[k] < t[k])
    decreases |s|
  {
    if s != "" && t != "" && s[0] == t[0] {
      StringLessIff(s[1..], t[1..]);
      assert s == [s[0]] + s[1..] && t == [t[0]] + t[1..];
      forall k | 0 < k < |s| && k < |t|
        ensures s[..k] == t[..k] <==> s[1..][..k - 1] == t[1..][..k - 1]
        ensures s[k] == s[1..][k - 1] && t[k] == t[1..][k - 1]
      {
        assert s[..k] == [s[0]] + s[1..][..k - 1] && t[..k] == [t[0]] + t[1..][..k - 1];
        if s[..k] == t[..k] { assert s[..k][1..] == t[..k][1..]; }
      }
    } else if s != "" && t != "" {
      assert s[..0] == t[..0];
      forall k | 0 < k < |s| && k < |t|
        ensures s[..k] != t[..k]
      {
        assert s[..k][0] == s[0] && t[..k][0] == t[0];
      }
    }
  }

  predicate NameLess(lower: char -> char, a: string, b: string) {
    a != b && Less(Tokens(lower, a), Tokens(lower, b))
  }

  /** The order of names is a strict weak order, and names tie exactly when their token lists are equal. */
  lemma StrictWeakOrder(lower: char -> char, a: string, b: string, c: string)
    ensures !NameLess(lower, a, a)
    ensures NameLess(lower, a, b) ==> !NameLess(lower, b, a)
    ensures NameLess(lower, a, b) && NameLess(lower, b, c) ==> NameLess(lower, a, c)
    ensures !NameLess(lower, a, b) && !NameLess(lower, b, a) <==> Tokens(lower, a) == Tokens(lower, b)
    ensures NameLess(lower, a, c) ==> NameLess(lower, a, b) || NameLess(lower, b, c)
  {
    var ta, tb, tc := Tokens(lower, a), Tokens(lower, b), Tokens(lower, c);
    LessTrichotomy(ta, tb);
    LessTrichotomy(tb, tc);
    LessTrichotomy(ta, tc);
    if NameLess(lower, a, b) && NameLess(lower, b, c) {
      LessTransitive(ta, tb, tc);
    }
    if NameLess(lower, a, c) && Less(tb, ta) {
      LessTransitive(tb, ta, tc);
    }
  }

  // ---------------------------------------------------------------- what comes first

  /** What lower-casing does to digits: nothing, and it makes no others. */
  ghost predicate KeepsDigits(lower: char -> char) {
    forall c :: (IsDigit(c) ==> lower(c) == c) && (IsDigit(lower(c)) ==> IsDigit(c))
  }

  /** A name as people choose them: without white space. */
  predicate Solid(s: string) { forall i | 0 <= i < |s| :: !IsSpace(s[i]) }

  function Lowered(lower: char -> char, s: string): string { seq(|s|, i requires 0 <= i < |s| => lower(s[i])) }

  lemma {:induction false} SolidNormalize(lower: char -> char, s: string)
    requires Solid(s)
    ensures Normalize(lower, s) == Lowered(lower, s)
  {
    if s == "" {
      assert Fields("") == [];
    } else {
      assert TrimLeft(s, IsSpace) == s;
      SolidWord(s);
      assert s[..|s|] == s && s[|s|..] == "";
      assert Fields("") == [];
      assert Fields(s) == [s] + [];
    }
  }

  lemma SolidWord(s: string)
    requires Solid(s)
    ensures WordLength(s) == |s|
  {
  }

  /** Words with white space after each. */
  function Spaced(words: seq<string>, gaps: seq<string>): string
    requires |words| == |gaps|
    decreases |words|
  {
    if words == [] then "" else words[0] + (gaps[0] + Spaced(words[1..], gaps[1..]))
  }

  predicate AllSolid(words: seq<string>) { forall i | 0 <= i < |words| :: words[i] != "" && Solid(words[i]) }

  /** White space, none of it empty but perhaps the last. */
  predicate AllGaps(gaps: seq<string>) {
    forall i | 0 <= i < |gaps| :: AllSpace(gaps[i]) && (gaps[i] != "" || i == |gaps| - 1)
  }

  lemma {:induction false} FirstOfAll(words: seq<string>, gaps: seq<string>)
    requires AllSolid(words) && AllGaps(gaps) && |words| == |gaps| > 0
    ensures words[0] != "" && Solid(words[0]) && AllSpace(gaps[0]) && (gaps[0] != "" || |gaps| == 1)
    ensures AllSolid(words[1..]) && AllGaps(gaps[1..])
  {
    hide Solid, AllSpace;
    assert forall i | 0 <= i < |words[1..]| :: words[1..][i] == words[i + 1] && gaps[1..][i] == gaps[i + 1];
  }

  lemma {:induction false} FieldsSpaced(gap: string, words: seq<string>, gaps: seq<string>)
    requires |words| == |gaps| && AllSpace(gap) && AllSolid(words) && AllGaps(gaps)
    ensures Fields(gap + Spaced(words, gaps)) == words
    decreases |words|
  {
    hide *;
    NothingSpaced(gap);
    if words == [] {
      OnlyGap(gap);
      assert words == [];
    } else {
      var w, rest := words[0], gaps[0] + Spaced(words[1..], gaps[1..]);
      FirstOfAll(words, gaps);
      SpacedStep(words, gaps);
      FirstField(gap, w, rest);
      GapNext(gaps[0], rest);
      FieldsSpaced(gaps[0], words[1..], gaps[1..]);
      FieldsStep(gap + Spaced(words, gaps), w, rest);
      assert words == [w] + words[1..];
    }
  }

  lemma NothingSpaced(gap: string)
    ensures gap + Spaced([], []) == gap
  {
  }

  lemma SpacedStep(words: seq<string>, gaps: seq<string>)
    requires |words| == |gaps| > 0 && (gaps[0] != "" || |gaps| == 1)
    ensures Spaced(words, gaps) == words[0] + (gaps[0] + Spaced(words[1..], gaps[1..]))
    ensures gaps[0] == "" ==> gaps[0] + Spaced(words[1..], gaps[1..]) == ""
  {
  }

  lemma {:induction false} OnlyGap(gap: string)
    requires AllSpace(gap)
    ensures Fields(gap) == []
  {
    TrimLeftOf(gap, "", IsSpace);
    assert gap + "" == gap;
  }

  lemma {:induction false} FirstField(gap: string, w: string, rest: string)
    requires AllSpace(gap) && w != "" && Solid(w)
    ensures TrimLeft(gap + (w + rest), IsSpace) == w + rest
  {
    TrimLeftOf(gap, w + rest, IsSpace);
  }

  lemma GapNext(gap: string, rest: string)
    requires AllSpace(gap) && gap <= rest
    ensures rest != "" && gap != "" ==> IsSpace(rest[0])
  {
  }

  lemma {:induction false} WordEnds(w: string, rest: string)
    requires w != "" && Solid(w) && (rest != "" ==> IsSpace(rest[0]))
    ensures WordLength(w + rest) == |w|
    decreases |w|
  {
    assert (w + rest)[0] == w[0] && (w + rest)[1..] == w[1..] + rest;
    if |w| > 1 {
      WordEnds(w[1..], rest);
    } else {
      assert w[1..] + rest == rest;
    }
  }

  lemma {:induction false} FieldsStep(s: string, w: string, rest: string)
    requires w != "" && Solid(w) && TrimLeft(s, IsSpace) == w + rest && (rest != "" ==> IsSpace(rest[0]))
    ensures Fields(s) == [w] + Fields(rest)
  {
    hide TrimLeft, WordLength;
    WordEnds(w, rest);
    assert (w + rest)[..|w|] == w && (w + rest)[|w|..] == rest;
  }

  /** White space in a name counts as one space between its words. */
  lemma {:induction false} NormalizeSpaced(lower: char -> char, gap: string, words: seq<string>, gaps: seq<string>)
    requires |words| == |gaps| && AllSpace(gap) && AllSolid(words) && AllGaps(gaps)
    ensures Normalize(lower, gap + Spaced(words, gaps)) == Lowered(lower, Join(words, " "))
  {
    hide Fields, Spaced, Join;
    FieldsSpaced(gap, words, gaps);
  }

  /** The two texts can be cut apart: a digit meets a character that is none, or one of them is empty. */
  predicate Boundary(s: string, t: string) { s == "" || t == "" || IsDigit(s[|s| - 1]) != IsDigit(t[0]) }

  predicate KindsDiffer(s: string, t: string) { s != "" && t != "" && IsDigit(s[0]) != IsDigit(t[0]) }

  lemma {:induction false} AlternatingCons(p: string, rest: seq<string>)
    requires OneKind(p) && Alternating(rest) && (rest != [] ==> KindsDiffer(p, rest[0]))
    ensures Alternating([p] + rest) && Concat([p] + rest) == p + Concat(rest)
  {
    hide OneKind;
    assert ([p] + rest)[1..] == rest && ([p] + rest)[0] == p;
    assert rest != [] ==> ([p] + rest)[1] == rest[0];
  }

  lemma {:induction false} AlternatingParts(a: seq<string>)
    requires Alternating(a) && a != []
    ensures OneKind(a[0]) && Alternating(a[1..]) && (|a| > 1 ==> KindsDiffer(a[0], a[1]))
  {
  }

  lemma NothingConcat()
    ensures Concat([]) == ""
  {
  }

  lemma FirstConcat(parts: seq<string>)
    requires parts != []
    ensures Concat(parts) == parts[0] + Concat(parts[1..])
  {
  }

  lemma {:induction false} AlternatingAppend(a: seq<string>, b: seq<string>)
    requires Alternating(a) && Alternating(b)
    requires a != [] && b != [] ==> KindsDiffer(a[|a| - 1], b[0])
    ensures Alternating(a + b) && Concat(a + b) == Concat(a) + Concat(b)
    decreases |a|
  {
    hide OneKind, KindsDiffer, Alternating, Concat;
    NothingConcat();
    if a == [] {
      assert a + b == b;
    } else {
      AlternatingParts(a);
      AlternatingAppend(a[1..], b);
      assert |a| > 1 ==> (a[1..] + b)[0] == a[1];
      AlternatingCons(a[0], a[1..] + b);
      assert a + b == [a[0]] + (a[1..] + b);
      FirstConcat(a);
      assert a[0] + (Concat(a[1..]) + Concat(b)) == (a[0] + Concat(a[1..])) + Concat(b);
    }
  }

  lemma {:induction false} LastRun(s: string)
    requires s != ""
    ensures var runs := Runs(s); runs != [] && runs[|runs| - 1] != ""
                                 && IsDigit(runs[|runs| - 1][0]) == IsDigit(s[|s| - 1])
    decreases |s|
  {
    var n := RunLength(s);
    if n < |s| {
      LastRun(s[n..]);
      assert Runs(s) == [s[..n]] + Runs(s[n..]);
    } else {
      assert s[n..] == "" && Runs("") == [];
      assert Runs(s) == [s[..n]];
    }
  }

  lemma FirstRun(s: string)
    requires s != ""
    ensures Runs(s) != [] && Runs(s)[0] != "" && Runs(s)[0][0] == s[0]
  {
  }

  lemma {:induction false} RunsAppend(s: string, t: string)
    requires Boundary(s, t)
    ensures Runs(s + t) == Runs(s) + Runs(t)
  {
    hide Runs, Alternating;
    RunsPartition(s);
    RunsPartition(t);
    NoRuns();
    if s != "" { LastRun(s); }
    if t != "" { FirstRun(t); }
    AlternatingAppend(Runs(s), Runs(t));
    RunsMaximal(Runs(s) + Runs(t));
  }

  lemma NoRuns()
    ensures Runs("") == []
  {
  }

  /** After the same beginning the rest decides. */
  lemma {:induction false} LessAfter(common: seq<Token>, a: seq<Token>, b: seq<Token>)
    ensures Less(common + a, common + b) <==> Less(a, b)
    decreases |common|
  {
    if common == [] {
      assert common + a == a && common + b == b;
    } else {
      LessAfter(common[1..], a, b);
      assert (common + a)[1..] == common[1..] + a && (common + b)[1..] == common[1..] + b;
      SameToken(common[0]);
    }
  }

  lemma SameToken(t: Token)
    ensures Cmp(t, t) == 0
  {
    StringTrichotomy(t.maybeString, t.maybeString);
  }

  /** A run of digits counts by its value if that fits. */
  predicate Counts(digits: string) {
    digits != "" && AllDigits(digits) && DigitsValue(digits) < 0x8000_0000_0000_0000
  }

  lemma {:induction false} LoweredParts(lower: char -> char, s: string, t: string)
    ensures Lowered(lower, s + t) == Lowered(lower, s) + Lowered(lower, t)
    ensures KeepsDigits(lower) && Boundary(s, t) ==> Boundary(Lowered(lower, s), Lowered(lower, t))
  {
  }

  lemma {:induction false} LoweredKind(lower: char -> char, s: string)
    requires KeepsDigits(lower) && OneKind(s)
    ensures OneKind(Lowered(lower, s))
  {
  }

  lemma {:induction false} LoweredBoundary(lower: char -> char, s: string, r: string, t: string)
    requires KeepsDigits(lower) && Boundary(s, r) && Boundary(r, t) && r != ""
    ensures Boundary(Lowered(lower, s), Lowered(lower, r) + Lowered(lower, t))
    ensures Boundary(Lowered(lower, r), Lowered(lower, t))
  {
  }

  lemma {:induction false} ThreeRuns(p: string, r: string, t: string)
    requires OneKind(r) && Boundary(p, r + t) && Boundary(r, t)
    ensures Runs(p + (r + t)) == Runs(p) + [r] + Runs(t)
  {
    hide Runs, OneKind, Boundary;
    RunsAppend(p, r + t);
    RunsAppend(r, t);
    OneRun(r);
  }

  /** The tokens of what comes before a run, of the run, and of what comes after it. */
  lemma {:induction false} TokensCut(lower: char -> char, prefix: string, run: string, tail: string)
    requires KeepsDigits(lower) && Solid(prefix + run + tail) && OneKind(run)
    requires Boundary(prefix, run) && Boundary(run, tail)
    ensures Tokens(lower, prefix + run + tail)
         == TokensOf(Runs(Lowered(lower, prefix)))
            + ([TokenOf(Lowered(lower, run))] + TokensOf(Runs(Lowered(lower, tail))))
  {
    hide Runs, TokenOf, KeepsDigits, Lowered, Boundary, Normalize, Solid;
    var p, r, t := Lowered(lower, prefix), Lowered(lower, run), Lowered(lower, tail);
    SolidNormalize(lower, prefix + run + tail);
    LoweredParts(lower, prefix + run, tail);
    LoweredParts(lower, prefix, run);
    LoweredKind(lower, run);
    LoweredBoundary(lower, prefix, run, tail);
    assert (p + r) + t == p + (r + t);
    ThreeRuns(p, r, t);
    var runs := Runs(p) + [r] + Runs(t);
    assert TokensOf(runs) == TokensOf(Runs(p)) + ([TokenOf(r)] + TokensOf(Runs(t)));
  }

  lemma {:induction false} OneRun(r: string)
    requires OneKind(r)
    ensures Runs(r) == [r]
  {
    RunsMaximal([r]);
    assert Concat([r]) == r + "";
    assert r + "" == r;
  }

  lemma BeforeDigits(prefix: string, m: string, n: string)
    requires Counts(m) && Counts(n) && Boundary(prefix, m)
    ensures Boundary(prefix, n) && DigitsValue(m) < 0x8000_0000_0000_0000 && AllDigits(n)
  {
    hide DigitsValue;
    assert IsDigit(m[0]) && IsDigit(n[0]);
  }

  lemma LessNames(lower: char -> char, a: string, b: string)
    requires Less(Tokens(lower, a), Tokens(lower, b))
    ensures NameLess(lower, a, b) && !NameLess(lower, b, a)
  {
    hide Tokens;
    LessTrichotomy(Tokens(lower, a), Tokens(lower, b));
  }

  /** Names that begin alike, up to a number: the smaller number comes first, whatever follows. */
  lemma {:induction false} SmallerNumberFirst(lower: char -> char, prefix: string, m: string, n: string, s: string, t: string)
    requires KeepsDigits(lower) && Solid(prefix + m + s) && Solid(prefix + n + t)
    requires Counts(m) && Counts(n) && DigitsValue(m) < DigitsValue(n)
    requires Boundary(prefix, m) && Boundary(m, s) && Boundary(n, t)
    ensures NameLess(lower, prefix + m + s, prefix + n + t) && !NameLess(lower, prefix + n + t, prefix + m + s)
  {
    hide Runs, Tokens, Lowered, TokenOf, KeepsDigits, Boundary, Solid, Counts;
    NumberToken(lower, m);
    NumberToken(lower, n);
    BeforeDigits(prefix, m, n);
    TokensCut(lower, prefix, m, s);
    TokensCut(lower, prefix, n, t);
    var common := TokensOf(Runs(Lowered(lower, prefix)));
    var a := [Token("", DigitsValue(m))] + TokensOf(Runs(Lowered(lower, s)));
    var b := [Token("", DigitsValue(n))] + TokensOf(Runs(Lowered(lower, t)));
    LessAfter(common, a, b);
    assert a[0] == Token("", DigitsValue(m)) && b[0] == Token("", DigitsValue(n));
    LessNames(lower, prefix + m + s, prefix + n + t);
  }

  lemma {:induction false} NumberToken(lower: char -> char, digits: string)
    requires KeepsDigits(lower) && Counts(digits)
    ensures TokenOf(Lowered(lower, digits)) == Token("", DigitsValue(digits)) && OneKind(digits)
  {
    assert Lowered(lower, digits) == digits;
    assert IsDigit(digits[0]);
  }

  /** Where names part in words, the order of their lower-case spelling decides. */
  lemma {:induction false} SmallerWordFirst(lower: char -> char, prefix: string, u: string, v: string, s: string, t: string)
    requires KeepsDigits(lower) && Solid(prefix + u + s) && Solid(prefix + v + t)
    requires IsWord(u) && IsWord(v) && StringLess(Lowered(lower, u), Lowered(lower, v))
    requires Boundary(prefix, u) && Boundary(prefix, v) && Boundary(u, s) && Boundary(v, t)
    ensures NameLess(lower, prefix + u + s, prefix + v + t)
  {
    hide Runs, Tokens, Lowered, TokenOf, KeepsDigits, Boundary, Solid, IsWord;
    WordToken(lower, u);
    WordToken(lower, v);
    TokensCut(lower, prefix, u, s);
    TokensCut(lower, prefix, v, t);
    var common := TokensOf(Runs(Lowered(lower, prefix)));
    var a := [Token(Lowered(lower, u), 0)] + TokensOf(Runs(Lowered(lower, s)));
    var b := [Token(Lowered(lower, v), 0)] + TokensOf(Runs(Lowered(lower, t)));
    LessAfter(common, a, b);
    StringTrichotomy(Lowered(lower, u), Lowered(lower, v));
    assert a[0] == Token(Lowered(lower, u), 0) && b[0] == Token(Lowered(lower, v), 0);
    LessNames(lower, prefix + u + s, prefix + v + t);
  }

  /** A word has no digit. */
  predicate IsWord(s: string) {
    s != "" && forall i | 0 <= i < |s| :: !IsDigit(s[i])
  }

  lemma {:induction false} WordToken(lower: char -> char, s: string)
    requires KeepsDigits(lower) && IsWord(s)
    ensures TokenOf(Lowered(lower, s)) == Token(Lowered(lower, s), 0) && OneKind(s) && Lowered(lower, s) != ""
  {
    var l := Lowered(lower, s);
    assert forall i | 0 <= i < |l| :: !IsDigit(l[i]);
    if |l| > 1 {
      assert l[1..][0] == l[1];
    }
  }

  /** A name that begins with a number comes before one that does not. */
  lemma {:induction false} NumberBeforeWord(lower: char -> char, m: string, v: string, s: string, t: string)
    requires KeepsDigits(lower) && Solid(m + s) && Solid(v + t)
    requires Counts(m) && IsWord(v) && Boundary(m, s) && Boundary(v, t)
    ensures NameLess(lower, m + s, v + t) && !NameLess(lower, v + t, m + s)
  {
    hide Runs, Tokens, Lowered, TokenOf, KeepsDigits, Solid, Counts, IsWord;
    NumberToken(lower, m);
    WordToken(lower, v);
    assert "" + m + s == m + s && "" + v + t == v + t;
    TokensCut(lower, "", m, s);
    TokensCut(lower, "", v, t);
    var common := TokensOf(Runs(Lowered(lower, "")));
    var a := [Token("", DigitsValue(m))] + TokensOf(Runs(Lowered(lower, s)));
    var b := [Token(Lowered(lower, v), 0)] + TokensOf(Runs(Lowered(lower, t)));
    LessAfter(common, a, b);
    assert a[0] == Token("", DigitsValue(m)) && b[0] == Token(Lowered(lower, v), 0);
    LessNames(lower, m + s, v + t);
  }

  /** A name comes before those that go on after it with a number, or after its number with something else. */
  lemma {:induction false} ShorterFirst(lower: char -> char, prefix: string, run: string, tail: string)
    requires KeepsDigits(lower) && Solid(prefix + run + tail) && OneKind(run)
    requires Boundary(prefix, run) && Boundary(run, tail)
    ensures NameLess(lower, prefix, prefix + run + tail) && !NameLess(lower, prefix + run + tail, prefix)
  {
    hide Runs, Tokens, Lowered, TokenOf, KeepsDigits, Boundary, OneKind;
    TokensCut(lower, prefix, run, tail);
    assert forall i | 0 <= i < |prefix| :: prefix[i] == (prefix + run + tail)[i];
    TokensSolid(lower, prefix);
    var common := TokensOf(Runs(Lowered(lower, prefix)));
    LessAfter(common, [], [TokenOf(Lowered(lower, run))] + TokensOf(Runs(Lowered(lower, tail))));
    assert common + [] == common;
    LessNames(lower, prefix, prefix + run + tail);
  }

  lemma {:induction false} TokensSolid(lower: char -> char, s: string)
    requires Solid(s)
    ensures Tokens(lower, s) == TokensOf(Runs(Lowered(lower, s)))
  {
    hide Runs, TokenOf;
    SolidNormalize(lower, s);
  }

  // ---------------------------------------------------------------- the code

  method FillTokens(x: seq<string>) returns (tokens: seq<Token>)
    ensures tokens == TokensOf(x)
  {
    var filled := new Token[|x|](_ => Token("", 0));
    for i := 0 to |x|
      invariant forall j | 0 <= j < i :: filled[j] == TokenOf(x[j])
    {
      var n := Atoi(x[i]);
      filled[i] := if n.Some? then Token("", n.value) else Token(x[i], 0);
    }
    tokens := filled[..];
  }

  method NewNaturalSortString(lower: char -> char, s: string) returns (tokens: seq<Token>)
    ensures tokens == Tokens(lower, s)
  {
    tokens := FillTokens(Runs(Normalize(lower, s)));
  }

  method TunnelNameIsLess(lower: char -> char, a: string, b: string) returns (less: bool)
    ensures less == NameLess(lower, a, b)
  {
    if a == b {
      return false;
    }
    var na := NewNaturalSortString(lower, a);
    var nb := NewNaturalSortString(lower, b);
    for i := 0 to |nb|
      invariant i <= |na|
      invariant Less(na, nb) == Less(na[i..], nb[i..])
    {
      if i == |na| {
        return true;
      }
      var c := Cmp(na[i], nb[i]);
      if c == -1 {
        return true;
      } else if c == 1 {
        return false;
      }
      assert na[i..][1..] == na[i + 1..] && nb[i..][1..] == nb[i + 1..];
    }
    return false;
  }
}
