/** The string operations of Go's `strings` and `strconv` that the configuration code relies on.
    A string is a sequence of code points. */
module Text {
  import opened Wrappers

  /** unicode.IsSpace. */
  predicate IsSpace(c: char) {
    || '\t' <= c <= '\r'
    || c == ' '
    || c == '\U{85}'
    || c == '\U{a0}'
    || c == '\U{1680}'
    || '\U{2000}' <= c <= '\U{200a}'
    || c == '\U{2028}'
    || c == '\U{2029}'
    || c == '\U{202f}'
    || c == '\U{205f}'
    || c == '\U{3000}'
  }

  predicate IsDigit(c: char) { '0' <= c <= '9' }

  predicate AllDigits(s: string) { forall i | 0 <= i < |s| :: IsDigit(s[i]) }

  predicate Without(s: string, c: char) { c !in s }

  // ---------------------------------------------------------------- searching

  /** strings.IndexByte, with the length of `s` standing for -1. */
  function Find(s: string, c: char): (i: nat)
    ensures i <= |s|
    ensures forall j | 0 <= j < i :: s[j] != c
    ensures i < |s| ==> s[i] == c
  {
    if s == "" then 0 else if s[0] == c then 0 else 1 + Find(s[1..], c)
  }

  /** strings.LastIndexByte, with -1 for "absent". */
  function FindLast(s: string, c: char): (i: int)
    ensures -1 <= i < |s|
    ensures forall j | i < j < |s| :: s[j] != c
    ensures 0 <= i ==> s[i] == c
  {
    if s == "" then -1 else if s[|s| - 1] == c then |s| - 1 else FindLast(s[..|s| - 1], c)
  }

  lemma {:induction false} FindAt(a: string, c: char, b: string)
    requires c !in a
    ensures Find(a + [c] + b, c) == |a|
    ensures (a + [c] + b)[..|a|] == a && (a + [c] + b)[|a| + 1..] == b
  {
    var s := a + [c] + b;
    assert s[|a|] == c;
    assert forall j | 0 <= j < |a| :: s[j] == a[j];
    assert s[..|a|] == a;
    assert s[|a| + 1..] == b;
  }

  lemma {:induction false} FindLastAt(a: string, c: char, b: string)
    requires c !in b
    ensures FindLast(a + [c] + b, c) == |a|
    ensures (a + [c] + b)[..|a|] == a && (a + [c] + b)[|a| + 1..] == b
  {
    var s := a + [c] + b;
    assert s[|a|] == c;
    assert forall j | |a| < j < |s| :: s[j] == b[j - |a| - 1];
    assert s[..|a|] == a;
    assert s[|a| + 1..] == b;
  }

  lemma FindAbsent(s: string, c: char)
    ensures Find(s, c) == |s| <==> c !in s
    ensures c !in s[..Find(s, c)]
    ensures FindLast(s, c) == -1 <==> c !in s
  {
  }

  // ---------------------------------------------------------------- trimming

  function TrimLeft(s: string, cut: char -> bool): (r: string)
    ensures |r| <= |s| && r == s[|s| - |r|..]
    ensures forall i | 0 <= i < |s| - |r| :: cut(s[i])
    ensures r != "" ==> !cut(r[0])
  {
    if s == "" || !cut(s[0]) then s else TrimLeft(s[1..], cut)
  }

  function TrimRight(s: string, cut: char -> bool): (r: string)
    ensures |r| <= |s| && r == s[..|r|]
    ensures forall i | |r| <= i < |s| :: cut(s[i])
    ensures r != "" ==> !cut(r[|r| - 1])
  {
    if s == "" || !cut(s[|s| - 1]) then s else TrimRight(s[..|s| - 1], cut)
  }

  /** strings.TrimSpace. */
  function TrimSpace(s: string): (r: string)
    ensures Trimmed(r)
  {
    TrimRight(TrimLeft(s, IsSpace), IsSpace)
  }

  predicate Trimmed(s: string) {
    s != "" ==> !IsSpace(s[0]) && !IsSpace(s[|s| - 1])
  }

  predicate AllSpace(s: string) { forall i | 0 <= i < |s| :: IsSpace(s[i]) }

  lemma {:induction false} TrimLeftOf(pre: string, t: string, cut: char -> bool)
    requires forall i | 0 <= i < |pre| :: cut(pre[i])
    requires t != "" ==> !cut(t[0])
    ensures TrimLeft(pre + t, cut) == t
  {
    var s := pre + t;
    assert forall i | 0 <= i < |pre| :: s[i] == pre[i];
    assert t != "" ==> s[|pre|] == t[0];
    assert s[|pre|..] == t;
  }

  lemma {:induction false} TrimRightOf(t: string, post: string, cut: char -> bool)
    requires forall i | 0 <= i < |post| :: cut(post[i])
    requires t != "" ==> !cut(t[|t| - 1])
    ensures TrimRight(t + post, cut) == t
  {
    var s := t + post;
    assert forall i | 0 <= i < |post| :: s[|t| + i] == post[i];
    assert forall i | |t| <= i < |s| :: cut(s[i]);
    assert t != "" ==> s[|t| - 1] == t[|t| - 1];
    assert s[..|t|] == t;
  }

  /** Trimming removes exactly the white space around a trimmed text. */
  lemma {:induction false} TrimAround(pre: string, t: string, post: string)
    requires AllSpace(pre) && AllSpace(post) && Trimmed(t)
    ensures TrimSpace(pre + t + post) == t
  {
    if t == "" {
      TrimLeftOf(pre + post, "", IsSpace);
      assert pre + t + post == (pre + post) + "";
      assert TrimRight("", IsSpace) == "";
    } else {
      assert pre + t + post == pre + (t + post);
      TrimLeftOf(pre, t + post, IsSpace);
      TrimRightOf(t, post, IsSpace);
    }
  }

  lemma {:induction false} TrimId(t: string)
    requires Trimmed(t)
    ensures TrimSpace(t) == t
  {
    TrimAround("", t, "");
    assert "" + t + "" == t;
  }

  lemma {:induction false} TrimBefore(t: string)
    requires Trimmed(t)
    ensures TrimSpace(" " + t) == t
  {
    TrimAround(" ", t, "");
    assert " " + t + "" == " " + t;
  }

  lemma {:induction false} TrimAfter(t: string)
    requires Trimmed(t)
    ensures TrimSpace(t + " ") == t
  {
    TrimAround("", t, " ");
    assert "" + t + " " == t + " ";
  }

  lemma TrimKeepsOut(s: string, c: char)
    requires c !in s
    ensures c !in TrimSpace(s)
  {
  }

  // ---------------------------------------------------------------- splitting and joining

  /** strings.Split with a one-character separator. */
  function Split(s: string, c: char): (parts: seq<string>)
    ensures |parts| >= 1
    ensures forall i | 0 <= i < |parts| :: c !in parts[i]
    decreases |s|
  {
    var i := Find(s, c);
    FindAbsent(s, c);
    if i == |s| then [s] else [s[..i]] + Split(s[i + 1..], c)
  }

  lemma {:induction false} SplitCons(a: string, c: char, b: string)
    requires c !in a
    ensures Split(a + [c] + b, c) == [a] + Split(b, c)
  {
    FindAt(a, c, b);
  }

  lemma {:induction false} SplitSingle(a: string, c: char)
    requires c !in a
    ensures Split(a, c) == [a]
  {
    FindAbsent(a, c);
  }

  lemma SplitKeepsOut(s: string, c: char, d: char)
    requires d !in s
    ensures forall i | 0 <= i < |Split(s, c)| :: d !in Split(s, c)[i]
    decreases |s|
  {
    var i := Find(s, c);
    if i < |s| {
      SplitKeepsOut(s[i + 1..], c, d);
    }
  }

  /** strings.Join. */
  function Join(parts: seq<string>, sep: string): string {
    if parts == [] then "" else if |parts| == 1 then parts[0] else parts[0] + sep + Join(parts[1..], sep)
  }

  // ---------------------------------------------------------------- decimal numbers

  function DigitChar(d: nat): (c: char)
    requires d < 10
    ensures IsDigit(c) && c as int - '0' as int == d
  {
    ('0' as int + d) as char
  }

  function DigitValue(c: char): (d: nat)
    requires IsDigit(c)
    ensures d < 10
  {
    c as int - '0' as int
  }

  /** The decimal numeral of `n`, as fmt prints it. */
  function Decimal(n: nat): (s: string)
    ensures s != "" && AllDigits(s)
  {
    if n < 10 then [DigitChar(n)] else Decimal(n / 10) + [DigitChar(n % 10)]
  }

  function DigitsValue(s: string): nat
    requires AllDigits(s)
  {
    if s == "" then 0 else 10 * DigitsValue(s[..|s| - 1]) + DigitValue(s[|s| - 1])
  }

  lemma {:induction false} DecimalValue(n: nat)
    ensures DigitsValue(Decimal(n)) == n
  {
    if n < 10 {
      assert Decimal(n)[..0] == "";
      assert DigitsValue("") == 0;
    } else {
      var s := Decimal(n);
      DecimalValue(n / 10);
      assert s[..|s| - 1] == Decimal(n / 10);
    }
  }

  lemma {:induction false} DecimalInjective(m: nat, n: nat)
    ensures Decimal(m) == Decimal(n) ==> m == n
  {
    DecimalValue(m);
    DecimalValue(n);
  }

  /** strconv.Atoi on a platform with 64-bit integers. */
  function Atoi(s: string): Option<int> {
    var signed := s != "" && (s[0] == '+' || s[0] == '-');
    var digits := if signed then s[1..] else s;
    if digits == "" || !AllDigits(digits) then None
    else
      var magnitude := DigitsValue(digits);
      var v: int := if signed && s[0] == '-' then 0 - magnitude else magnitude;
      if -0x8000_0000_0000_0000 <= v < 0x8000_0000_0000_0000 then Some(v) else None
  }

  /** strconv.ParseUint in base 10 with the given bit size, `limit` being two to that size. */
  function ParseUint(s: string, limit: nat): Option<nat> {
    if s == "" || !AllDigits(s) || DigitsValue(s) >= limit then None else Some(DigitsValue(s))
  }

  lemma {:induction false} AtoiDecimal(n: nat)
    requires n < 0x8000_0000_0000_0000
    ensures Atoi(Decimal(n)) == Some(n)
  {
    DecimalValue(n);
  }

  lemma DecimalClean(n: nat, c: char)
    requires !IsDigit(c)
    ensures c !in Decimal(n) && Trimmed(Decimal(n))
  {
  }

  // ---------------------------------------------------------------- letter case

  /** unicode.ToLower, exact for every character whose lower case is ASCII: the letters A to Z, the dotted capital I
      and the Kelvin sign. Other characters are left alone; they never equal an ASCII keyword in either case. */
  function ToLowerChar(c: char): char {
    if 'A' <= c <= 'Z' then (c as int + 32) as char
    else if c == '\U{130}' then 'i'
    else if c == '\U{212a}' then 'k'
    else c
  }

  /** strings.ToLower. */
  function ToLower(s: string): (r: string)
    ensures |r| == |s|
  {
    seq(|s|, i requires 0 <= i < |s| => ToLowerChar(s[i]))
  }
}
