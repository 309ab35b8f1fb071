/** Choosing the newest installer from the signed list (installer/fetcher/filelist.c). */
module FileList {
  import opened CInt
  import opened HexHash
  import opened Text
  import opened Versions
  import opened Wrappers
  import Base64
  import Bytes
  import Signify

  type Byte = Bytes.Byte

  const MAX_FILENAME_LEN: nat := 0x400
  const HEX: nat := 64
  const NAME: nat := 66
  const MSI_SUFFIX := ".msi"
  const UNTRUSTED_COMMENT := "untrusted comment: "

  // ---------------------------------------------------------------- lines

  /** The newline that ends a line is looked for from its second character on; text after the last one is dropped. */
  function Lines(body: string): (ls: seq<string>)
    ensures forall i | 0 <= i < |ls| :: forall j | 0 <= j < |ls[i]| :: ls[i][j] in body
    decreases |body|
  {
    if body == "" then []
    else
      var e := 1 + Find(body[1..], '\n');
      if e >= |body| then [] else [body[..e]] + Lines(body[e + 1..])
  }

  /** A line that names an installer for this architecture. */
  predicate Listed(prefix: string, line: string): (listed: bool)
    ensures listed ==> |line| > NAME + |prefix| + |MSI_SUFFIX|
  {
    && |line| >= HEX + 2 + |prefix| + |MSI_SUFFIX| + 1
    && line[HEX] == ' ' && line[HEX + 1] == ' '
    && line[NAME..NAME + |prefix|] == prefix && line[|line| - |MSI_SUFFIX|..] == MSI_SUFFIX
    && |line| - NAME <= MAX_FILENAME_LEN - 1
  }

  /** The packed version in a line's name. */
  function VersionOf(prefix: string, line: string): nat
    requires Listed(prefix, line)
  {
    var s := line[NAME + |prefix|..];
    ParseVersion(s, |s| - |MSI_SUFFIX|)
  }

  /** The lines that count: a hash of 64 characters, two spaces, and a file name of less than 1024 characters that is the
      prefix, a version and ".msi". */
  lemma {:induction false} ListedIff(prefix: string, line: string)
    ensures Listed(prefix, line) <==> exists hash, version :: IsEntry(prefix, hash, version, line)
  {
    if Listed(prefix, line) {
      var hash, version := line[..64], line[66 + |prefix|..|line| - 4];
      assert line == line[..64] + line[64..66] + line[66..66 + |prefix|] + version + line[|line| - 4..];
      assert line[64..66] == "  ";
      assert IsEntry(prefix, hash, version, line);
    }
    forall hash, version | IsEntry(prefix, hash, version, line)
      ensures Listed(prefix, line)
    {
      EntryListed(prefix, hash, version, line);
    }
  }

  predicate IsEntry(prefix: string, hash: string, version: string, line: string) {
    && line == hash + "  " + prefix + version + ".msi"
    && |hash| == 64 && version != "" && |prefix| + |version| + 4 < 1024
  }

  /** Hash, file name and version of such a line. */
  lemma {:induction false} EntryListed(prefix: string, hash: string, version: string, line: string)
    requires IsEntry(prefix, hash, version, line)
    ensures Listed(prefix, line) && line[..HEX] == hash && line[NAME..] == prefix + version + ".msi"
    ensures VersionOf(prefix, line) == ParseVersion(version + ".msi", |version|)
  {
    hide ParseVersion;
    assert line[..64] == hash && line[66..] == prefix + version + ".msi";
    assert line[66..66 + |prefix|] == prefix;
    assert line[66 + |prefix|..] == version + ".msi";
    assert line[|line| - 4..] == ".msi";
    assert line[64] == "  "[0] && line[65] == "  "[1];
  }

  predicate Good(prefix: string, line: string) { Listed(prefix, line) && AllHex(line[..HEX]) }

  /** The variables of the loop. */
  datatype Pick = Pick(biggest: nat, filename: string, hash: seq<Byte>)

  function Consider(prefix: string, st: Pick, line: string): Pick {
    if !Listed(prefix, line) || VersionOf(prefix, line) < st.biggest then st
    else if !AllHex(line[..HEX]) then st.(hash := RawHash(line[..HEX]))
    else Pick(VersionOf(prefix, line), line[NAME..], RawHash(line[..HEX]))
  }

  function PickFrom(prefix: string, lines: seq<string>, st: Pick): Pick
    decreases |lines|
  {
    if lines == [] then st else PickFrom(prefix, lines[1..], Consider(prefix, st, lines[0]))
  }

  lemma {:induction false} PickEnd(prefix: string, lines: seq<string>, line: string, st: Pick)
    ensures PickFrom(prefix, lines + [line], st) == Consider(prefix, PickFrom(prefix, lines, st), line)
    decreases |lines|
  {
    hide Consider;
    if lines == [] {
      assert lines + [line] == [line] && [line][1..] == [];
    } else {
      PickEnd(prefix, lines[1..], line, Consider(prefix, st, lines[0]));
      assert (lines + [line])[1..] == lines[1..] + [line];
    }
  }

  // ---------------------------------------------------------------- what is picked

  /** Line i is the last of the good lines of greatest version. */
  ghost predicate Newest(prefix: string, lines: seq<string>, i: int) {
    && 0 <= i < |lines| && Good(prefix, lines[i])
    && forall j | 0 <= j < |lines| && Good(prefix, lines[j]) ::
         if j <= i then VersionOf(prefix, lines[j]) <= VersionOf(prefix, lines[i])
         else VersionOf(prefix, lines[j]) < VersionOf(prefix, lines[i])
  }

  ghost predicate NoneGood(prefix: string, lines: seq<string>) {
    forall j | 0 <= j < |lines| :: !Good(prefix, lines[j])
  }

  /** The last line whose hash was read: the newest one, or a later line of no smaller version whose hash is bad. */
  ghost predicate LastRead(prefix: string, lines: seq<string>, newest: int, version: nat, t: int) {
    && newest <= t < |lines|
    && (t > newest ==> 0 <= t && Listed(prefix, lines[t]) && !AllHex(lines[t][..HEX])
                       && VersionOf(prefix, lines[t]) >= version)
    && forall j | 0 <= j < |lines| && t < j && Listed(prefix, lines[j]) :: VersionOf(prefix, lines[j]) < version
  }

  const START: Pick := Pick(0, "", [])

  /** The loop picks the newest good line; the hash is that of the last line read. */
  lemma {:induction false} PickIs(prefix: string, lines: seq<string>) returns (newest: int, read: int)
    ensures var r := PickFrom(prefix, lines, START);
            && (newest == -1 ==> NoneGood(prefix, lines) && r.biggest == 0 && r.filename == "")
            && (newest != -1 ==> Newest(prefix, lines, newest) && r.biggest == VersionOf(prefix, lines[newest])
                                 && r.filename == lines[newest][NAME..])
            && -1 <= newest && LastRead(prefix, lines, newest, r.biggest, read)
            && (read >= 0 ==> Listed(prefix, lines[read]) && r.hash == RawHash(lines[read][..HEX]))
    decreases |lines|
  {
    hide VersionOf, Listed, RawHash, AllHex;
    if lines == [] {
      newest, read := -1, -1;
    } else {
      var n := |lines| - 1;
      var rest, line := lines[..n], lines[n];
      assert lines == rest + [line];
      PickEnd(prefix, rest, line, START);
      var st := PickFrom(prefix, rest, START);
      newest, read := PickIs(prefix, rest);
      if Listed(prefix, line) && VersionOf(prefix, line) >= st.biggest {
        read := n;
        if AllHex(line[..HEX]) { newest := n; }
      }
    }
  }

  /** A later line of no smaller version whose hash is not hexadecimal. */
  ghost predicate Spoiled(prefix: string, lines: seq<string>, newest: nat)
    requires newest < |lines| && Listed(prefix, lines[newest])
  {
    exists j :: newest < j < |lines| && Listed(prefix, lines[j]) && !AllHex(lines[j][..HEX])
                && VersionOf(prefix, lines[j]) >= VersionOf(prefix, lines[newest])
  }

  /** The file named is the newest good one. Its hash goes with it unless a later line with a bad hash has no smaller
      version: then the hash is what is left of reading the last such line. */
  lemma {:induction false} PickedHash(prefix: string, lines: seq<string>) returns (newest: int, read: int)
    ensures var r := PickFrom(prefix, lines, START);
            && (newest == -1 <==> NoneGood(prefix, lines))
            && (newest == -1 ==> r.biggest == 0)
            && (newest != -1 ==>
                  && Newest(prefix, lines, newest) && r.biggest == VersionOf(prefix, lines[newest])
                  && r.filename == lines[newest][NAME..]
                  && newest <= read < |lines| && Listed(prefix, lines[read]) && r.hash == RawHash(lines[read][..HEX])
                  && (read == newest <==> !Spoiled(prefix, lines, newest)))
  {
    hide VersionOf, Listed, RawHash, AllHex, PickFrom;
    newest, read := PickIs(prefix, lines);
    if newest != -1 && Spoiled(prefix, lines, newest) {
      var j :| newest < j < |lines| && Listed(prefix, lines[j]) && !AllHex(lines[j][..HEX])
               && VersionOf(prefix, lines[j]) >= VersionOf(prefix, lines[newest]);
      assert read >= j;
    }
  }

  /** When every listed hash is hexadecimal, file and hash are of the same line. */
  lemma {:induction false} AllGoodMatches(prefix: string, lines: seq<string>)
    requires forall j | 0 <= j < |lines| && Listed(prefix, lines[j]) :: AllHex(lines[j][..HEX])
    requires exists j :: 0 <= j < |lines| && Listed(prefix, lines[j])
    ensures exists i :: Newest(prefix, lines, i)
                        && PickFrom(prefix, lines, START)
                           == Pick(VersionOf(prefix, lines[i]), lines[i][NAME..], RawHash(lines[i][..HEX]))
  {
    hide VersionOf, Listed, RawHash, AllHex, PickFrom;
    var newest, read := PickedHash(prefix, lines);
    var j :| 0 <= j < |lines| && Listed(prefix, lines[j]);
    assert Good(prefix, lines[j]);
    assert newest != -1;
    assert !Spoiled(prefix, lines, newest);
  }

  // ---------------------------------------------------------------- a list whose hash is spoiled

  function Repeat(c: char, n: nat): (s: string)
    ensures |s| == n && forall i | 0 <= i < n :: s[i] == c
  {
    if n == 0 then "" else Repeat(c, n - 1) + [c]
  }

  function Entry(c: char, prefix: string): string { Repeat(c, HEX) + "  " + prefix + "1" + MSI_SUFFIX }

  lemma {:induction false} EntryIs(c: char, prefix: string)
    requires |prefix| <= 100
    ensures Listed(prefix, Entry(c, prefix)) && VersionOf(prefix, Entry(c, prefix)) == 0x1_0000_0000_0000
    ensures Entry(c, prefix)[..HEX] == Repeat(c, HEX)
  {
    hide ParseVersion;
    var line := Entry(c, prefix);
    var s := line[NAME + |prefix|..];
    assert s == "1.msi";
    assert line[NAME..NAME + |prefix|] == prefix;
    assert line[|line| - 4..] == ".msi";
    OneParsed();
  }

  lemma OneParsed()
    ensures ParseVersion("1.msi", 1) == 0x1_0000_0000_0000
  {
    var s := "1.msi";
    assert s[0..1] == "1" && s[0] == '1' && s[1] == '.';
    assert DigitsValue("1") == 1 by { assert "1"[..0] == ""; }
    StrtoulDigits(s, 0, 1);
  }

  lemma {:induction false} RepeatHash(c: char)
    ensures |RawHash(Repeat(c, HEX))| == 32 && RawHash(Repeat(c, HEX))[31] == RawByte(c, c)
  {
    hide RawByte;
    var s := Repeat(c, HEX);
    assert s[..HEX - 2] + [c, c] == s;
    RawHashEnd(s[..HEX - 2], c, c);
  }

  /** Two lines of one version, the second with 'g' for digits: the first is picked with the hash of the second. */
  lemma {:induction false} SpoiledExample(prefix: string)
    requires |prefix| <= 100
    ensures var a, b := Entry('a', prefix), Entry('g', prefix);
            var r := PickFrom(prefix, [a, b], START);
            && r.filename == a[NAME..] && r.biggest > 0
            && r.hash == RawHash(b[..HEX]) && r.hash != RawHash(a[..HEX])
  {
    hide Listed, VersionOf, RawHash, AllHex, Entry, RawByte;
    var a, b := Entry('a', prefix), Entry('g', prefix);
    EntryIs('a', prefix);
    EntryIs('g', prefix);
    RepeatHash('a');
    RepeatHash('g');
    RepeatDigits();
    LastBytes();
    PickEnd(prefix, [], a, START);
    PickEnd(prefix, [a], b, START);
    assert [] + [a] == [a] && [a] + [b] == [a, b];
  }

  lemma {:induction false} RepeatDigits()
    ensures AllHex(Repeat('a', HEX)) && !AllHex(Repeat('g', HEX))
  {
    assert Repeat('g', HEX)[0] == 'g';
  }

  lemma {:induction false} LastBytes()
    ensures RawByte('a', 'a') == 0xaa && RawByte('g', 'g') != 0xaa
  {
    hide RawByte, CVal, CBad, Code;
    CharDigitIs('a');
    RawByteParts('a', 'a');
    NoDigit('g');
    RawByteParts('g', 'g');
  }

  lemma {:induction false} NoDigit(c: char)
    requires c as int < 256 && HexDigit(c).None?
    ensures CVal(Code(c)) == 0
  {
    hide CNum, CNum0, CAlpha, CAlpha0, And, Or;
    CNumIs(Code(c));
    CNum0Is(Code(c));
    CAlphaIs(Code(c));
    CAlpha0Is(Code(c));
    AndUnits(CNum(Code(c)));
    AndUnits(CAlpha(Code(c)));
    OrZero(0);
  }

  // ---------------------------------------------------------------- the program

  ghost predicate InBytes(s: string) { Signify.InBytes(s) }

  /** memchr from a position on. */
  function FindFrom(s: string, from: nat, c: char): (i: nat)
    requires from <= |s|
    ensures from <= i <= |s|
  {
    from + Find(s[from..], c)
  }

  /** The part of the list that is signed: everything after the second line, if the first two lines are a comment and a
      signature of the right key over it. `verify` stands for ed25519_verify. */
  ghost function SignedPart(list: string, pubkey: seq<Byte>, verify: (seq<Byte>, seq<Byte>, string) -> bool): Option<string>
    requires |pubkey| == Signify.KEY_BYTES
  {
    var first := Find(list, '\n');
    if first >= |list| then None
    else
      var second := FindFrom(list, first + 1, '\n');
      if second >= |list| then None
      else if !("untrusted comment: " <= list) || second - first != 101 then None
      else
        var text, body := list[first + 1..second], list[second + 1..];
        if exists k: seq<Byte> :: SignatureText(k, text) && k[..10] == pubkey[..10] && verify(k[10..], pubkey[10..], body)
        then Some(body)
        else None
  }

  /** k is the signature that a text encodes. */
  ghost predicate SignatureText(k: seq<Byte>, text: string) {
    |k| == Signify.SIGNATURE_BYTES && Base64.Encode(k) == text
  }

  lemma {:induction false} OneSignature(k: seq<Byte>, l: seq<Byte>, text: string)
    requires SignatureText(k, text) && SignatureText(l, text)
    ensures k == l
  {
    Base64.DecodeEncode(k);
    Base64.DecodeEncode(l);
  }

  method ExtractNewestFile(list: string, prefix: string, pubkey: seq<Byte>,
                           verify: (seq<Byte>, seq<Byte>, string) -> bool, hash: array<Byte>)
    returns (ok: bool, filename: string)
    requires InBytes(list) && |pubkey| == Signify.KEY_BYTES && hash.Length == HASH_BYTES
    modifies hash
    ensures var body := SignedPart(list, pubkey, verify);
            && (body.None? ==> !ok && hash[..] == old(hash[..]))
            && (body.Some? ==>
                  var r := PickFrom(prefix, Lines(body.value), START);
                  ok == (r.biggest > 0) && (ok ==> filename == r.filename && hash[..] == r.hash))
  {
    hide PickFrom, Lines, Signify.InBytes, Base64.Encode;
    filename := "";
    var firstNl := Find(list, '\n');
    if firstNl >= |list| { return false, filename; }
    var secondNl := FindFrom(list, firstNl + 1, '\n');
    if secondNl >= |list| { return false, filename; }
    if !(UNTRUSTED_COMMENT <= list) { return false, filename; }
    if secondNl - firstNl != 101 { return false, filename; }
    var text := list[firstNl + 1..secondNl];
    InBytesPart(list, firstNl + 1, secondNl);
    var signature := new Byte[Signify.SIGNATURE_BYTES](_ => 0);
    var decoded := Signify.SignifySignatureFromBase64(signature, text);
    if !decoded { NoSignature(text); return false, filename; }
    ghost var k := signature[..];
    assert SignatureText(k, text);
    forall l | SignatureText(l, text)
      ensures l == k
    {
      OneSignature(l, k, text);
    }
    if pubkey[..10] != signature[..10] { return false, filename; }
    assert signature[10..] == k[10..] && signature[..10] == k[..10];
    if !verify(signature[10..], pubkey[10..], list[secondNl + 1..]) { return false, filename; }
    var body := list[secondNl + 1..];
    InBytesPart(list, secondNl + 1, |list|);
    assert list[secondNl + 1..|list|] == body;
    var biggest;
    biggest, filename := SelectNewest(body, prefix, hash);
    ok := biggest > 0;
  }

  lemma NoSignature(text: string)
    requires !exists k: seq<Byte> :: |k| == Signify.SIGNATURE_BYTES && Base64.Encode(k) == text
    ensures forall k: seq<Byte> :: !SignatureText(k, text)
  {
  }

  lemma InBytesPart(s: string, a: nat, b: nat)
    requires InBytes(s) && a <= b <= |s|
    ensures InBytes(s[a..b])
  {
  }

  /** The loop over the lines. The hash is untouched if no line was read. */
  method SelectNewest(body: string, prefix: string, hash: array<Byte>) returns (biggestVersion: nat, filename: string)
    requires InBytes(body) && hash.Length == HASH_BYTES
    modifies hash
    ensures var r := PickFrom(prefix, Lines(body), START);
            biggestVersion == r.biggest && filename == r.filename && (biggestVersion > 0 ==> hash[..] == r.hash)
  {
    hide Lines, PickFrom, Consider, Find, Signify.InBytes;
    biggestVersion, filename := 0, "";
    var lineStart := 0;
    ghost var st := START;
    assert body[0..] == body;
    LinesNothing(prefix, st);
    while lineStart < |body|
      invariant 0 <= lineStart <= |body|
      invariant Matches(st, biggestVersion, filename, hash[..])
      invariant PickFrom(prefix, Lines(body), START) == PickFrom(prefix, Lines(body[lineStart..]), st)
    {
      LineEnd(body, lineStart);
      var lineEnd := FindFrom(body, lineStart + 1, '\n');
      if lineEnd >= |body| {
        LinesNothing(prefix, st);
        return;
      }
      var line := body[lineStart..lineEnd];
      InBytesPart(body, lineStart, lineEnd);
      PickFirst(prefix, line, Lines(body[lineEnd + 1..]), st);
      biggestVersion, filename := ReadLine(prefix, line, hash, biggestVersion, filename, st);
      st := Consider(prefix, st, line);
      lineStart := lineEnd + 1;
    }
    assert body[lineStart..] == "";
    LinesNothing(prefix, st);
  }

  /** The variables hold a pick; the hash does as soon as a line was read. */
  ghost predicate Matches(st: Pick, biggest: nat, filename: string, hash: seq<Byte>) {
    st.biggest == biggest && st.filename == filename && (st == START || st.hash == hash)
  }

  lemma LinesNothing(prefix: string, st: Pick)
    ensures Lines("") == [] && PickFrom(prefix, [], st) == st
  {
  }

  lemma {:induction false} PickFirst(prefix: string, line: string, rest: seq<string>, st: Pick)
    ensures PickFrom(prefix, [line] + rest, st) == PickFrom(prefix, rest, Consider(prefix, st, line))
  {
    hide Consider;
    assert ([line] + rest)[1..] == rest;
  }

  /** The body of the loop. */
  method ReadLine(prefix: string, line: string, hash: array<Byte>, biggest: nat, name: string, ghost st: Pick)
    returns (biggestVersion: nat, filename: string)
    requires InBytes(line) && hash.Length == HASH_BYTES && Matches(st, biggest, name, hash[..])
    modifies hash
    ensures Matches(Consider(prefix, st, line), biggestVersion, filename, hash[..])
  {
    hide Listed, VersionOf, RawHash, AllHex, LowerHex, Text.ToLower;
    biggestVersion, filename := biggest, name;
    if !Listed(prefix, line) { return; }
    var version := VersionAt(prefix, line);
    if version < biggestVersion { return; }
    InBytesIs(line);
    var good := HashFromHex(hash, line);
    if !good { return; }
    filename := line[NAME..];
    biggestVersion := version;
  }

  lemma InBytesIs(s: string)
    requires InBytes(s)
    ensures forall i | 0 <= i < |s| :: s[i] as int < 256
  {
  }

  method VersionAt(prefix: string, line: string) returns (version: nat)
    requires Listed(prefix, line)
    ensures version == VersionOf(prefix, line)
  {
    hide ParseVersion;
    var s := line[NAME + |prefix|..];
    version := ParseVersionLoop(s, |s| - |MSI_SUFFIX|);
  }

  /** The lines from a position on. */
  lemma {:induction false} LineEnd(body: string, at: nat)
    requires at < |body|
    ensures var e := FindFrom(body, at + 1, '\n');
            Lines(body[at..]) == if e >= |body| then [] else [body[at..e]] + Lines(body[e + 1..])
  {
    hide Lines, Find;
    var rest := body[at..];
    assert rest[1..] == body[at + 1..];
    var e := FindFrom(body, at + 1, '\n');
    LinesFirst(rest);
    if e < |body| {
      assert rest[..e - at] == body[at..e] && rest[e - at + 1..] == body[e + 1..];
    }
  }

  lemma {:induction false} LinesFirst(rest: string)
    requires rest != ""
    ensures var e := 1 + Find(rest[1..], '\n');
            Lines(rest) == if e >= |rest| then [] else [rest[..e]] + Lines(rest[e + 1..])
  {
    hide Find;
  }
}
