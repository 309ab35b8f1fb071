/** Which tunnel names are acceptable (conf/name.go). */
module TunnelName {
  import opened Text

  const RESERVED_NAMES: seq<string> := [
    "con", "prn", "aux", "nul",
    "com1", "com2", "com3", "com4", "com5", "com6", "com7", "com8", "com9",
    "lpt1", "lpt2", "lpt3", "lpt4", "lpt5", "lpt6", "lpt7", "lpt8", "lpt9"
  ]

  const MAXIMUM_LENGTH: nat := 32

  /** One representative of each Unicode simple folding orbit that contains an ASCII character. */
  function FoldChar(c: char): char {
    if 'A' <= c <= 'Z' then (c as int + 32) as char
    else if c == '\U{212a}' then 'k'
    else if c == '\U{17f}' then 's'
    else c
  }

  function Fold(s: string): (r: string)
    ensures |r| == |s|
    ensures forall i | 0 <= i < |s| :: r[i] == FoldChar(s[i])
  {
    seq(|s|, i requires 0 <= i < |s| => FoldChar(s[i]))
  }

  /** strings.EqualFold, exact when at least one of the two texts is ASCII. */
  predicate EqualFold(s: string, t: string) { Fold(s) == Fold(t) }

  predicate IsReserved(name: string) {
    Fold(name[..Find(name, '.')]) in RESERVED_NAMES
  }

  /** Characters refused by Windows, the netsh helper or service names. */
  predicate IsSpecialChar(c: char) {
    || c <= '\U{1f}'
    || c in "\\/:*?\"<>|$"
  }

  predicate HasSpecialChars(name: string) {
    || (exists i :: 0 <= i < |name| && IsSpecialChar(name[i]))
    || (name != "" && (name[0] == '.' || name[|name| - 1] == '.'))
  }

  predicate IsNameChar(c: char) {
    'a' <= c <= 'z' || 'A' <= c <= 'Z' || '0' <= c <= '9' || c in "_=+.-"
  }

  predicate MatchesNameFormat(name: string) {
    1 <= |name| <= MAXIMUM_LENGTH && forall i | 0 <= i < |name| :: IsNameChar(name[i])
  }

  predicate IsValid(name: string) {
    !IsReserved(name) && !HasSpecialChars(name) && MatchesNameFormat(name)
  }

  // ---------------------------------------------------------------- the same, without lists

  /** A letter in either case; the Kelvin sign and the long s fold to ASCII letters too. */
  predicate SameLetter(c: char, d: char) {
    || c == d
    || ('A' <= c <= 'Z' && d as int == c as int + 32) || ('A' <= d <= 'Z' && c as int == d as int + 32)
    || (c == '\U{212a}' && (d == 'k' || d == 'K')) || (c == '\U{17f}' && (d == 's' || d == 'S'))
  }

  predicate SameWord(s: string, t: string) {
    |s| == |t| && forall i | 0 <= i < |s| :: SameLetter(s[i], t[i])
  }

  lemma SameLetterIff(c: char, d: char)
    requires d < '\U{80}'
    ensures FoldChar(c) == FoldChar(d) <==> SameLetter(c, d)
  {
  }

  /** Texts are equal but for case when they are so letter by letter. */
  lemma {:induction false} EqualFoldIff(s: string, t: string)
    requires forall i | 0 <= i < |t| :: t[i] < '\U{80}'
    ensures EqualFold(s, t) <==> SameWord(s, t)
  {
    hide FoldChar, SameLetter;
    forall i | 0 <= i < |s| && i < |t|
      ensures Fold(s)[i] == Fold(t)[i] <==> SameLetter(s[i], t[i])
    {
      SameLetterIff(s[i], t[i]);
    }
    if EqualFold(s, t) {
      assert |Fold(s)| == |Fold(t)|;
    }
  }

  /** The names of devices: four words, and a serial or printer port with a number from 1 to 9. */
  predicate NamesDevice(stem: string) {
    || SameWord(stem, "CON") || SameWord(stem, "PRN") || SameWord(stem, "AUX") || SameWord(stem, "NUL")
    || (|stem| == 4 && (SameWord(stem[..3], "COM") || SameWord(stem[..3], "LPT")) && '1' <= stem[3] <= '9')
  }

  lemma {:induction false} PortNames(f: string, port: string)
    requires |port| == 3
    ensures f in [port + "1", port + "2", port + "3", port + "4", port + "5", port + "6", port + "7", port + "8", port + "9"]
       <==> |f| == 4 && f[..3] == port && '1' <= f[3] <= '9'
  {
    if |f| == 4 {
      assert f == f[..3] + [f[3]];
      forall c: char
        ensures f == port + [c] <==> f[..3] == port && f[3] == c
      {
        assert (port + [c])[..3] == port && (port + [c])[3] == c;
      }
    }
  }

  lemma {:induction false} ReservedWords(f: string)
    ensures f in RESERVED_NAMES
       <==> || f == "con" || f == "prn" || f == "aux" || f == "nul"
            || (|f| == 4 && (f[..3] == "com" || f[..3] == "lpt") && '1' <= f[3] <= '9')
  {
    PortNames(f, "com");
    PortNames(f, "lpt");
    var com := ["com1", "com2", "com3", "com4", "com5", "com6", "com7", "com8", "com9"];
    var lpt := ["lpt1", "lpt2", "lpt3", "lpt4", "lpt5", "lpt6", "lpt7", "lpt8", "lpt9"];
    assert RESERVED_NAMES == ["con", "prn", "aux", "nul"] + com + lpt;
    assert "com" + "1" == "com1" && "com" + "2" == "com2" && "com" + "3" == "com3" && "com" + "4" == "com4" && "com" + "5" == "com5";
    assert "com" + "6" == "com6" && "com" + "7" == "com7" && "com" + "8" == "com8" && "com" + "9" == "com9";
    assert "lpt" + "1" == "lpt1" && "lpt" + "2" == "lpt2" && "lpt" + "3" == "lpt3" && "lpt" + "4" == "lpt4" && "lpt" + "5" == "lpt5";
    assert "lpt" + "6" == "lpt6" && "lpt" + "7" == "lpt7" && "lpt" + "8" == "lpt8" && "lpt" + "9" == "lpt9";
  }

  lemma DeviceWords()
    ensures Fold("CON") == "con" && Fold("PRN") == "prn" && Fold("AUX") == "aux" && Fold("NUL") == "nul"
    ensures Fold("COM") == "com" && Fold("LPT") == "lpt"
  {
  }

  /** A name is reserved when what stands before its first dot names a device, in any case. */
  lemma {:induction false} ReservedIff(name: string)
    ensures IsReserved(name) <==> NamesDevice(name[..Find(name, '.')])
  {
    hide Find, Fold, SameWord, FoldChar;
    var stem := name[..Find(name, '.')];
    ReservedWords(Fold(stem));
    DeviceWords();
    EqualFoldIff(stem, "CON");
    EqualFoldIff(stem, "PRN");
    EqualFoldIff(stem, "AUX");
    EqualFoldIff(stem, "NUL");
    if |stem| == 4 {
      EqualFoldIff(stem[..3], "COM");
      EqualFoldIff(stem[..3], "LPT");
      FoldStem(stem);
    }
  }

  lemma {:induction false} FoldStem(stem: string)
    requires |stem| == 4
    ensures Fold(stem)[..3] == Fold(stem[..3])
    ensures '1' <= Fold(stem)[3] <= '9' <==> '1' <= stem[3] <= '9'
  {
  }

  /** The names that are accepted. */
  lemma {:induction false} ValidIff(name: string)
    ensures IsValid(name)
       <==> && 1 <= |name| <= 32
            && (forall i | 0 <= i < |name| ::
                  'a' <= name[i] <= 'z' || 'A' <= name[i] <= 'Z' || '0' <= name[i] <= '9' || name[i] in {'_', '=', '+', '.', '-'})
            && name[0] != '.' && name[|name| - 1] != '.'
            && !NamesDevice(name[..Find(name, '.')])
  {
    hide IsReserved, NamesDevice, Find;
    ReservedIff(name);
    if MatchesNameFormat(name) {
      forall i | 0 <= i < |name|
        ensures !IsSpecialChar(name[i])
      {
        assert IsNameChar(name[i]);
      }
    }
    assert forall c: char :: c in "_=+.-" <==> c in {'_', '=', '+', '.', '-'};
  }
}
