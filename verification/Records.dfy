/** Packed records: pieces of bytes at fixed offsets, and big-endian numbers. */
module Records {
  import opened Bytes

  type Text = seq<Byte>

  // ---------------------------------------------------------------- pieces one after the other

  function Cat(pieces: seq<Text>, rest: Text): Text {
    if pieces == [] then rest else pieces[0] + Cat(pieces[1..], rest)
  }

  /** Where piece k begins. */
  function Offset(pieces: seq<Text>, k: nat): nat
    requires k <= |pieces|
  {
    if k == 0 then 0 else Offset(pieces, k - 1) + |pieces[k - 1]|
  }

  lemma {:induction false} CatThen(pieces: seq<Text>, rest: Text)
    ensures Cat(pieces, []) + rest == Cat(pieces, rest)
  {
    if pieces != [] {
      CatThen(pieces[1..], rest);
      assert pieces[0] + Cat(pieces[1..], []) + rest == pieces[0] + (Cat(pieces[1..], []) + rest);
    }
  }

  lemma {:induction false} OffsetTail(pieces: seq<Text>, k: nat)
    requires 0 < k <= |pieces|
    ensures Offset(pieces, k) == |pieces[0]| + Offset(pieces[1..], k - 1)
  {
    if k > 1 {
      OffsetTail(pieces, k - 1);
    }
  }

  /** Piece k of a record that begins at `at`, and what follows the first k pieces. */
  lemma {:induction false} Piece(b: Text, at: nat, pieces: seq<Text>, rest: Text, k: nat)
    requires at <= |b| && b[at..] == Cat(pieces, rest) && k <= |pieces|
    ensures var o := at + Offset(pieces, k);
            && o <= |b| && b[o..] == Cat(pieces[k..], rest)
            && (k < |pieces| ==> o + |pieces[k]| <= |b| && b[o..o + |pieces[k]|] == pieces[k])
    decreases k
  {
    if k > 0 {
      var p := pieces[0];
      OffsetTail(pieces, k);
      Peel(b, at, p, Cat(pieces[1..], rest));
      Piece(b, at + |p|, pieces[1..], rest, k - 1);
      assert pieces[1..][k - 1..] == pieces[k..];
    } else if |pieces| > 0 {
      Peel(b, at, pieces[0], Cat(pieces[1..], rest));
      assert pieces[0..] == pieces;
    } else {
      assert pieces[0..] == pieces;
    }
  }

  lemma {:induction false} Peel(b: Text, at: nat, piece: Text, rest: Text)
    requires at <= |b| && b[at..] == piece + rest
    ensures at + |piece| <= |b| && b[at..at + |piece|] == piece && b[at + |piece|..] == rest
  {
    var t := b[at..];
    assert |t| == |piece| + |rest|;
    assert t[..|piece|] == piece && t[|piece|..] == rest;
    assert b[at..at + |piece|] == t[..|piece|];
    assert b[at + |piece|..] == t[|piece|..];
  }

  // ---------------------------------------------------------------- numbers most significant byte first

  function EncodeBig(n: nat, v: nat): (s: Text)
    ensures |s| == n
  {
    if n == 0 then [] else EncodeBig(n - 1, v / 256) + [v % 256]
  }

  function DecodeBig(s: Text): nat {
    if s == [] then 0 else 256 * DecodeBig(s[..|s| - 1]) + s[|s| - 1]
  }

  lemma {:induction false} DecodeEncodeBig(n: nat, v: nat)
    ensures DecodeBig(EncodeBig(n, v)) == v % Limit(n)
  {
    if n > 0 {
      DecodeEncodeBig(n - 1, v / 256);
      assert EncodeBig(n, v)[..n - 1] == EncodeBig(n - 1, v / 256);
      DivMod256(v, Limit(n - 1));
    }
  }
}
