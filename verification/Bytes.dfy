/** Byte strings as the storage code sees them: little-endian 32-bit words and in-place overwrites. */
module Bytes {

  type byte = x: int | 0 <= x < 256

  const WORD: nat := 0x1_0000_0000

  const DWORD: nat := 0x1_0000_0000_0000_0000

  /** An `int` is below this. */
  const INT_LIMIT: nat := 0x8000_0000

  /** The four bytes of a 32-bit word, least significant first. */
  function WordBytes(v: nat): (b: seq<byte>)
    requires v < WORD
    ensures |b| == 4
  {
    [v % 256, v / 256 % 256, v / 65536 % 256, v / 16777216]
  }

  function WordOf(b: seq<byte>): (v: nat)
    requires |b| == 4
    ensures v < WORD
  {
    b[0] as int + 256 * (b[1] as int) + 65536 * (b[2] as int) + 16777216 * (b[3] as int)
  }

  /** The word stored at `off`, read through the slice so that equal slices give equal words. */
  function WordAt(s: seq<byte>, off: nat): (v: nat)
    requires off + 4 <= |s|
    ensures v < WORD
  {
    WordOf(s[off..off + 4])
  }

  /** Reading back a stored word gives that word. */
  lemma WordRoundTrip(v: nat)
    requires v < WORD
    ensures WordOf(WordBytes(v)) == v
  {
    assert v / 256 == v / 65536 * 256 + v / 256 % 256;
    assert v / 65536 == v / 16777216 * 256 + v / 65536 % 256;
  }

  /** The number whose base-256 digits these are, the least significant first. */
  function LowFirst(b: seq<byte>): nat {
    if b == [] then 0 else b[0] as int + 256 * LowFirst(b[1..])
  }

  lemma LowFour(b: seq<byte>)
    requires |b| >= 4
    ensures LowFirst(b) == WordOf(b[..4]) + WORD * LowFirst(b[4..])
  {
    LowNext(b, 0);
    LowNext(b, 1);
    LowNext(b, 2);
    LowNext(b, 3);
    assert b[0..] == b;
    hide LowFirst;
    Digits256(b[0], b[1], b[2], b[3], LowFirst(b[4..]));
  }

  lemma LowNext(b: seq<byte>, k: nat)
    requires k < |b|
    ensures LowFirst(b[k..]) == b[k] as int + 256 * LowFirst(b[k + 1..])
  {
    assert b[k..][1..] == b[k + 1..];
  }

  lemma Digits256(x: nat, y: nat, z: nat, w: nat, rest: nat)
    ensures x + 256 * (y + 256 * (z + 256 * (w + 256 * rest))) == x + 256 * y + 65536 * z + 16777216 * w + WORD * rest
  {
  }

  lemma WordLowFirst(v: nat)
    requires v < WORD
    ensures LowFirst(WordBytes(v)) == v
  {
    hide WordBytes, WordOf;
    LowFour(WordBytes(v));
    WordRoundTrip(v);
    assert WordBytes(v)[..4] == WordBytes(v) && WordBytes(v)[4..] == [];
    assert LowFirst([]) == 0;
  }

  /** `s` with `t` written over it from `off` on. */
  function Splice(s: seq<byte>, off: nat, t: seq<byte>): (r: seq<byte>)
    requires off + |t| <= |s|
    ensures |r| == |s|
  {
    seq(|s|, i requires 0 <= i < |s| => if off <= i < off + |t| then t[i - off] else s[i])
  }

  lemma SpliceInside(s: seq<byte>, off: nat, t: seq<byte>)
    requires off + |t| <= |s|
    ensures Splice(s, off, t)[off..off + |t|] == t
  {
  }

  /** An overwrite leaves every disjoint range alone. */
  lemma SpliceOutside(s: seq<byte>, off: nat, t: seq<byte>, i: nat, j: nat)
    requires off + |t| <= |s| && i <= j <= |s|
    requires j <= off || off + |t| <= i
    ensures Splice(s, off, t)[i..j] == s[i..j]
  {
    var r := Splice(s, off, t);
    forall k | i <= k < j
      ensures r[k] == s[k]
    {
    }
  }

  lemma SpliceWordInside(s: seq<byte>, off: nat, v: nat)
    requires off + 4 <= |s| && v < WORD
    ensures WordAt(Splice(s, off, WordBytes(v)), off) == v
  {
    SpliceInside(s, off, WordBytes(v));
    WordRoundTrip(v);
  }

  lemma SpliceWordOutside(s: seq<byte>, off: nat, t: seq<byte>, at: nat)
    requires off + |t| <= |s| && at + 4 <= |s|
    requires at + 4 <= off || off + |t| <= at
    ensures WordAt(Splice(s, off, t), at) == WordAt(s, at)
  {
    SpliceOutside(s, off, t, at, at + 4);
  }

  lemma SliceOfSlice(s: seq<byte>, i: nat, j: nat, x: nat, y: nat)
    requires i <= j <= |s| && x <= y <= j - i
    ensures s[i..j][x..y] == s[i + x..i + y]
  {
    assert forall k :: 0 <= k < y - x ==> s[i..j][x..y][k] == s[i + x..i + y][k];
  }
}
