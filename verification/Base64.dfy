/** Base64 against RFC 4648, section 4; text is given by its character codes. */
module Base64 {
  import opened Bytes

  /** A six-bit digit. */
  type Sextet = x: int | 0 <= x < 64

  const PAD: byte := 0x3D

  // ---- RFC 4648 ----

  /** Table 1. */
  function Letter(x: Sextet): (c: byte)
    ensures c != PAD
  {
    if x < 26 then 0x41 + x
    else if x < 52 then 0x61 + (x - 26)
    else if x < 62 then 0x30 + (x - 52)
    else if x == 62 then 0x2B
    else 0x2F
  }

  /** The digit a character stands for; 0 for a character that stands for none. */
  function DigitOf(c: byte): (x: Sextet)
  {
    if 0x41 <= c <= 0x5A then c - 0x41
    else if 0x61 <= c <= 0x7A then 26 + (c - 0x61)
    else if 0x30 <= c <= 0x39 then 52 + (c - 0x30)
    else if c == 0x2B then 62
    else if c == 0x2F then 63
    else 0
  }

  lemma LetterDigit(x: Sextet)
    ensures DigitOf(Letter(x)) == x
  {
  }

  /** The digits of a 24-bit group, most significant first. */
  function Group(a: byte, b: byte, c: byte): (d: seq<Sextet>)
    ensures |d| == 4
  {
    var n: nat := a * 0x1_0000 + b * 0x100 + c;
    [n / 0x4_0000, n / 0x1000 % 64, n / 64 % 64, n % 64]
  }

  /** The letters of the group at the head: a final group of one or two bytes is filled up with zero bits. */
  function Letters(b: seq<byte>): (s: seq<byte>)
    requires b != []
    ensures |s| == if |b| < 3 then |b| + 1 else 4
  {
    var d := Group(b[0], if |b| > 1 then b[1] else 0, if |b| > 2 then b[2] else 0);
    if |b| == 1 then [Letter(d[0]), Letter(d[1])]
    else if |b| == 2 then [Letter(d[0]), Letter(d[1]), Letter(d[2])]
    else [Letter(d[0]), Letter(d[1]), Letter(d[2]), Letter(d[3])]
  }

  function Padding(n: nat): seq<byte> {
    if n % 3 == 1 then [PAD, PAD] else if n % 3 == 2 then [PAD] else []
  }

  function Encoded(b: seq<byte>): (s: seq<byte>) {
    if b == [] then []
    else if |b| < 3 then Letters(b) + Padding(|b|)
    else Letters(b) + Encoded(b[3..])
  }

  /** The bytes of four digits. */
  function Ungrouped(w: Sextet, x: Sextet, y: Sextet, z: Sextet): (b: seq<byte>)
    ensures |b| == 3
  {
    var n: nat := w * 0x4_0000 + x * 0x1000 + y * 64 + z;
    [n / 0x1_0000, n / 0x100 % 0x100, n % 0x100]
  }

  /** Padding in the last two places of four characters says how many bytes there are. */
  function GroupBytes(s: seq<byte>): (b: seq<byte>)
    requires |s| >= 4
  {
    var b := Ungrouped(DigitOf(s[0]), DigitOf(s[1]), DigitOf(s[2]), DigitOf(s[3]));
    b[..if s[3] == PAD then (if s[2] == PAD then 1 else 2) else 3]
  }

  function Decoded(s: seq<byte>): seq<byte>
    requires |s| % 4 == 0
  {
    if s == [] then [] else GroupBytes(s) + Decoded(s[4..])
  }

  lemma EncodedSplit(b: seq<byte>)
    requires b != []
    ensures var rest := if |b| < 3 then Padding(|b|) else Encoded(b[3..]);
            && Encoded(b) == Letters(b) + rest && |Encoded(b)| >= 4
            && Encoded(b)[4..] == (if |b| < 3 then [] else rest)
  {
    hide Letters;
    if |b| >= 3 {
      assert (Letters(b) + Encoded(b[3..]))[4..] == Encoded(b[3..]);
    }
  }

  /** The length is four characters for each begun group of three bytes. */
  lemma {:induction false} EncodedLength(b: seq<byte>)
    ensures |Encoded(b)| == (|b| + 2) / 3 * 4
    decreases |b|
  {
    hide Letters;
    if |b| >= 3 {
      EncodedLength(b[3..]);
      assert (|b[3..]| + 2) / 3 + 1 == (|b| + 2) / 3;
    }
  }

  /** Table 1 in the form in which RFC 4648 lists it. */
  const ALPHABET: string := UPPER + LOWER + DIGITS + SIGNS

  const UPPER: string := "ABCDEFGHIJKLMNOPQRSTUVWXYZ"

  const LOWER: string := "abcdefghijklmnopqrstuvwxyz"

  const DIGITS: string := "0123456789"

  const SIGNS: string := "+/"

  lemma TableSize()
    ensures |UPPER| == |LOWER| == 26 && |DIGITS| == 10 && |ALPHABET| == 64
  {
  }

  lemma LetterInTable(x: Sextet)
    ensures |ALPHABET| == 64 && Letter(x) == ALPHABET[x] as int
  {
    TableSize();
    if x < 26 {
      assert ALPHABET[x] == UPPER[x];
    } else if x < 52 {
      assert ALPHABET[x] == LOWER[x - 26];
    } else if x < 62 {
      assert ALPHABET[x] == DIGITS[x - 52];
    } else {
      assert ALPHABET[x] == SIGNS[x - 62];
    }
  }

  /** The bytes of group `g` as a 24-bit number, the first most significant; bytes beyond the end are zero. */
  function Bits24(b: seq<byte>, g: nat): nat {
    ByteOr0(b, 3 * g) * 0x1_0000 + ByteOr0(b, 3 * g + 1) * 0x100 + ByteOr0(b, 3 * g + 2)
  }

  function ByteOr0(b: seq<byte>, i: nat): (x: nat)
    ensures x < 256
  {
    if i < |b| then b[i] else 0
  }

  /** Digit `j` of 24 bits, the most significant first. */
  function SixBits(n: nat, j: nat): (x: nat)
    requires j < 4
    ensures x < 64
  {
    match j
    case 0 => n / 0x4_0000 % 64
    case 1 => n / 0x1000 % 64
    case 2 => n / 64 % 64
    case _ => n % 64
  }

  /** Character `j` of group `g`: its digit's letter in the table, or `=` where the digit has no bits of the bytes. */
  function CharAt(b: seq<byte>, g: nat, j: nat): int
    requires j < 4
  {
    TableSize();
    if j == 0 || 3 * g + j - 1 < |b| then ALPHABET[SixBits(Bits24(b, g), j)] as int else '=' as int
  }

  /**
   The text character by character: the digits of each group from the most significant on, in the
   letters of the table, and in the last group one `=` for each byte that is missing.
   */
  lemma {:induction false} EncodedChars(b: seq<byte>, g: nat, j: nat)
    requires 3 * g < |b| && j < 4
    ensures 4 * g + j < |Encoded(b)| && Encoded(b)[4 * g + j] == CharAt(b, g, j)
    decreases g
  {
    hide *;
    EncodedSplit(b);
    if g == 0 {
      HeadChars(b, if |b| < 3 then Padding(|b|) else Encoded(b[3..]), j);
    } else {
      EncodedChars(b[3..], g - 1, j);
      CharShifted(b, g, j);
      CharBehind(Encoded(b), 4 * g + j);
    }
  }

  lemma CharBehind(s: seq<byte>, k: nat)
    requires |s| >= 4 && k >= 4
    ensures k - 4 < |s[4..]| ==> k < |s| && s[k] == s[4..][k - 4]
  {
  }

  lemma CharShifted(b: seq<byte>, g: nat, j: nat)
    requires g > 0 && |b| >= 3 && j < 4
    ensures CharAt(b[3..], g - 1, j) == CharAt(b, g, j)
  {
    hide ALPHABET, SixBits;
    TableSize();
    assert forall i: nat :: i < |b| - 3 ==> b[3..][i] == b[i + 3];
    assert Bits24(b[3..], g - 1) == Bits24(b, g);
  }

  lemma HeadChars(b: seq<byte>, rest: seq<byte>, j: nat)
    requires b != [] && (|b| < 3 ==> rest == Padding(|b|)) && j < 4
    ensures j < |Letters(b) + rest| && (Letters(b) + rest)[j] == CharAt(b, 0, j)
  {
    var x, y, z := ByteOr0(b, 0), ByteOr0(b, 1), ByteOr0(b, 2);
    GroupByBits(x, y, z, j);
    hide Letter, Group, ALPHABET, SixBits;
    LetterInTable(Group(x, y, z)[j]);
  }

  lemma GroupByBits(x: byte, y: byte, z: byte, j: nat)
    requires j < 4
    ensures Group(x, y, z)[j] == SixBits(x * 0x1_0000 + y * 0x100 + z, j)
  {
    var n: nat := x * 0x1_0000 + y * 0x100 + z;
    assert n < 0x100_0000;
    assert n / 0x4_0000 < 64;
  }

  lemma EncodedInFours(b: seq<byte>)
    ensures |Encoded(b)| % 4 == 0
  {
    EncodedLength(b);
    hide Encoded;
    var k := (|b| + 2) / 3;
    assert |Encoded(b)| == 4 * k;
  }

  lemma FourDigits(p: nat, q: nat, r: nat, t: nat)
    requires p < 64 && q < 64 && r < 64 && t < 64
    ensures var n := p * 0x4_0000 + q * 0x1000 + r * 64 + t;
            n / 0x4_0000 == p && n / 0x1000 % 64 == q && n / 64 % 64 == r && n % 64 == t
  {
    var n := p * 0x4_0000 + q * 0x1000 + r * 64 + t;
    assert n / 0x4_0000 == p;
    assert n / 0x1000 == p * 64 + q;
    assert n / 64 == p * 0x1000 + q * 64 + r;
  }

  lemma ThreeBytes(x: nat, y: nat, z: nat)
    requires x < 256 && y < 256 && z < 256
    ensures var n := x * 0x1_0000 + y * 0x100 + z;
            n / 0x1_0000 == x && n / 0x100 % 0x100 == y && n % 0x100 == z
  {
    var n := x * 0x1_0000 + y * 0x100 + z;
    assert n / 0x1_0000 == x;
    assert n / 0x100 == x * 256 + y;
  }

  lemma SplitBits(a: nat, b: nat, c: nat)
    requires a < 256 && b < 256 && c < 256
    ensures a * 0x1_0000 + b * 0x100 + c
            == a / 4 * 0x4_0000 + (a % 4 * 16 + b / 16) * 0x1000 + (b % 16 * 4 + c / 64) * 64 + c % 64
  {
  }

  lemma SplitDigits(w: nat, x: nat, y: nat, z: nat)
    requires w < 64 && x < 64 && y < 64 && z < 64
    ensures w * 0x4_0000 + x * 0x1000 + y * 64 + z
            == (w * 4 + x / 16) * 0x1_0000 + (x % 16 * 16 + y / 4) * 0x100 + (y % 4 * 64 + z)
  {
  }

  lemma GroupDigits(a: byte, b: byte, c: byte)
    ensures Group(a, b, c) == [a / 4, a % 4 * 16 + b / 16, b % 16 * 4 + c / 64, c % 64]
  {
    SplitBits(a, b, c);
    FourDigits(a / 4, a % 4 * 16 + b / 16, b % 16 * 4 + c / 64, c % 64);
  }

  lemma UngroupedBytes(w: Sextet, x: Sextet, y: Sextet, z: Sextet)
    ensures Ungrouped(w, x, y, z) == [w * 4 + x / 16, x % 16 * 16 + y / 4, y % 4 * 64 + z]
  {
    SplitDigits(w, x, y, z);
    ThreeBytes(w * 4 + x / 16, x % 16 * 16 + y / 4, y % 4 * 64 + z);
  }

  lemma Joined(hi: nat, lo: nat)
    ensures lo < 4 ==> (hi * 4 + lo) / 4 == hi && (hi * 4 + lo) % 4 == lo
    ensures lo < 16 ==> (hi * 16 + lo) / 16 == hi && (hi * 16 + lo) % 16 == lo
    ensures lo < 64 ==> (hi * 64 + lo) / 64 == hi && (hi * 64 + lo) % 64 == lo
  {
  }

  lemma GroupRoundTrip(a: byte, b: byte, c: byte)
    ensures var d := Group(a, b, c); Ungrouped(d[0], d[1], d[2], d[3]) == [a, b, c]
  {
    hide Group, Ungrouped;
    GroupDigits(a, b, c);
    var d := Group(a, b, c);
    UngroupedBytes(d[0], d[1], d[2], d[3]);
    Joined(a % 4, b / 16);
    Joined(b % 16, c / 64);
  }

  lemma UngroupRoundTrip(w: Sextet, x: Sextet, y: Sextet, z: Sextet)
    ensures var b := Ungrouped(w, x, y, z); Group(b[0], b[1], b[2]) == [w, x, y, z]
  {
    hide Group, Ungrouped;
    UngroupedBytes(w, x, y, z);
    var b := Ungrouped(w, x, y, z);
    GroupDigits(b[0], b[1], b[2]);
    Joined(w, x / 16);
    Joined(x % 16, y / 4);
    Joined(y % 4, z);
  }

  lemma LettersParts(b: seq<byte>)
    requires b != []
    ensures var n, d := |b|, Group(b[0], if |b| > 1 then b[1] else 0, if |b| > 2 then b[2] else 0);
            && (n >= 2 || d[2] == 0) && (n >= 3 || d[3] == 0)
            && (n == 1 ==> d[1] % 16 == 0) && (n == 2 ==> d[2] % 4 == 0)
            && forall i :: 0 <= i < |Letters(b)| ==> Letters(b)[i] == Letter(d[i])
  {
    hide Group, Letter;
    GroupDigits(b[0], if |b| > 1 then b[1] else 0, if |b| > 2 then b[2] else 0);
  }

  /** The first four characters of an encoding decode to its first three bytes, or to all there are. */
  lemma HeadRoundTrip(b: seq<byte>, rest: seq<byte>)
    requires b != [] && (|b| < 3 ==> rest == Padding(|b|))
    ensures |Letters(b) + rest| >= 4 && GroupBytes(Letters(b) + rest) == b[..if |b| < 3 then |b| else 3]
  {
    hide Group, Letter, Ungrouped, Letters, DigitOf;
    var x, y := if |b| > 1 then b[1] else 0, if |b| > 2 then b[2] else 0;
    var d := Group(b[0], x, y);
    LettersParts(b);
    GroupRoundTrip(b[0], x, y);
    LetterDigit(d[0]);
    LetterDigit(d[1]);
    LetterDigit(d[2]);
    LetterDigit(d[3]);
    PadDigit();
  }

  /** Decoding an encoding gives the bytes back, for every byte string. */
  lemma {:induction false} RoundTrip(b: seq<byte>)
    ensures |Encoded(b)| % 4 == 0
    ensures Decoded(Encoded(b)) == b
    decreases |b|
  {
    EncodedInFours(b);
    if b != [] {
      hide Letters, GroupBytes, Encoded, Padding;
      EncodedSplit(b);
      HeadRoundTrip(b, if |b| < 3 then Padding(|b|) else Encoded(b[3..]));
      DecodedSplit(Encoded(b));
      hide Decoded;
      if |b| >= 3 {
        RoundTrip(b[3..]);
        assert b == b[..3] + b[3..];
      } else {
        DecodedNothing();
        assert b[..|b|] + [] == b;
      }
    }
  }

  lemma DecodedNothing()
    ensures Decoded([]) == []
  {
  }

  lemma DecodedSplit(s: seq<byte>)
    requires |s| % 4 == 0 && s != []
    ensures Decoded(s) == GroupBytes(s) + Decoded(s[4..])
  {
  }

  lemma PadDigit()
    ensures DigitOf(PAD) == 0
  {
  }

  // ---- Which texts are encodings ----

  predicate IsLetter(c: byte) {
    c == Letter(DigitOf(c))
  }

  /** Two letters, then two letters or padding; the bits that padding leaves unused are zero. */
  predicate CanonicalHead(s: seq<byte>) {
    && |s| >= 4 && IsLetter(s[0]) && IsLetter(s[1])
    && if s[3] != PAD then IsLetter(s[2]) && IsLetter(s[3])
       else if s[2] != PAD then IsLetter(s[2]) && DigitOf(s[2]) % 4 == 0
       else DigitOf(s[1]) % 16 == 0
  }

  /** Groups of four, of which only the last may be padded. */
  predicate Canonical(s: seq<byte>) {
    |s| % 4 == 0
    && (s == [] || (CanonicalHead(s) && if s[3] == PAD then |s| == 4 else Canonical(s[4..])))
  }

  lemma LetterIsLetter(x: Sextet)
    ensures IsLetter(Letter(x)) && DigitOf(Letter(x)) == x && Letter(x) != PAD
  {
  }

  lemma {:induction false} EncodedIsCanonical(b: seq<byte>)
    ensures Canonical(Encoded(b))
    decreases |b|
  {
    EncodedInFours(b);
    if b != [] {
      hide Letters, Encoded, Canonical, Padding;
      EncodedSplit(b);
      if |b| >= 3 {
        EncodedIsCanonical(b[3..]);
      }
      HeadCanonical(b, if |b| < 3 then Padding(|b|) else Encoded(b[3..]));
    }
  }

  lemma HeadCanonical(b: seq<byte>, rest: seq<byte>)
    requires b != [] && if |b| < 3 then rest == Padding(|b|) else |rest| % 4 == 0 && Canonical(rest)
    ensures Canonical(Letters(b) + rest)
  {
    LettersCanonical(b, rest);
    hide *;
    var s := Letters(b) + rest;
    if |b| < 3 {
      assert |s| == 4;
      CanonicalLast(s);
    } else {
      assert s[4..] == rest;
      CanonicalJoin(s);
    }
  }

  lemma CanonicalLast(s: seq<byte>)
    requires |s| == 4 && CanonicalHead(s) && s[3] == PAD
    ensures Canonical(s)
  {
  }

  lemma CanonicalJoin(s: seq<byte>)
    requires |s| >= 4 && CanonicalHead(s) && s[3] != PAD && Canonical(s[4..])
    ensures Canonical(s)
  {
  }

  lemma LettersCanonical(b: seq<byte>, rest: seq<byte>)
    requires b != [] && (|b| < 3 ==> rest == Padding(|b|))
    ensures var s := Letters(b) + rest;
            CanonicalHead(s) && (s[3] == PAD <==> |b| < 3) && |s| == if |b| < 3 then 4 else 4 + |rest|
  {
    LettersParts(b);
    hide Letter, DigitOf, Group, IsLetter, Letters;
    var d := Group(b[0], if |b| > 1 then b[1] else 0, if |b| > 2 then b[2] else 0);
    LetterIsLetter(d[0]);
    LetterIsLetter(d[1]);
    LetterIsLetter(d[2]);
    LetterIsLetter(d[3]);
  }

  /** Four canonical characters are the letters and the padding of the bytes they decode to. */
  lemma HeadReverse(s: seq<byte>, more: seq<byte>)
    requires Canonical(s) && s != [] && (s[3] == PAD ==> more == [])
    ensures var b := GroupBytes(s);
            b != [] && Letters(b + more) + (if s[3] == PAD then Padding(|b|) else []) == s[..4]
  {
    hide Letter, DigitOf, Group, Ungrouped;
    var w, x, y, z := DigitOf(s[0]), DigitOf(s[1]), DigitOf(s[2]), DigitOf(s[3]);
    UngroupRoundTrip(w, x, y, z);
    UngroupedBytes(w, x, y, z);
    PadDigit();
    NotPad(y);
  }

  lemma NotPad(x: Sextet)
    ensures Letter(x) != PAD
  {
  }

  /** Encoding a decoding gives the text back exactly when the text is canonical. */
  lemma {:induction false} ReverseRoundTrip(s: seq<byte>)
    requires |s| % 4 == 0
    ensures Encoded(Decoded(s)) == s <==> Canonical(s)
    decreases |s|
  {
    EncodedIsCanonical(Decoded(s));
    if Canonical(s) {
      CanonicalReencodes(s);
    }
  }

  lemma {:induction false} CanonicalReencodes(s: seq<byte>)
    requires Canonical(s)
    ensures Encoded(Decoded(s)) == s
    decreases |s|
  {
    if s != [] {
      assert |s[4..]| % 4 == 0;
      CanonicalRest(s);
      DecodedSplit(s);
      hide Letters, GroupBytes, Canonical, Encoded, Padding, Decoded;
      var b, more := GroupBytes(s), Decoded(s[4..]);
      HeadReverse(s, more);
      EncodedSplit(b + more);
      if s[3] == PAD {
        assert b + more == b;
      } else {
        CanonicalReencodes(s[4..]);
        assert (b + more)[3..] == more && s == s[..4] + s[4..];
      }
    }
  }

  lemma CanonicalRest(s: seq<byte>)
    requires Canonical(s) && s != []
    ensures var b := GroupBytes(s);
            if s[3] == PAD then s[4..] == [] && 0 < |b| < 3 && Decoded(s[4..]) == [] && s[..4] == s
            else |b| == 3 && Canonical(s[4..])
  {
    hide Ungrouped, DigitOf;
  }

  // ---- The loops ----

  /** The tables; `e` masks its argument to six bits. */
  class Alphabet {
    const decode: array<byte>

    ghost predicate Valid()
      reads this, decode
    {
      decode.Length == 257 && forall c: byte :: decode[c] == DigitOf(c)
    }

    constructor ()
      ensures Valid() && fresh(decode)
    {
      decode := new byte[257](i => 0);
      new;
      var i := 0;
      while i < 64
        invariant 0 <= i <= 64
        invariant forall c: byte :: decode[c] == if IsLetter(c) && DigitOf(c) < i then DigitOf(c) else 0
      {
        LetterIsLetter(i);
        decode[Letter(i)] := i;
        i := i + 1;
      }
    }

    static function E(x: nat): byte {
      Letter(x % 64)
    }
  }

  /** The high bits that a shift leaves in the byte are masked off. */
  lemma LowBits(a: nat, r: nat)
    requires a < 256 && r < 16
    ensures (a * 16 % 256 + r) % 64 == a % 4 * 16 + r
  {
    var h, u, v := a / 16, a % 16 / 4, a % 4;
    assert a == 16 * h + 4 * u + v;
    assert a * 16 % 256 == 64 * u + 16 * v;
  }

  lemma Shifts(a: nat, b: nat, c: nat)
    requires a < 256 && b < 256 && c < 256
    ensures (a * 16 % 256) % 64 == a % 4 * 16 && (a * 16 % 256 + b / 16 % 16) % 64 == a % 4 * 16 + b / 16
    ensures a / 4 % 64 == a / 4 && b % 16 * 4 % 64 == b % 16 * 4
    ensures (b % 16 * 4 + c / 64 % 4) % 64 == b % 16 * 4 + c / 64 && c % 64 % 64 == c % 64
  {
    LowBits(a, 0);
    assert b / 16 % 16 == b / 16;
    LowBits(a, b / 16);
  }

  /** One turn of the loop of `encode`: shifts are products and quotients, an or of disjoint bits is a sum. */
  method EncodeGroup(start: seq<byte>) returns (ss: seq<byte>)
    requires start != []
    ensures ss == Letters(start)
  {
    hide Group, Letter;
    var left := |start|;
    var b0: nat, b1: nat, b2: nat := start[0], if left > 1 then start[1] else 0, if left > 2 then start[2] else 0;
    GroupDigits(b0, b1, b2);
    Shifts(b0, b1, b2);
    ss := [Alphabet.E(b0 / 4)];
    var temp := b0 * 16 % 256;
    if left == 1 {
      return ss + [Alphabet.E(temp)];
    }
    temp := temp + b1 / 16 % 16;
    ss := ss + [Alphabet.E(temp)];
    temp := b1 % 16 * 4;
    if left == 2 {
      return ss + [Alphabet.E(temp)];
    }
    temp := temp + b2 / 64 % 4;
    ss := ss + [Alphabet.E(temp)];
    ss := ss + [Alphabet.E(b2 % 64)];
  }

  method Encode(data: seq<byte>) returns (ss: seq<byte>)
    ensures ss == Encoded(data)
  {
    hide Encoded, Padding, Letters;
    ss := [];
    var size, i := |data|, 0;
    assert data[0..] == data;
    while i < size
      invariant 0 <= i && i % 3 == 0
      invariant if i <= size then ss + Encoded(data[i..]) == Encoded(data) else ss + Padding(size) == Encoded(data)
    {
      EncodedTurn(data, i, ss);
      var group := EncodeGroup(data[i..]);
      ss := ss + group;
      i := i + 3;
    }
    if i == size {
      NoPadding(data, i);
    }
    ss := ss + Padding(size);
  }

  lemma NoPadding(data: seq<byte>, i: nat)
    requires i == |data| && i % 3 == 0
    ensures Padding(i) == Encoded(data[i..]) == []
  {
  }

  lemma EncodedTurn(data: seq<byte>, i: nat, ss: seq<byte>)
    requires i < |data| && i % 3 == 0
    ensures var now := ss + Letters(data[i..]);
            ss + Encoded(data[i..]) == if i + 3 <= |data| then now + Encoded(data[i + 3..]) else now + Padding(|data|)
  {
    hide Encoded, Letters;
    EncodedSplit(data[i..]);
    if i + 3 <= |data| {
      assert data[i..][3..] == data[i + 3..];
    } else {
      assert |data[i..]| % 3 == |data| % 3;
    }
  }

  /** What the shifts and masks of `decode` leave of four digits. */
  lemma Masked(w: nat, x: nat, y: nat, z: nat)
    requires w < 64 && x < 64 && y < 64 && z < 64
    ensures w * 4 % 256 + x / 16 % 4 == w * 4 + x / 16
    ensures x * 16 % 256 + y / 4 % 16 == x % 16 * 16 + y / 4
    ensures y * 64 % 256 + z % 64 == y % 4 * 64 + z
  {
    assert x == x / 16 * 16 + x % 16;
    assert y == y / 4 * 4 + y % 4;
  }

  /** One turn of the loop of `decode`. */
  method DecodeGroup(alphabet: Alphabet, start: seq<byte>) returns (b: seq<byte>)
    requires alphabet.Valid() && |start| >= 4
    ensures b == GroupBytes(start)
  {
    hide DigitOf, Ungrouped;
    var v0: nat, v1: nat := alphabet.decode[start[0]], alphabet.decode[start[1]];
    var v2: nat, v3: nat := alphabet.decode[start[2]], alphabet.decode[start[3]];
    UngroupedBytes(v0, v1, v2, v3);
    Masked(v0, v1, v2, v3);
    var buf: seq<byte> := [
      v0 * 4 % 256 + v1 / 16 % 4,
      v1 * 16 % 256 + v2 / 4 % 16,
      v2 * 64 % 256 + v3 % 64];
    var len := 3;
    if start[3] == PAD {
      len := 2;
      if start[2] == PAD {
        len := 1;
      }
    }
    b := buf[..len];
  }

  /** `decode`, of text whose length is a multiple of four, as the source asserts. */
  method Decode(alphabet: Alphabet, s: seq<byte>) returns (ss: seq<byte>)
    requires alphabet.Valid() && |s| % 4 == 0
    ensures ss == Decoded(s)
  {
    hide GroupBytes;
    ss := [];
    var i := 0;
    assert s[0..] == s;
    while i < |s|
      invariant 0 <= i <= |s| && i % 4 == 0
      invariant ss + Decoded(s[i..]) == Decoded(s)
    {
      assert s[i..][4..] == s[i + 4..];
      var b := DecodeGroup(alphabet, s[i..]);
      assert ss + (b + Decoded(s[i + 4..])) == ss + b + Decoded(s[i + 4..]);
      ss := ss + b;
      i := i + 4;
    }
  }
}
